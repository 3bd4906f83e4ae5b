/**
 * Streaming UTF-8 validation with a table-driven automaton (utf8_validator.hpp),
 * against section 4 of RFC 3629.
 */
module Utf8 {
  import opened Bytes

  // ---------------------------------------------------------------------------
  // The encoding of RFC 3629
  // ---------------------------------------------------------------------------

  /** A Unicode scalar value: a code point that is not a surrogate. */
  predicate IsScalar(v: nat) {
    v <= 0x10FFFF && !(0xD800 <= v < 0xE000)
  }

  type Scalar = v: nat | v <= 0x10FFFF && !(0xD800 <= v < 0xE000)

  function Encode(v: Scalar): (s: seq<Byte>)
    ensures 1 <= |s| <= 4
  {
    if v < 0x80 then [v]
    else if v < 0x800 then [0xC0 + v / 64, 0x80 + v % 64]
    else if v < 0x10000 then [0xE0 + v / 4096, 0x80 + v / 64 % 64, 0x80 + v % 64]
    else [0xF0 + v / 262144, 0x80 + v / 4096 % 64, 0x80 + v / 64 % 64, 0x80 + v % 64]
  }

  function EncodeAll(vs: seq<Scalar>): seq<Byte> {
    if vs == [] then [] else EncodeAll(vs[..|vs| - 1]) + Encode(vs[|vs| - 1])
  }

  lemma EncodeSnoc(vs: seq<Scalar>, v: Scalar)
    ensures EncodeAll(vs + [v]) == EncodeAll(vs) + Encode(v)
  {
    assert (vs + [v])[..|vs|] == vs;
  }

  // ---------------------------------------------------------------------------
  // The automaton
  // ---------------------------------------------------------------------------

  const ACCEPT: nat := 0
  const REJECT: nat := 1

  /** The first part of the table `utf8d`: the class of a byte. */
  function ByteClass(b: Byte): (t: nat)
    ensures t <= 11
  {
    if b < 0x80 then 0
    else if b < 0x90 then 1
    else if b < 0xA0 then 9
    else if b < 0xC0 then 7
    else if b < 0xC2 then 8
    else if b < 0xE0 then 2
    else if b == 0xE0 then 10
    else if b == 0xED then 4
    else if b < 0xF0 then 3
    else if b == 0xF0 then 11
    else if b < 0xF4 then 6
    else if b == 0xF4 then 5
    else 8
  }

  /** A row of its second part for a state inside a character: next states after 80..8F, 90..9F and A0..BF. */
  function Inside(t: nat, low: nat, mid: nat, high: nat): nat {
    if t == 1 then low else if t == 9 then mid else if t == 7 then high else REJECT
  }

  /** Its second part: the next state. */
  function NextState(state: nat, t: nat): (r: nat)
    requires state <= 8 && t <= 11
    ensures r <= 8
  {
    match state
    case 0 =>
      if t == 0 then ACCEPT else if t == 2 then 2 else if t == 3 then 3 else if t == 4 then 5
      else if t == 5 then 8 else if t == 6 then 7 else if t == 10 then 4 else if t == 11 then 6 else REJECT
    case 1 => REJECT
    case 2 => Inside(t, ACCEPT, ACCEPT, ACCEPT)
    case 3 => Inside(t, 2, 2, 2)
    case 4 => Inside(t, REJECT, REJECT, 2)
    case 5 => Inside(t, 2, 2, REJECT)
    case 6 => Inside(t, REJECT, 3, 3)
    case 7 => Inside(t, 3, 3, 3)
    case _ => Inside(t, 3, REJECT, REJECT)
  }

  /** `(0xff >> type) & byte`. */
  function LeadBits(t: nat, b: Byte): Byte
    requires t <= 11
  {
    match t
    case 0 => b
    case 1 => b % 0x80
    case 2 => b % 0x40
    case 3 => b % 0x20
    case 4 => b % 0x10
    case 5 => b % 8
    case 6 => b % 4
    case 7 => b % 2
    case _ => 0
  }

  const WORD: nat := 0x1_0000_0000

  datatype Scan = Scan(state: nat, codepoint: nat)

  const Initial: Scan := Scan(ACCEPT, 0)

  /** `decode` of one byte, with a 32-bit code point. */
  function Step(d: Scan, b: Byte): (r: Scan)
    requires d.state <= 8
    ensures r.state <= 8
    ensures d.state == REJECT ==> r.state == REJECT
  {
    var t := ByteClass(b);
    Scan(NextState(d.state, t),
         if d.state != ACCEPT then b % 0x40 + d.codepoint * 0x40 % WORD else LeadBits(t, b))
  }

  function Run(d: Scan, s: seq<Byte>): (r: Scan)
    requires d.state <= 8
    ensures r.state <= 8
  {
    if s == [] then d else Step(Run(d, s[..|s| - 1]), s[|s| - 1])
  }

  /** The code points that the automaton holds whenever it comes to the accepting state. */
  function Seen(s: seq<Byte>): (vs: seq<nat>) {
    if s == [] then [] else
      Seen(s[..|s| - 1]) + (if Run(Initial, s).state == ACCEPT then [Run(Initial, s).codepoint] else [])
  }

  lemma Snoc(s: seq<Byte>, b: Byte)
    ensures Run(Initial, s + [b]) == Step(Run(Initial, s), b)
    ensures var r := Run(Initial, s + [b]);
      Seen(s + [b]) == Seen(s) + if r.state == ACCEPT then [r.codepoint] else []
  {
    assert (s + [b])[..|s|] == s;
  }

  /** Rejection is absorbing. */
  lemma {:induction false} RejectedForGood(s: seq<Byte>, t: seq<Byte>)
    requires Run(Initial, s).state == REJECT
    ensures Run(Initial, s + t).state == REJECT
  {
    if t == [] {
      assert s + t == s;
    } else {
      var u := t[..|t| - 1];
      RejectedForGood(s, u);
      assert s + t == (s + u) + [t[|t| - 1]];
      Snoc(s + u, t[|t| - 1]);
    }
  }

  // ---------------------------------------------------------------------------
  // What is accepted is an encoding
  // ---------------------------------------------------------------------------

  /** An unfinished character: its bytes so far, by state and by the bits collected. */
  ghost predicate Partial(d: Scan, p: seq<Byte>) {
    var c := d.codepoint;
    match d.state
    case 0 => p == []
    case 2 =>
      || (p == [0xC0 + c] && 2 <= c < 0x20)
      || (p == [0xE0 + c / 64, 0x80 + c % 64] && 0x20 <= c < 0x400 && !(0x360 <= c < 0x380))
      || (p == [0xF0 + c / 4096, 0x80 + c / 64 % 64, 0x80 + c % 64] && 0x400 <= c < 0x4400)
    case 3 =>
      || (p == [0xE0 + c] && 1 <= c < 16 && c != 13)
      || (p == [0xF0 + c / 64, 0x80 + c % 64] && 0x10 <= c < 0x110)
    case 4 => p == [0xE0] && c == 0
    case 5 => p == [0xED] && c == 13
    case 6 => p == [0xF0] && c == 0
    case 7 => p == [0xF0 + c] && 1 <= c < 4
    case 8 => p == [0xF4] && c == 4
    case _ => false
  }

  /** What a byte may do to an unfinished character: it is rejected, or ends it, or carries it on. */
  ghost predicate Continued(r: Scan, p: seq<Byte>) {
    || r.state == REJECT
    || (r.state == ACCEPT && IsScalar(r.codepoint) && p == Encode(r.codepoint))
    || (r.state != ACCEPT && Partial(r, p))
  }

  /** Between characters, the next state and the bits that the byte brings. */
  lemma FirstStep(d: Scan, b: Byte)
    requires d.state == ACCEPT
    ensures var r := Step(d, b);
      if b < 0x80 then r == Scan(ACCEPT, b)
      else if b < 0xC2 || b > 0xF4 then r.state == REJECT
      else if b < 0xE0 then r == Scan(2, b - 0xC0)
      else if b < 0xF0 then r == Scan(if b == 0xE0 then 4 else if b == 0xED then 5 else 3, b - 0xE0)
      else r == Scan(if b == 0xF0 then 6 else if b == 0xF4 then 8 else 7, b - 0xF0)
  {
  }

  lemma FirstByte(d: Scan, b: Byte)
    requires d.state == ACCEPT
    ensures Continued(Step(d, b), [b])
  {
    FirstStep(d, b);
    hide Step;
  }

  lemma StrayByte(d: Scan, b: Byte)
    requires 2 <= d.state <= 8 && !(0x80 <= b < 0xC0)
    ensures Step(d, b).state == REJECT
  {
  }

  /** A continuation byte, with its six bits. */
  lemma BitsJoined(d: Scan, p: seq<Byte>, b: Byte)
    requires 2 <= d.state <= 8 && Partial(d, p) && 0x80 <= b < 0xC0
    ensures var c2 := 64 * d.codepoint + (b - 0x80);
      && Step(d, b) == Scan(NextState(d.state, ByteClass(b)), c2)
      && c2 / 64 == d.codepoint && c2 % 64 == b - 0x80 && c2 / 4096 == d.codepoint / 64
      && c2 / 262144 == d.codepoint / 4096 && c2 / 4096 % 64 == d.codepoint / 64 % 64
  {
    hide ByteClass, NextState;
    assert d.codepoint < 0x4400;
  }

  lemma LastByte(d: Scan, p: seq<Byte>, b: Byte)
    requires d.state == 2 && Partial(d, p) && 0x80 <= b < 0xC0
    ensures Continued(Step(d, b), p + [b])
  {
    hide Step;
    BitsJoined(d, p, b);
    assert NextState(2, ByteClass(b)) == ACCEPT;
  }

  lemma InnerByte(d: Scan, p: seq<Byte>, b: Byte)
    requires 3 <= d.state <= 8 && Partial(d, p) && 0x80 <= b < 0xC0
    ensures Continued(Step(d, b), p + [b])
  {
    hide Step, Encode;
    BitsJoined(d, p, b);
    assert NextState(d.state, ByteClass(b)) in {REJECT, 2, 3};
  }

  lemma PartialStep(d: Scan, p: seq<Byte>, b: Byte)
    requires d.state <= 8 && Partial(d, p)
    ensures Continued(Step(d, b), p + [b])
  {
    hide Step, Continued;
    if d.state == 0 {
      FirstByte(d, b);
      assert p + [b] == [b];
    } else if !(0x80 <= b < 0xC0) {
      StrayByte(d, b);
      Rejected(d, p, b);
    } else if d.state == 2 {
      LastByte(d, p, b);
    } else {
      InnerByte(d, p, b);
    }
  }

  lemma Rejected(d: Scan, p: seq<Byte>, b: Byte)
    requires d.state <= 8 && Step(d, b).state == REJECT
    ensures Continued(Step(d, b), p + [b])
  {
  }

  /** As long as nothing is rejected, the input is whole characters and an unfinished one. */
  lemma {:induction false} Split(s: seq<Byte>) returns (vs: seq<Scalar>, p: seq<Byte>)
    requires Run(Initial, s).state != REJECT
    ensures Partial(Run(Initial, s), p)
    ensures Seen(s) == vs && s == EncodeAll(vs) + p
  {
    if s == [] {
      vs, p := [], [];
    } else {
      var u, b := s[..|s| - 1], s[|s| - 1];
      assert s == u + [b];
      Snoc(u, b);
      vs, p := Split(u);
      hide Run, Seen, Step, EncodeAll, Partial;
      PartialStep(Run(Initial, u), p, b);
      assert s == EncodeAll(vs) + (p + [b]);
      vs, p := SplitMore(Run(Initial, s), vs, p + [b]);
    }
  }

  /** A finished character joins the others. */
  lemma SplitMore(r: Scan, vs: seq<Scalar>, p: seq<Byte>) returns (us: seq<Scalar>, q: seq<Byte>)
    requires r.state != REJECT && Continued(r, p)
    ensures Partial(r, q) && EncodeAll(us) + q == EncodeAll(vs) + p
    ensures us == if r.state == ACCEPT then vs + [r.codepoint] else vs
  {
    hide EncodeAll, Partial, Encode;
    us, q := vs, p;
    if r.state == ACCEPT {
      EncodeSnoc(vs, r.codepoint);
      Finished(r);
      us, q := vs + [r.codepoint], [];
    }
  }

  lemma Finished(d: Scan)
    requires d.state == ACCEPT
    ensures Partial(d, [])
  {
  }

  // ---------------------------------------------------------------------------
  // Every encoding is accepted
  // ---------------------------------------------------------------------------

  lemma OneByte(s: seq<Byte>, v: Scalar)
    requires Run(Initial, s).state == ACCEPT && |Encode(v)| == 1
    ensures Run(Initial, s + Encode(v)) == Scan(ACCEPT, v) && Seen(s + Encode(v)) == Seen(s) + [v]
  {
    Snoc(s, v);
  }

  /** The state and the bits after the first byte of a longer character. */
  function Lead(v: Scalar): Scan
    requires v >= 0x80
  {
    if v < 0x800 then Scan(2, v / 64)
    else if v < 0x10000 then Scan(if v < 0x1000 then 4 else if 0xD000 <= v < 0xE000 then 5 else 3, v / 4096)
    else Scan(if v < 0x40000 then 6 else if v >= 0x100000 then 8 else 7, v / 262144)
  }

  lemma LeadStep(v: Scalar, c: nat)
    requires v >= 0x80
    ensures Step(Scan(ACCEPT, c), Encode(v)[0]) == Lead(v)
  {
    var b := Encode(v)[0];
    if v < 0x800 {
      assert b == 0xC0 + v / 64 && ByteClass(b) == 2;
    } else if v < 0x10000 {
      assert b == 0xE0 + v / 4096;
    } else {
      assert b == 0xF0 + v / 262144;
    }
  }

  lemma LeadByte(s: seq<Byte>, v: Scalar)
    requires Run(Initial, s).state == ACCEPT && v >= 0x80
    ensures Run(Initial, s + Encode(v)[..1]) == Lead(v)
    ensures Seen(s + Encode(v)[..1]) == Seen(s)
  {
    hide Step;
    assert Encode(v)[..1] == [Encode(v)[0]];
    Snoc(s, Encode(v)[0]);
    LeadStep(v, Run(Initial, s).codepoint);
  }

  /** A further byte of the character. */
  lemma MiddleByte(s: seq<Byte>, v: Scalar, k: nat, state: nat, next: nat, c: nat, x: nat)
    requires 0 < k < |Encode(v)| && x < 64 && Encode(v)[k] == 0x80 + x && c < 0x100000
    requires Run(Initial, s + Encode(v)[..k]) == Scan(state, c) && 2 <= state <= 8
    requires next == NextState(state, ByteClass(0x80 + x))
    ensures Run(Initial, s + Encode(v)[..k + 1]) == Scan(next, 64 * c + x)
    ensures next != ACCEPT ==> Seen(s + Encode(v)[..k + 1]) == Seen(s + Encode(v)[..k])
    ensures next == ACCEPT ==> Seen(s + Encode(v)[..k + 1]) == Seen(s + Encode(v)[..k]) + [64 * c + x]
  {
    var e := Encode(v);
    Snoc(s + e[..k], e[k]);
    MiddleStep(state, c, x);
    hide Encode, Step;
    assert s + e[..k + 1] == (s + e[..k]) + [e[k]];
  }

  lemma MiddleStep(state: nat, c: nat, x: nat)
    requires 2 <= state <= 8 && x < 64 && c < 0x100000
    ensures Step(Scan(state, c), 0x80 + x) == Scan(NextState(state, ByteClass(0x80 + x)), 64 * c + x)
  {
    hide NextState, ByteClass;
  }

  /** Which states a continuation byte leads through. */
  lemma Continues(x: nat)
    requires x < 64
    ensures var t := ByteClass(0x80 + x);
      && NextState(2, t) == ACCEPT && NextState(3, t) == 2 && NextState(7, t) == 3
      && (x >= 0x20 ==> NextState(4, t) == 2) && (x < 0x20 ==> NextState(5, t) == 2)
      && (x >= 0x10 ==> NextState(6, t) == 3) && (x < 0x10 ==> NextState(8, t) == 3)
  {
  }

  /** From an accepting state, a whole character leads back to it, and its value is seen once, at the end. */
  lemma CharAccepted(s: seq<Byte>, v: Scalar)
    requires Run(Initial, s).state == ACCEPT
    ensures Run(Initial, s + Encode(v)) == Scan(ACCEPT, v) && Seen(s + Encode(v)) == Seen(s) + [v]
  {
    hide Run, Seen, NextState, ByteClass, Step;
    assert Encode(v)[..|Encode(v)|] == Encode(v);
    if v < 0x80 {
      OneByte(s, v);
    } else if v < 0x800 {
      LeadByte(s, v);
      Continues(v % 64);
      MiddleByte(s, v, 1, 2, 0, v / 64, v % 64);
    } else if v < 0x10000 {
      ThreeBytes(s, v);
    } else {
      FourBytes(s, v);
    }
  }

  lemma Regroup(v: nat)
    ensures v / 4096 * 64 + v / 64 % 64 == v / 64
    ensures v / 262144 * 64 + v / 4096 % 64 == v / 4096
  {
  }

  lemma ThreeBytes(s: seq<Byte>, v: Scalar)
    requires Run(Initial, s).state == ACCEPT && 0x800 <= v < 0x10000
    ensures Run(Initial, s + Encode(v)[..3]) == Scan(ACCEPT, v) && Seen(s + Encode(v)[..3]) == Seen(s) + [v]
  {
    hide Run, Seen, NextState, ByteClass, Step;
    LeadByte(s, v);
    Regroup(v);
    Continues(v / 64 % 64);
    MiddleByte(s, v, 1, Lead(v).state, 2, v / 4096, v / 64 % 64);
    Continues(v % 64);
    MiddleByte(s, v, 2, 2, 0, v / 64, v % 64);
  }

  lemma FourBytes(s: seq<Byte>, v: Scalar)
    requires Run(Initial, s).state == ACCEPT && 0x10000 <= v
    ensures Run(Initial, s + Encode(v)[..4]) == Scan(ACCEPT, v) && Seen(s + Encode(v)[..4]) == Seen(s) + [v]
  {
    hide Run, Seen, NextState, ByteClass, Step;
    LeadByte(s, v);
    Regroup(v);
    Continues(v / 4096 % 64);
    MiddleByte(s, v, 1, Lead(v).state, 3, v / 262144, v / 4096 % 64);
    Continues(v / 64 % 64);
    MiddleByte(s, v, 2, 3, 2, v / 4096, v / 64 % 64);
    Continues(v % 64);
    MiddleByte(s, v, 3, 2, 0, v / 64, v % 64);
  }

  lemma {:induction false} TextAccepted(vs: seq<Scalar>)
    ensures Run(Initial, EncodeAll(vs)).state == ACCEPT && Seen(EncodeAll(vs)) == vs
  {
    hide Encode;
    if vs != [] {
      TextAccepted(vs[..|vs| - 1]);
      CharAccepted(EncodeAll(vs[..|vs| - 1]), vs[|vs| - 1]);
    }
  }

  /** The input is the encoding of some sequence of scalar values. */
  ghost predicate IsUtf8(s: seq<Byte>) {
    exists vs: seq<Scalar> :: s == EncodeAll(vs)
  }

  /** Acceptance is exactly being UTF-8, and what the automaton has seen is then the one text encoded. */
  lemma AcceptsExactly(s: seq<Byte>)
    ensures Run(Initial, s).state == ACCEPT <==> IsUtf8(s)
    ensures forall vs: seq<Scalar> :: s == EncodeAll(vs) ==> Seen(s) == vs
  {
    if Run(Initial, s).state == ACCEPT {
      var vs, p := Split(s);
      assert s == EncodeAll(vs);
    }
    forall vs: seq<Scalar> | s == EncodeAll(vs) ensures Seen(s) == vs && Run(Initial, s).state == ACCEPT {
      TextAccepted(vs);
    }
  }

  /** Rejection comes with the first byte after which no text can follow. */
  lemma RejectsExactly(s: seq<Byte>)
    ensures Run(Initial, s).state == REJECT <==> forall t :: !IsUtf8(s + t)
  {
    if Run(Initial, s).state == REJECT {
      forall t ensures !IsUtf8(s + t) {
        RejectedForGood(s, t);
        AcceptsExactly(s + t);
      }
    } else {
      var t := Completion(s);
      assert IsUtf8(s + t);
    }
  }

  /** Whatever is not rejected can still become a text. */
  lemma Completion(s: seq<Byte>) returns (t: seq<Byte>)
    requires Run(Initial, s).state != REJECT
    ensures IsUtf8(s + t)
  {
    hide Run, Seen, EncodeAll, Encode, Partial;
    var vs, p := Split(s);
    var v: Scalar;
    v, t := FinishChar(Run(Initial, s), p);
    assert s + t == EncodeAll(vs) + (p + t);
    if t == [] {
      assert s + t == EncodeAll(vs);
    } else {
      EncodeSnoc(vs, v);
    }
  }

  /** A scalar value that an unfinished character can become. */
  function Finishing(d: Scan): nat {
    if d.state == 2 then 64 * d.codepoint
    else if d.state == 3 || d.state == 5 then 4096 * d.codepoint
    else if d.state == 4 then 0x800
    else if d.state == 6 then 0x10000
    else 262144 * d.codepoint
  }

  ghost predicate Begins(v: nat, p: seq<Byte>) {
    IsScalar(v) && |p| < |Encode(v)| && p == Encode(v)[..|p|]
  }

  /** One continuation byte to come. */
  lemma BeginsLast(d: Scan, p: seq<Byte>)
    requires d.state == 2 && Partial(d, p)
    ensures Begins(64 * d.codepoint, p)
  {
    var c := d.codepoint;
    var e := Encode(64 * c);
    if c < 0x20 {
      assert e == [0xC0 + c, 0x80];
    } else if c < 0x400 {
      assert e == [0xE0 + c / 64, 0x80 + c % 64, 0x80];
    } else {
      assert e == [0xF0 + c / 4096, 0x80 + c / 64 % 64, 0x80 + c % 64, 0x80];
    }
  }

  /** Two continuation bytes to come. */
  lemma BeginsMiddle(d: Scan, p: seq<Byte>)
    requires (d.state == 3 || d.state == 5) && Partial(d, p)
    ensures Begins(4096 * d.codepoint, p)
  {
    var c := d.codepoint;
    var e := Encode(4096 * c);
    if c < 16 {
      assert e == [0xE0 + c, 0x80, 0x80];
    } else {
      assert e == [0xF0 + c / 64, 0x80 + c % 64, 0x80, 0x80];
    }
  }

  lemma BeginsChar(d: Scan, p: seq<Byte>)
    requires d.state <= 8 && Partial(d, p) && p != []
    ensures Begins(Finishing(d), p)
  {
    if d.state == 2 {
      BeginsLast(d, p);
    } else if d.state == 3 || d.state == 5 {
      BeginsMiddle(d, p);
    }
  }

  lemma FinishChar(d: Scan, p: seq<Byte>) returns (v: Scalar, t: seq<Byte>)
    requires d.state <= 8 && Partial(d, p)
    ensures if p == [] then t == [] else t != [] && p + t == Encode(v)
  {
    v, t := 0, [];
    hide Encode, Finishing, Partial;
    if p != [] {
      v := Finishing(d);
      BeginsChar(d, p);
      t := Encode(v)[|p|..];
      assert p == Encode(v)[..|p|];
    }
  }

  // ---------------------------------------------------------------------------
  // The validator
  // ---------------------------------------------------------------------------

  class Validator {
    var state: nat
    var codepoint: nat
    ghost var fed: seq<Byte>  // everything fed since the last reset

    /** In step with the automaton on everything fed, in whatever chunks. */
    ghost predicate Valid()
      reads this
    {
      && state == Run(Initial, fed).state
      && (state != REJECT ==> codepoint == Run(Initial, fed).codepoint)
    }

    constructor ()
      ensures Valid() && fed == []
    {
      state, codepoint, fed := ACCEPT, 0, [];
    }

    lemma Initially()
      ensures Run(Initial, []) == Initial
    {
    }

    method Consume(byte: Byte) returns (ok: bool)
      requires Valid()
      modifies this
      ensures Valid() && fed == old(fed) + [byte]
      ensures ok <==> exists t :: IsUtf8(fed + t)
    {
      Snoc(fed, byte);
      var next := Step(Scan(state, codepoint), byte);
      fed := fed + [byte];
      state, codepoint := next.state, next.codepoint;
      RejectsExactly(fed);
      return state != REJECT;
    }

    /** `decode` of a chunk: stops at the first rejected byte; an empty chunk is never an error. */
    method Decode(chunk: seq<Byte>) returns (ok: bool)
      requires Valid()
      modifies this
      ensures Valid() && fed == old(fed) + chunk
      ensures ok <==> chunk == [] || exists t :: IsUtf8(fed + t)
    {
      hide Step, IsUtf8, Run, Seen;
      Initially();
      ghost var before := fed;
      assert fed == before + chunk[..0];
      for i := 0 to |chunk|
        invariant Valid() && fed == before + chunk[..i]
        invariant i > 0 ==> state != REJECT
      {
        Snoc(fed, chunk[i]);
        assert chunk[..i + 1] == chunk[..i] + [chunk[i]];
        var next := Step(Scan(state, codepoint), chunk[i]);
        state, codepoint := next.state, next.codepoint;
        fed := fed + [chunk[i]];
        if state == REJECT {
          RejectedForGood(fed, chunk[i + 1..]);
          assert fed + chunk[i + 1..] == before + chunk;
          fed := before + chunk;
          RejectsExactly(fed);
          return false;
        }
      }
      assert chunk[..|chunk|] == chunk;
      RejectsExactly(fed);
      return true;
    }

    method Complete() returns (ok: bool)
      requires Valid()
      ensures ok <==> IsUtf8(fed)
    {
      AcceptsExactly(fed);
      return state == ACCEPT;
    }

    method Reset()
      modifies this
      ensures Valid() && fed == []
    {
      state := ACCEPT;
      codepoint := 0;
      fed := [];
    }
  }

  /** `validate`. */
  method Validate(s: seq<Byte>) returns (ok: bool)
    ensures ok <==> IsUtf8(s)
  {
    var v := new Validator();
    var decoded := v.Decode(s);
    assert v.fed == s;
    if !decoded {
      assert s + [] == s;
      return false;
    }
    ok := v.Complete();
  }

  /** A message split into chunks is decoded as a whole. */
  method ValidateChunks(chunks: seq<seq<Byte>>) returns (ok: bool)
    ensures ok <==> IsUtf8(Joined(chunks))
  {
    var v := new Validator();
    assert Joined(chunks[..0]) == [];
    for i := 0 to |chunks|
      invariant v.Valid() && v.fed == Joined(chunks[..i]) && fresh(v)
    {
      assert chunks[..i + 1] == chunks[..i] + [chunks[i]];
      var decoded := v.Decode(chunks[i]);
    }
    assert chunks[..|chunks|] == chunks;
    ok := v.Complete();
  }

  ghost function Joined(chunks: seq<seq<Byte>>): seq<Byte> {
    if chunks == [] then [] else Joined(chunks[..|chunks| - 1]) + chunks[|chunks| - 1]
  }
}
