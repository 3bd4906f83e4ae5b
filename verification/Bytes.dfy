/** Bytes and zero-extended big-endian numbers. */
module Bytes {
  import opened Arith

  type Byte = x: int | 0 <= x < 256

  function Repeat(b: Byte, n: nat): (s: seq<Byte>)
    ensures |s| == n && forall i :: 0 <= i < n ==> s[i] == b
  {
    seq(n, i => b)
  }

  /** Byte `i` of the infinite stream that starts with `s` and goes on with zeros. */
  function At(s: seq<Byte>, i: nat): Byte {
    if i < |s| then s[i] else 0
  }

  /** The number written by the first `m` bytes of that stream, most significant byte first. */
  function Prefix(s: seq<Byte>, m: nat): nat {
    if m == 0 then 0 else 256 * Prefix(s, m - 1) + At(s, m - 1)
  }

  function Value(s: seq<Byte>): nat {
    Prefix(s, |s|)
  }

  lemma {:induction false} PrefixSame(s: seq<Byte>, t: seq<Byte>, m: nat)
    requires forall i :: 0 <= i < m ==> At(s, i) == At(t, i)
    ensures Prefix(s, m) == Prefix(t, m)
  {
    if m > 0 {
      PrefixSame(s, t, m - 1);
    }
  }

  lemma ValueSnoc(s: seq<Byte>, b: Byte)
    ensures Value(s + [b]) == 256 * Value(s) + b
  {
    PrefixSame(s + [b], s, |s|);
  }

  lemma {:induction false} PrefixBound(s: seq<Byte>, m: nat)
    ensures Prefix(s, m) < Pow2(8 * m)
  {
    if m > 0 {
      PrefixBound(s, m - 1);
      Pow2Byte(m - 1);
    }
  }

  /** Past the end of `s` every further byte multiplies by 256. */
  lemma {:induction false} PrefixPastEnd(s: seq<Byte>, m: nat)
    requires |s| <= m
    ensures Prefix(s, m) == Value(s) * Pow2(8 * (m - |s|))
    decreases m
  {
    if m == |s| {
      assert Pow2(0) == 1;
    } else {
      PrefixPastEnd(s, m - 1);
      Pow2Byte(m - 1 - |s|);
      assert 256 * (Value(s) * Pow2(8 * (m - 1 - |s|))) == Value(s) * (256 * Pow2(8 * (m - 1 - |s|)));
    }
  }

  /** Equal numbers with equally many bytes are the same bytes. */
  lemma {:induction false} PrefixInjective(s: seq<Byte>, t: seq<Byte>, m: nat)
    requires Prefix(s, m) == Prefix(t, m)
    ensures forall i :: 0 <= i < m ==> At(s, i) == At(t, i)
  {
    if m > 0 {
      assert At(s, m - 1) == At(t, m - 1);
      PrefixInjective(s, t, m - 1);
    }
  }

  /** No final zero byte: the form "Pacman" termination leaves. */
  predicate Trimmed(s: seq<Byte>) {
    s == [] || s[|s| - 1] != 0
  }

  /** Trimmed strings that write the same zero-extended number are equal. */
  lemma TrimmedUnique(s: seq<Byte>, t: seq<Byte>, m: nat)
    requires Trimmed(s) && Trimmed(t) && |s| <= m && |t| <= m
    requires Prefix(s, m) == Prefix(t, m)
    ensures s == t
  {
    PrefixInjective(s, t, m);
    assert |s| > 0 ==> At(s, |s| - 1) == At(t, |s| - 1);
    assert |t| > 0 ==> At(s, |t| - 1) == At(t, |t| - 1);
    assert |s| == |t|;
    forall i | 0 <= i < |s| ensures s[i] == t[i] {
      assert At(s, i) == At(t, i);
    }
  }

  function Trim(s: seq<Byte>): (t: seq<Byte>)
    ensures Trimmed(t) && |t| <= |s|
    ensures t == s[..|t|] && forall i :: |t| <= i < |s| ==> s[i] == 0
  {
    if s != [] && s[|s| - 1] == 0 then Trim(s[..|s| - 1]) else s
  }

  /** The `m` low base-256 digits of `v`. */
  function ToBytes(v: nat, m: nat): (s: seq<Byte>)
    ensures |s| == m
  {
    if m == 0 then [] else ToBytes(v / 256, m - 1) + [v % 256]
  }

  lemma {:induction false} ToBytesValue(v: nat, m: nat)
    requires v < Pow2(8 * m)
    ensures Value(ToBytes(v, m)) == v
  {
    if m > 0 {
      Pow2Byte(m - 1);
      ToBytesValue(v / 256, m - 1);
      ValueSnoc(ToBytes(v / 256, m - 1), v % 256);
    }
  }

  /** Most significant byte first. */
  lemma {:induction false} BigEndian(v: nat, m: nat, i: nat)
    requires i < m
    ensures ToBytes(v, m)[i] == v / Pow2(8 * (m - 1 - i)) % 256
    decreases m
  {
    hide Pow2;
    if i == m - 1 {
      assert Pow2(0) == 1 by { Pow2Table(); }
    } else {
      var p := Pow2(8 * (m - 2 - i));
      BigEndian(v / 256, m - 1, i);
      Pow2Byte(m - 2 - i);
      DivTwice(v, p);
    }
  }

  lemma DivTwice(v: nat, p: nat)
    requires p > 0
    ensures v / 256 / p == v / (256 * p)
  {
    var q: nat := v / 256 / p;
    var r := v / 256 - q * p;
    assert 0 <= r < p && v == (q * p + r) * 256 + v % 256;
    MulAssoc(256, p, q);
    assert q * (256 * p) == (q * p) * 256;
    Division(v, 256 * p, q, r * 256 + v % 256);
  }

  /** Byte stuffing: every 0xFF of coded data is followed by 0x00 (section B.1.1.5 of T.81). */
  function Stuff(s: seq<Byte>): seq<Byte> {
    if s == [] then [] else
      Stuff(s[..|s| - 1]) + (if s[|s| - 1] == 0xFF then [0xFF, 0x00] else [s[|s| - 1]])
  }

  lemma StuffSnoc(s: seq<Byte>, b: Byte)
    ensures Stuff(s + [b]) == Stuff(s) + (if b == 0xFF then [0xFF, 0x00] else [b])
  {
    assert (s + [b])[..|s|] == s;
  }

  lemma {:induction false} StuffCons(b: Byte, s: seq<Byte>)
    ensures Stuff([b] + s) == (if b == 0xFF then [0xFF, 0x00] else [b]) + Stuff(s)
  {
    if s == [] {
      StuffSnoc([], b);
      assert [b] + s == [] + [b];
    } else {
      var front, last := s[..|s| - 1], s[|s| - 1];
      StuffCons(b, front);
      assert [b] + s == ([b] + front) + [last];
      StuffSnoc([b] + front, last);
      StuffSnoc(front, last);
      assert s == front + [last];
      hide Stuff;
    }
  }
}
