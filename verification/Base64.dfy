/** Base64 (section 4 of RFC 4648) by a shift register of 32 bits (ImageProcessor.cpp). */
module Base64 {
  import opened Arith
  import opened Bytes

  // ---------------------------------------------------------------------------
  // The encoding of RFC 4648
  // ---------------------------------------------------------------------------

  /** The alphabet: the character of a six-bit value. */
  function Char(v: nat): (c: char)
    requires v < 64
    ensures c != '='
  {
    if v < 26 then 'A' + v as char
    else if v < 52 then 'a' + (v - 26) as char
    else if v < 62 then '0' + (v - 52) as char
    else if v == 62 then '+' else '/'
  }

  /** The value of a character of the alphabet. */
  function SixBits(c: char): (v: nat)
    ensures v < 64
  {
    if 'A' <= c <= 'Z' then (c - 'A') as nat
    else if 'a' <= c <= 'z' then (c - 'a') as nat + 26
    else if '0' <= c <= '9' then (c - '0') as nat + 52
    else if c == '+' then 62 else 63
  }

  lemma CharSixBits(v: nat)
    requires v < 64
    ensures SixBits(Char(v)) == v
  {
  }

  // The four six-bit parts of three bytes.

  function Part0(a: Byte): (v: nat)
    ensures v < 64
  { a / 4 }

  function Part1(a: Byte, b: Byte): (v: nat)
    ensures v < 64
  { a % 4 * 16 + b / 16 }

  function Part2(b: Byte, c: Byte): (v: nat)
    ensures v < 64
  { b % 16 * 4 + c / 64 }

  function Part3(c: Byte): (v: nat)
    ensures v < 64
  { c % 64 }

  /** Groups of three bytes as four characters; the last group is padded. */
  function Encode(s: seq<Byte>): (t: string) {
    if s == [] then ""
    else if |s| == 1 then [Char(Part0(s[0])), Char(Part1(s[0], 0)), '=', '=']
    else if |s| == 2 then [Char(Part0(s[0])), Char(Part1(s[0], s[1])), Char(Part2(s[1], 0)), '=']
    else Group(s[0], s[1], s[2]) + Encode(s[3..])
  }

  /** Test vectors of section 10 of RFC 4648: "", "f", "fo", "foo", "foob", "fooba", "foobar". */
  lemma TestVectors()
    ensures Encode([]) == ""
    ensures Encode([0x66]) == "Zg==" && Encode([0x66, 0x6F]) == "Zm8=" && Encode([0x66, 0x6F, 0x6F]) == "Zm9v"
    ensures Encode([0x66, 0x6F, 0x6F, 0x62]) == "Zm9vYg==" && Encode([0x66, 0x6F, 0x6F, 0x62, 0x61]) == "Zm9vYmE="
    ensures Encode([0x66, 0x6F, 0x6F, 0x62, 0x61, 0x72]) == "Zm9vYmFy"
  {
    var foo := [0x66, 0x6F, 0x6F];
    assert Group(0x66, 0x6F, 0x6F) == "Zm9v" && Group(0x62, 0x61, 0x72) == "YmFy";
    hide Group;
    assert (foo + [0x62])[3..] == [0x62] && (foo + [0x62, 0x61])[3..] == [0x62, 0x61];
    assert (foo + [0x62, 0x61, 0x72])[3..] == [0x62, 0x61, 0x72] && foo[3..] == [];
    assert foo + [0x62] == [0x66, 0x6F, 0x6F, 0x62] && foo + [0x62, 0x61] == [0x66, 0x6F, 0x6F, 0x62, 0x61];
    assert foo + [0x62, 0x61, 0x72] == [0x66, 0x6F, 0x6F, 0x62, 0x61, 0x72] && [0x62, 0x61, 0x72][3..] == [];
  }

  function Group(a: Byte, b: Byte, c: Byte): (t: string)
    ensures |t| == 4
  {
    [Char(Part0(a)), Char(Part1(a, b)), Char(Part2(b, c)), Char(Part3(c))]
  }

  // The three bytes of four six-bit values.

  function Join0(x: nat, y: nat): Byte
    requires x < 64
  { (4 * x + y / 16) % 256 }

  function Join1(y: nat, z: nat): Byte
    requires z < 64
  { y % 16 * 16 + z / 4 }

  function Join2(z: nat, w: nat): Byte
    requires w < 64
  { z % 4 * 64 + w }

  lemma Joined(a: Byte, b: Byte, c: Byte)
    ensures Join0(Part0(a), Part1(a, b)) == a
    ensures Join1(Part1(a, b), Part2(b, c)) == b
    ensures Join2(Part2(b, c), Part3(c)) == c
  {
    assert Part1(a, b) / 16 == a % 4;
    assert Part1(a, b) % 16 == b / 16;
    assert Part2(b, c) / 4 == b % 16;
    assert Part2(b, c) % 4 == c / 64;
  }

  /** The bytes of groups of four characters. */
  function Decode(t: string): (s: seq<Byte>)
    requires |t| % 4 == 0
  {
    if t == "" then [] else
      var x, y, z, w := SixBits(t[0]), SixBits(t[1]), SixBits(t[2]), SixBits(t[3]);
      if t[2] == '=' then [Join0(x, y)]
      else if t[3] == '=' then [Join0(x, y), Join1(y, z)]
      else [Join0(x, y), Join1(y, z), Join2(z, w)] + Decode(t[4..])
  }

  lemma DecodeGroup(a: Byte, b: Byte, c: Byte, rest: string)
    requires |rest| % 4 == 0
    ensures Decode(Group(a, b, c) + rest) == [a, b, c] + Decode(rest)
  {
    hide Char, SixBits, Part0, Part1, Part2, Part3, Join0, Join1, Join2;
    CharSixBits(Part0(a));
    CharSixBits(Part1(a, b));
    CharSixBits(Part2(b, c));
    CharSixBits(Part3(c));
    Joined(a, b, c);
    assert (Group(a, b, c) + rest)[4..] == rest;
  }

  lemma DecodeOne(a: Byte)
    ensures Decode(Encode([a])) == [a]
  {
    hide Char, SixBits, Part0, Part1, Part2, Part3, Join0, Join1, Join2;
    CharSixBits(Part0(a));
    CharSixBits(Part1(a, 0));
    Joined(a, 0, 0);
  }

  lemma DecodeTwo(a: Byte, b: Byte)
    ensures Decode(Encode([a, b])) == [a, b]
  {
    hide Char, SixBits, Part0, Part1, Part2, Part3, Join0, Join1, Join2;
    CharSixBits(Part0(a));
    CharSixBits(Part1(a, b));
    CharSixBits(Part2(b, 0));
    Joined(a, b, 0);
  }

  lemma EncodeStep(s: seq<Byte>)
    ensures |s| >= 3 ==> Encode(s) == Group(s[0], s[1], s[2]) + Encode(s[3..])
    ensures s == [] ==> Encode(s) == ""
    ensures 1 <= |s| <= 2 ==> |Encode(s)| == 4
  {
  }

  lemma {:induction false} DecodeEncode(s: seq<Byte>)
    ensures |Encode(s)| == 4 * ((|s| + 2) / 3)
    ensures Decode(Encode(s)) == s
  {
    hide Encode, Decode, Group;
    EncodeStep(s);
    if |s| >= 3 {
      DecodeEncode(s[3..]);
      DecodeGroup(s[0], s[1], s[2], Encode(s[3..]));
      assert s == [s[0], s[1], s[2]] + s[3..];
    } else if |s| == 1 {
      DecodeOne(s[0]);
      assert s == [s[0]];
    } else if |s| == 2 {
      DecodeTwo(s[0], s[1]);
      assert s == [s[0], s[1]];
    } else {
      DecodeNothing();
    }
  }

  lemma DecodeNothing()
    ensures Decode("") == []
  {
  }

  // ---------------------------------------------------------------------------
  // The loop
  // ---------------------------------------------------------------------------

  /** The value of a 32-bit two's complement integer with the bits of `v`. */
  function Wrap(v: int): (r: int)
    ensures -0x8000_0000 <= r < 0x8000_0000
  {
    var low := v % 0x1_0000_0000;
    if low < 0x8000_0000 then low else low - 0x1_0000_0000
  }

  /** The characters of an unfinished group. */
  function Started(s: seq<Byte>): string
    requires |s| < 3
  {
    if s == [] then ""
    else if |s| == 1 then [Char(Part0(s[0]))]
    else [Char(Part0(s[0])), Char(Part1(s[0], s[1]))]
  }

  /** Whole groups so far, then the characters of the group that has begun. */
  function Progress(s: seq<Byte>): string {
    var n := |s| - |s| % 3;
    Encode(s[..n]) + Started(s[n..])
  }

  lemma {:induction false} EncodeGroup(s: seq<Byte>, a: Byte, b: Byte, c: Byte)
    requires |s| % 3 == 0
    ensures Encode(s + [a, b, c]) == Encode(s) + Group(a, b, c)
  {
    hide Group;
    var t := s + [a, b, c];
    if s == [] {
      assert t[3..] == [];
    } else {
      EncodeGroup(s[3..], a, b, c);
      assert t[3..] == s[3..] + [a, b, c];
    }
  }

  /** The characters that one more byte completes. */
  function Completed(s: seq<Byte>, c: Byte): string {
    var n := |s|;
    if n % 3 == 0 then [Char(Part0(c))]
    else if n % 3 == 1 then [Char(Part1(s[n - 1], c))]
    else [Char(Part2(s[n - 1], c)), Char(Part3(c))]
  }

  /** Progress, with the start of the unfinished group given. */
  lemma ProgressAt(s: seq<Byte>, n: nat)
    requires n <= |s| < n + 3 && n % 3 == 0
    ensures |s| % 3 == |s| - n && Progress(s) == Encode(s[..n]) + Started(s[n..])
  {
    hide Encode, Started;
  }

  lemma ProgressSnoc(s: seq<Byte>, c: Byte)
    ensures Progress(s + [c]) == Progress(s) + Completed(s, c)
  {
    hide Char, Encode, Progress, Part0, Part1, Part2, Part3;
    var n := |s| - |s| % 3;
    WholeGroups(|s|);
    ProgressAt(s, n);
    if |s| - n == 2 {
      EncodeGroup(s[..n], s[n], s[n + 1], c);
      assert (s + [c])[..n + 3] == s[..n] + [s[n], s[n + 1], c];
      assert (s + [c])[n + 3..] == [] && s[n..] == [s[n], s[n + 1]];
      ProgressAt(s + [c], n + 3);
    } else {
      assert (s + [c])[..n] == s[..n] && (s + [c])[n..] == s[n..] + [c];
      ProgressAt(s + [c], n);
    }
  }

  lemma WholeGroups(m: nat)
    ensures (m - m % 3) % 3 == 0 && (m - m % 3 + 3) % 3 == 0
  {
  }

  /** What is left to write when the bytes are over, `r` of them in the last group. */
  function RestAt(s: seq<Byte>, r: nat): string
    requires r <= |s|
  {
    if r == 0 then ""
    else if r == 1 then [Char(Part1(s[|s| - 1], 0)), '=', '=']
    else [Char(Part2(s[|s| - 1], 0)), '=']
  }

  function Rest(s: seq<Byte>): string {
    RestAt(s, |s| % 3)
  }

  lemma {:induction false} Padded(s: seq<Byte>)
    ensures Encode(s) == Progress(s) + Rest(s)
  {
    hide Char, Encode, Group, Started, Part0, Part1, Part2, Part3;
    if |s| >= 3 {
      Padded(s[3..]);
      EncodeStep(s);
      ProgressStep(s);
      assert Rest(s) == Rest(s[3..]);
    } else {
      PaddedShort(s);
    }
  }

  lemma ProgressStep(s: seq<Byte>)
    requires |s| >= 3
    ensures Progress(s) == Group(s[0], s[1], s[2]) + Progress(s[3..])
  {
    hide Encode, Group, Started;
    var n := |s| - |s| % 3;
    EncodeStep(s[..n]);
    assert s[..n][3..] == s[3..][..n - 3] && s[n..] == s[3..][n - 3..];
  }

  lemma ProgressShort(s: seq<Byte>)
    requires |s| < 3
    ensures Progress(s) == Started(s)
  {
    hide Started;
    EncodeStep([]);
    assert s[..0] == [] && s[0..] == s;
  }

  lemma SmallMod(n: nat)
    requires n < 3
    ensures n % 3 == n
  {
  }

  /** The rest after one byte more. */
  lemma NextMod(n: nat)
    ensures (n + 1) % 3 == if n % 3 == 2 then 0 else n % 3 + 1
  {
  }

  lemma PaddedShort(s: seq<Byte>)
    requires |s| < 3
    ensures Encode(s) == Progress(s) + Rest(s)
  {
    hide Encode, Progress, Started, RestAt;
    ProgressShort(s);
    SmallMod(|s|);
    ShortText(s);
  }

  lemma ShortText(s: seq<Byte>)
    requires |s| < 3
    ensures Encode(s) == Started(s) + RestAt(s, |s|)
  {
    hide Char, Part0, Part1, Part2, Part3, Encode;
    EncodeShort(s);
    if |s| == 1 {
      Split(Char(Part0(s[0])), [], [Char(Part1(s[0], 0)), '=', '=']);
    } else if |s| == 2 {
      Split(Char(Part0(s[0])), [Char(Part1(s[0], s[1]))], [Char(Part2(s[1], 0)), '=']);
    }
  }

  lemma EncodeShort(s: seq<Byte>)
    ensures s == [] ==> Encode(s) == []
    ensures |s| == 1 ==> Encode(s) == [Char(Part0(s[0])), Char(Part1(s[0], 0)), '=', '=']
    ensures |s| == 2 ==> Encode(s) == [Char(Part0(s[0])), Char(Part1(s[0], s[1])), Char(Part2(s[1], 0)), '=']
  {
    hide Char, Part0, Part1, Part2, Part3, Group;
  }

  lemma Split(a: char, b: string, c: string)
    ensures [a] + b + c == [a] + (b + c)
  {
  }

  lemma WrapLow(v: int)
    ensures Wrap(v) % 0x10000 == v % 0x10000
  {
  }

  /** The bits that the register holds of the last two bytes. */
  lemma RegisterBits(val: int, p: Byte, c: Byte)
    requires val % 0x10000 == 256 * p + c
    ensures val / 4 % 64 == Part0(c) && val / 16 % 64 == Part1(p, c)
    ensures val / 64 % 64 == Part2(p, c) && val % 64 == Part3(c)
  {
    var q := val / 0x10000;
    Sextet(val, 4, 0x100 * q + p, Part0(c), c % 4);
    Sextet(val, 16, 0x40 * q + p / 4, Part1(p, c), c % 16);
    Sextet(val, 64, 0x10 * q + p / 16, Part2(p, c), c % 64);
    Sextet(val, 1, 0x400 * q + 4 * p + c / 64, Part3(c), 0);
  }

  lemma Sextet(val: int, unit: nat, high: int, six: nat, low: nat)
    requires unit in {1, 4, 16, 64} && six < 64 && low < unit && val == (64 * high + six) * unit + low
    ensures val / unit % 64 == six
  {
    assert val / unit == 64 * high + six;
  }

  lemma LeftOver(val: int, c: Byte)
    requires val % 256 == c
    ensures Wrap(val * 256) / 16 % 64 == Part1(c, 0) && Wrap(val * 256) / 64 % 64 == Part2(c, 0)
  {
    hide Part1, Part2;
    WrapLow(val * 256);
    ShiftedIn(val, 0);
    RegisterBits(Wrap(val * 256), c, 0);
  }

  /** The inner loop: the characters that are complete with the byte `c`. */
  method Emit(out0: string, val: int, valb0: int, ghost s: seq<Byte>, ghost c: Byte) returns (out: string, valb: int)
    requires valb0 == 2 * (|s| % 3) + 2
    requires val % 0x10000 == 256 * (if s == [] then 0 else s[|s| - 1]) + c
    ensures out == out0 + Completed(s, c) && valb == (if |s| % 3 == 2 then -6 else valb0 - 6)
  {
    hide Char, Pow2, Part0, Part1, Part2, Part3;
    Pow2Table();
    RegisterBits(val, if s == [] then 0 else s[|s| - 1], c);
    out, valb := out0, valb0;
    while valb >= 0
      invariant valb == valb0 || valb == valb0 - 6 || valb == valb0 - 12
      invariant valb == valb0 ==> out == out0
      invariant valb == valb0 - 6 ==> out == out0 + Completed(s, c)[..1]
      invariant valb == valb0 - 12 ==> |s| % 3 == 2 && out == out0 + Completed(s, c)
    {
      out := out + [Char(val / Pow2(valb) % 64)];
      valb := valb - 6;
    }
  }

  /** Where the register stands after the bytes `s`. */
  ghost predicate Reached(s: seq<Byte>, out: string, val: int, valb: int) {
    && out == Progress(s) && valb == -6 + 2 * (|s| % 3)
    && val % 256 == (if s == [] then 0 else s[|s| - 1])
  }

  /** One turn of the outer loop. */
  method Feed(out0: string, val0: int, valb0: int, c: Byte, ghost s: seq<Byte>) returns (out: string, val: int, valb: int)
    requires Reached(s, out0, val0, valb0)
    ensures Reached(s + [c], out, val, valb)
  {
    hide Char, Encode, Progress, Wrap, Completed, Part0, Part1, Part2, Part3;
    RegisterShifted(val0, c);
    val := Wrap(val0 * 256 + c);
    ProgressSnoc(s, c);
    NextMod(|s|);
    assert |s + [c]| == |s| + 1;
    out, valb := Emit(out0, val, valb0 + 8, s, c);
  }

  /** `base64_encode_impl`. */
  method EncodeImpl(input: seq<Byte>) returns (out: string)
    ensures out == Encode(input)
  {
    hide Reached, Encode, Progress;
    StartReached(input);
    var val, valb;
    out, val, valb := "", 0, -6;
    for i := 0 to |input|
      invariant Reached(input[..i], out, val, valb)
    {
      assert input[..i + 1] == input[..i] + [input[i]];
      out, val, valb := Feed(out, val, valb, input[i], input[..i]);
    }
    assert input[..|input|] == input;
    out := Finish(out, val, valb, input);
  }

  /** The last, partly filled character, and the padding. */
  method Finish(out0: string, val: int, valb: int, ghost s: seq<Byte>) returns (out: string)
    requires Reached(s, out0, val, valb)
    ensures out == Encode(s)
  {
    hide Char, Encode, Progress, Wrap, Pow2, Part0, Part1, Part2, Part3;
    Pow2Table();
    out := out0;
    if valb > -6 {
      LeftOver(val, s[|s| - 1]);
      out := out + [Char(Wrap(val * 256) / Pow2(valb + 8) % 64)];
    }
    Padded(s);
    LengthOf(s);
    out := Pad(out, Encode(s));
  }

  lemma RegisterShifted(val: int, c: Byte)
    ensures var v := Wrap(val * 256 + c); v % 0x10000 == 256 * (val % 256) + c && v % 256 == c
  {
    WrapLow(val * 256 + c);
    ShiftedIn(val, c);
    LowByte(Wrap(val * 256 + c), val % 256, c);
  }

  lemma LowByte(v: int, p: Byte, c: Byte)
    requires v % 0x10000 == 256 * p + c
    ensures v % 256 == c
  {
    var q := v / 0x10000;
    assert v == 256 * (256 * q + p) + c;
  }

  lemma ShiftedIn(val: int, c: Byte)
    ensures (val * 256 + c) % 0x10000 == val % 256 * 256 + c
  {
    var q := val / 256;
    assert val * 256 + c == 0x10000 * q + (val % 256 * 256 + c);
  }

  lemma StartReached(s: seq<Byte>)
    ensures Reached(s[..0], "", 0, -6)
  {
    assert Progress([]) == "";
  }

  lemma LengthOf(s: seq<Byte>)
    ensures |Encode(s)| % 4 == 0
  {
    hide Encode, Decode;
    DecodeEncode(s);
    var n := (|s| + 2) / 3;
    assert 4 * n % 4 == 0;
  }

  /** `while (out.size() % 4)`. */
  method Pad(out0: string, ghost t: string) returns (out: string)
    requires |t| % 4 == 0 && |out0| <= |t| < |out0| + 4 && out0 <= t
    requires forall k :: |out0| <= k < |t| ==> t[k] == '='
    ensures out == t
  {
    out := out0;
    while |out| % 4 != 0
      invariant |out0| <= |out| <= |t| < |out| + 4 && out <= t
      decreases |t| - |out|
    {
      out := out + ['='];
    }
  }
}
