/**
 * Termination of coding (section D.1.8 of T.81): which number of the final interval is
 * sent, which bytes that takes, and that no shorter string lies in the interval.
 */
module QmTermination {
  import opened Arith
  import opened Bytes
  import opened QmInterval

  /** The end point cleared of its low 16 bits, or 0x8000 more if that leaves the interval. */
  function Pick(low: nat, width: nat): (x: nat)
    requires 0x8000 <= width
    ensures low <= x < low + width
    ensures x % 0x8000 == 0
  {
    var z := (low + width - 1) / 0x10000;
    assert (2 * z) * 0x8000 == z * 0x10000 && (2 * z + 1) * 0x8000 == z * 0x10000 + 0x8000;
    if z * 0x10000 < low then z * 0x10000 + 0x8000 else z * 0x10000
  }

  /** The number of the interval that coding ends with. */
  function Final(k: Coder): (x: nat)
    requires Valid(k)
    ensures k.low <= x < k.low + k.width
    ensures x % 0x8000 == 0
  {
    Pick(k.low, k.width)
  }

  /** No number of the interval has more trailing zero bits. */
  lemma FinalRoundest(k: Coder, y: nat, t: nat, q: nat) returns (p: nat)
    requires Valid(k) && k.low <= y < k.low + k.width
    requires y == q * Pow2(t)
    ensures Final(k) == p * Pow2(t)
  {
    if t <= 15 {
      var z := Final(k) / 0x8000;
      assert Pow2(15) == 0x8000 by { Pow2Table(); }
      Pow2Add(15 - t, t);
      MulAssoc(z, Pow2(15 - t), Pow2(t));
      p := z * Pow2(15 - t);
    } else {
      assert Pow2(16) == 0x10000 by { Pow2Table(); }
      Pow2Add(t - 16, 16);
      MulAssoc(q, Pow2(t - 16), 0x10000);
      SameMultiple(k, y, q * Pow2(t - 16));
      p := q;
    }
  }

  lemma SameMultiple(k: Coder, y: nat, z: nat)
    requires Valid(k) && k.low <= y < k.low + k.width
    requires y == z * 0x10000
    ensures Final(k) == y
  {
  }

  /** The bytes of the final number, left-aligned, without trailing zero bytes. */
  function Payload(k: Coder): (s: seq<Byte>)
    requires Valid(k)
    ensures Trimmed(s) && |s| <= BytesFor(k.shifts)
  {
    var m := BytesFor(k.shifts);
    Trim(ToBytes(Final(k) * Unit(k.shifts, m), m))
  }

  lemma FinalFits(k: Coder, m: nat)
    requires Valid(k) && 16 + k.shifts <= 8 * m
    ensures Final(k) * Unit(k.shifts, m) < Pow2(8 * m)
  {
    var u := Unit(k.shifts, m);
    Pow2Add(16 + k.shifts, 8 * m - 16 - k.shifts);
    MulMono(Final(k) + 1, Pow2(16 + k.shifts), u);
    assert (Final(k) + 1) * u == Final(k) * u + u;
  }

  lemma PayloadPrefix(k: Coder)
    requires Valid(k)
    ensures var m := BytesFor(k.shifts); Prefix(Payload(k), m) == Final(k) * Unit(k.shifts, m)
  {
    var m := BytesFor(k.shifts);
    var v := Final(k) * Unit(k.shifts, m);
    FinalFits(k, m);
    ToBytesValue(v, m);
    PrefixSame(Payload(k), ToBytes(v, m), m);
  }

  /** The zero-extended payload lies in the final interval, so it decodes. */
  lemma PayloadContained(k: Coder)
    requires Valid(k)
    ensures Contained(k, Payload(k))
  {
    hide Payload, Prefix, Unit, Final;
    PayloadPrefix(k);
    var u := Unit(k.shifts, BytesFor(k.shifts));
    MulMono(k.low, Final(k), u);
    MulMono(Final(k) + 1, k.low + k.width, u);
    assert (Final(k) + 1) * u == Final(k) * u + u;
  }

  lemma ByteMultiple(q: nat, e: nat)
    requires e > 0
    ensures q * Pow2(8 * e) == 256 * (q * Pow2(8 * (e - 1)))
  {
    Pow2Byte(e - 1);
    MulSwap(q, 256, Pow2(8 * (e - 1)));
  }

  /** A multiple of 256 has a final zero byte. */
  lemma TrimZero(v: nat, w: nat, m: nat)
    requires m > 0 && v == 256 * w
    ensures Trim(ToBytes(v, m)) == Trim(ToBytes(w, m - 1))
  {
    var s := ToBytes(v, m);
    assert s == ToBytes(w, m - 1) + [0];
    assert s[..m - 1] == ToBytes(w, m - 1);
  }

  lemma {:induction false} TrimLength(v: nat, m: nat, e: nat, q: nat)
    requires e <= m && v == q * Pow2(8 * e)
    ensures |Trim(ToBytes(v, m))| <= m - e
    decreases e
  {
    hide Pow2, Trim, ToBytes;
    if e > 0 {
      var w := q * Pow2(8 * (e - 1));
      ByteMultiple(q, e);
      TrimLength(w, m - 1, e - 1, q);
      TrimZero(v, w, m);
    }
  }

  /** A string `e` bytes short of `m` writes a number of the interval with 8e - r trailing zero bits. */
  lemma ShortString(k: Coder, s: seq<Byte>, r: nat) returns (y: nat)
    requires Valid(k) && Contained(k, s) && |s| < BytesFor(k.shifts)
    requires r == 8 * BytesFor(k.shifts) - 16 - k.shifts
    ensures k.low <= y < k.low + k.width
    ensures y == Value(s) * Pow2(8 * (BytesFor(k.shifts) - |s|) - r)
  {
    hide Pow2;
    var m := BytesFor(k.shifts);
    var u := Pow2(r);
    var j := 8 * (m - |s|);
    PrefixPastEnd(s, m);
    hide Prefix;
    Pow2Add(j - r, r);
    y := Value(s) * Pow2(j - r);
    MulAssoc(Value(s), Pow2(j - r), u);
    MulCancel(k.low, y, u);
    MulCancelStrict(y, k.low + k.width, u);
  }

  /** No code string in the final interval is shorter than the payload. */
  lemma PayloadShortest(k: Coder, s: seq<Byte>)
    requires Valid(k) && Contained(k, s)
    ensures |Payload(k)| <= |s|
  {
    var m := BytesFor(k.shifts);
    if |s| < m {
      var r := 8 * m - 16 - k.shifts;
      var j := 8 * (m - |s|);
      var y := ShortString(k, s, r);
      var p := FinalRoundest(k, y, j - r, Value(s));
      Pow2Add(j - r, r);
      MulAssoc(p, Pow2(j - r), Pow2(r));
      TrimLength(Final(k) * Unit(k.shifts, m), m, m - |s|, p);
    }
  }

  /** The payload is the only trimmed string of that many bytes that writes the final number. */
  lemma PayloadUnique(k: Coder, s: seq<Byte>)
    requires Valid(k) && Trimmed(s) && |s| <= BytesFor(k.shifts)
    requires Value(s) * Pow2(8 * (BytesFor(k.shifts) - |s|)) == Final(k) * Unit(k.shifts, BytesFor(k.shifts))
    ensures s == Payload(k)
  {
    PayloadPrefix(k);
    PrefixPastEnd(s, BytesFor(k.shifts));
    TrimmedUnique(s, Payload(k), BytesFor(k.shifts));
  }

  /** What one coding segment sends: the bytes of the whole run, stuffed. */
  function Segment(bins: seq<Byte>, ds: seq<Decision>): seq<Byte>
    requires ValidBins(bins) && Codable(bins, ds)
  {
    StartValid(bins);
    Stuff(Payload(Run(Start(bins), ds)))
  }

  /** No marker in coded data: each 0xFF is followed by 0x00. And it ends in 0x00 only behind a 0xFF. */
  ghost predicate MarkerSafe(data: seq<Byte>) {
    && (forall i :: 0 <= i < |data| && data[i] == 0xFF ==> i + 1 < |data| && data[i + 1] == 0)
    && (data != [] && data[|data| - 1] == 0 ==> |data| >= 2 && data[|data| - 2] == 0xFF)
  }

  lemma {:induction false} StuffFollows(s: seq<Byte>)
    ensures forall i :: 0 <= i < |Stuff(s)| && Stuff(s)[i] == 0xFF ==> i + 1 < |Stuff(s)| && Stuff(s)[i + 1] == 0
  {
    if s != [] {
      StuffFollows(s[..|s| - 1]);
    }
  }

  lemma SegmentMarkerSafe(bins: seq<Byte>, ds: seq<Decision>)
    requires ValidBins(bins) && Codable(bins, ds)
    ensures MarkerSafe(Segment(bins, ds))
  {
    StartValid(bins);
    var s := Payload(Run(Start(bins), ds));
    hide Payload, Run;
    StuffFollows(s);
    if s != [] {
      StuffEnds(s);
    }
  }

  lemma StuffEnds(s: seq<Byte>)
    requires Trimmed(s) && s != []
    ensures var t := Stuff(s); |t| > 0 && (t[|t| - 1] == 0 ==> |t| >= 2 && t[|t| - 2] == 0xFF)
  {
  }

  lemma StartValid(bins: seq<Byte>)
    requires ValidBins(bins)
    ensures Valid(Start(bins))
  {
    Pow2Table();
  }
}
