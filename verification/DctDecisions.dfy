/**
 * Binarization of DCT coefficients (sections F.1.4 and G.1.3 of T.81): which decisions,
 * in which statistics bins, code a DC difference or a band of AC coefficients. The
 * encoders of jcarith.c produce these decisions; the decoders below follow jdarith.c.
 */
module DctDecisions {
  import opened Arith
  import opened QmInterval
  import opened QmRoundTrip

  // ---------------------------------------------------------------------------
  // Statistics bins: 16 DC tables, 16 AC tables, the fixed bin
  // ---------------------------------------------------------------------------

  const DC_STAT_BINS: nat := 64
  const AC_STAT_BINS: nat := 256
  const NUM_ARITH_TBLS: nat := 16
  const FIXED_BIN: nat := 5120
  const STAT_BINS: nat := 5121

  function DcBin(tbl: nat, i: nat): (bin: nat)
    requires tbl < NUM_ARITH_TBLS && i < DC_STAT_BINS
    ensures bin < 1024
  {
    DC_STAT_BINS * tbl + i
  }

  function AcBin(tbl: nat, i: nat): (bin: nat)
    requires tbl < NUM_ARITH_TBLS && i < AC_STAT_BINS
    ensures 1024 <= bin < FIXED_BIN
  {
    1024 + AC_STAT_BINS * tbl + i
  }

  // ---------------------------------------------------------------------------
  // Magnitudes
  // ---------------------------------------------------------------------------

  /** The position of the highest bit of `u`. */
  function Log2(u: nat): (n: nat)
    requires u > 0
    ensures Pow2(n) <= u < 2 * Pow2(n)
  {
    if u == 1 then 0 else 1 + Log2(u / 2)
  }

  /** The magnitude category m: the highest power of two in `u`, or 0. */
  function TopBit(u: nat): nat {
    if u == 0 then 0 else Pow2(Log2(u))
  }

  /** The magnitude category: `n` ones in ascending bins, as `while (v2 >>= 1)` codes them. */
  function Ones(n: nat, st: nat): seq<Decision> {
    if n == 0 then [] else [Decision(st, 1)] + Ones(n - 1, st + 1)
  }

  /** `(m & u) ? 1 : 0` for m = 2^i. */
  function BitAt(u: nat, i: nat): nat {
    u / Pow2(i) % 2
  }

  /** The magnitude bits of `u` below its `n`-th, as `while (m >>= 1)` codes them. */
  function LowBits(n: nat, st: nat, u: nat): seq<Decision> {
    if n == 0 then [] else [Decision(st, BitAt(u, n - 1))] + LowBits(n - 1, st, u)
  }

  /** `n` more category steps from bin `st`, the stop, and `bits` magnitude bits. */
  function Category(n: nat, st: nat, bits: nat, u: nat): seq<Decision> {
    Ones(n, st) + [Decision(st + n, 0)] + LowBits(bits, st + n + 14, u)
  }

  /** A DC magnitude less one, starting in bin `st`; category bins start at `x1`. */
  function DcMagnitude(u: nat, st: nat, x1: nat): seq<Decision> {
    if u == 0 then Category(0, st, 0, 0)
    else [Decision(st, 1)] + Category(Log2(u), x1, Log2(u), u)
  }

  /** An AC magnitude less one; the second category step stays in bin `st`. */
  function AcMagnitude(u: nat, st: nat, x2: nat): seq<Decision> {
    if u == 0 then Category(0, st, 0, 0)
    else if u == 1 then [Decision(st, 1)] + Category(0, st, 0, 1)
    else [Decision(st, 1), Decision(st, 1)] + Category(Log2(u) - 1, x2, Log2(u), u)
  }

  lemma {:induction false} OnesSpelled(n: nat, st: nat)
    ensures |Ones(n, st)| == n && forall i :: 0 <= i < n ==> Ones(n, st)[i] == Decision(st + i, 1)
  {
    if n > 0 {
      OnesSpelled(n - 1, st + 1);
    }
  }

  lemma {:induction false} LowBitsSpelled(n: nat, st: nat, u: nat)
    ensures |LowBits(n, st, u)| == n
    ensures forall i :: 0 <= i < n ==> LowBits(n, st, u)[i] == Decision(st, u / Pow2(n - 1 - i) % 2)
  {
    hide Pow2;
    if n > 0 {
      LowBitsSpelled(n - 1, st, u);
    }
  }

  /** The same in closed form: `n` ones, a zero, and `bits` bits of `u` from the highest down. */
  function Spelled(n: nat, st: nat, bits: nat, u: nat): seq<Decision> {
    seq(n, i requires 0 <= i < n => Decision(st + i, 1)) + [Decision(st + n, 0)]
    + seq(bits, i requires 0 <= i < bits => Decision(st + n + 14, u / Pow2(bits - 1 - i) % 2))
  }

  lemma CategorySpelled(n: nat, st: nat, bits: nat, u: nat)
    ensures Category(n, st, bits, u) == Spelled(n, st, bits, u)
  {
    hide Pow2, Ones, LowBits;
    OnesSpelled(n, st);
    LowBitsSpelled(bits, st + n + 14, u);
    assert Ones(n, st) == seq(n, i requires 0 <= i < n => Decision(st + i, 1));
  }

  lemma Joined(a: seq<Decision>, b: seq<Decision>, c: seq<Decision>, d: seq<Decision>)
    ensures a + (b + (c + d)) == a + b + c + d
    ensures a == [] ==> b + (c + d) == a + b + c + d
  {
  }

  lemma TwoFirst(a: Decision, b: Decision, c: seq<Decision>)
    ensures [a] + ([b] + c) == [a, b] + c
  {
  }

  // ---------------------------------------------------------------------------
  // Decoding magnitudes
  // ---------------------------------------------------------------------------

  /** A decoding step's outcome; `Bad` is the magnitude or spectral overflow of jdarith.c. */
  datatype Got<+T> = Got(value: T, d: Dec) | Bad

  /** A decoder with statistics bins for the whole layout. */
  ghost predicate Ready(d: Dec) {
    Valid(d.k) && |d.k.bins| == STAT_BINS
  }

  /**
   * `while (arith_decode(st))`, with m = 2^n: doubling m to 0x8000 is an overflow.
   * Returns n and the bin of the last decision.
   */
  function DecodeOnes(d: Dec, st: nat, n: nat): (r: Got<(nat, nat)>)
    requires Ready(d) && n <= 14 && st + 14 - n < STAT_BINS - 14
    ensures r.Got? ==> Ready(r.d) && r.value.0 <= 14 && r.value.1 < STAT_BINS - 14
    decreases 14 - n
  {
    var d1 := Advance(d, st);
    if Bit(d, st) == 0 then Got((n, st), d1)
    else if n + 1 == 15 then Bad
    else DecodeOnes(d1, st + 1, n + 1)
  }

  /** `while (m >>= 1) if (arith_decode(st)) v |= m`, with m = 2^n and those bits of `v` clear. */
  function DecodeBits(d: Dec, st: nat, n: nat, v: nat): (r: (nat, Dec))
    requires Ready(d) && st < STAT_BINS
    ensures Ready(r.1)
    decreases n
  {
    if n == 0 then (v, d) else
      DecodeBits(Advance(d, st), st, n - 1, if Bit(d, st) == 1 then v + Pow2(n - 1) else v)
  }

  /** Figures F.23 and F.24 for DC: the magnitude less one, and its category m. */
  function DecodeDcMagnitude(d: Dec, st: nat, x1: nat): (r: Got<(nat, nat)>)
    requires Ready(d) && st < STAT_BINS && x1 + 28 < STAT_BINS
    ensures r.Got? ==> Ready(r.d)
  {
    var d1 := Advance(d, st);
    if Bit(d, st) == 0 then Got((0, 0), d1) else
      match DecodeOnes(d1, x1, 0)
      case Bad => Bad
      case Got((n, st2), d2) =>
        var (v, d3) := DecodeBits(d2, st2 + 14, n, Pow2(n));
        Got((v, Pow2(n)), d3)
  }

  /** The bits read below bit `n` stay below it. */
  lemma {:induction false} DecodedBits(d: Dec, st: nat, n: nat, v: nat)
    requires Ready(d) && st < STAT_BINS
    ensures v <= DecodeBits(d, st, n, v).0 < v + Pow2(n)
    decreases n
  {
    hide Bit, Advance;
    if n > 0 {
      DecodedBits(Advance(d, st), st, n - 1, if Bit(d, st) == 1 then v + Pow2(n - 1) else v);
    }
  }

  lemma TopBitOf(u: nat, n: nat)
    requires Pow2(n) <= u < 2 * Pow2(n)
    ensures TopBit(u) == Pow2(n) && Log2(u) == n
  {
    hide Pow2;
    var m := Log2(u);
    if m < n {
      Pow2Double(m + 1);
      Pow2Up(m + 1, n);
    } else if n < m {
      Pow2Double(n + 1);
      Pow2Up(n + 1, m);
    }
  }

  /** The category read is that of the magnitude read. */
  lemma MagnitudeCategory(d: Dec, st: nat, x1: nat)
    requires Ready(d) && st < STAT_BINS && x1 + 28 < STAT_BINS
    ensures var r := DecodeDcMagnitude(d, st, x1); r.Got? ==> r.value.1 == TopBit(r.value.0)
  {
    hide Bit, Advance, DecodeOnes, DecodeBits, Pow2;
    var d1 := Advance(d, st);
    if Bit(d, st) != 0 {
      match DecodeOnes(d1, x1, 0)
      case Bad =>
      case Got((n, st2), d2) =>
        DecodedBits(d2, st2 + 14, n, Pow2(n));
        TopBitOf(DecodeBits(d2, st2 + 14, n, Pow2(n)).0, n);
    }
  }

  /** Figures F.23 and F.24 for AC: the magnitude less one. */
  function DecodeAcMagnitude(d: Dec, st: nat, x2: nat): (r: Got<nat>)
    requires Ready(d) && st < STAT_BINS && x2 + 27 < STAT_BINS
    ensures r.Got? ==> Ready(r.d)
  {
    var d1 := Advance(d, st);
    if Bit(d, st) == 0 then Got(0, d1) else
      var d2 := Advance(d1, st);
      if Bit(d1, st) == 0 then Got(1, d2) else
        match DecodeOnes(d2, x2, 1)
        case Bad => Bad
        case Got((n, st2), d3) =>
          var (v, d4) := DecodeBits(d3, st2 + 14, n, Pow2(n));
          Got(v, d4)
  }

  // ---------------------------------------------------------------------------
  // Following decisions
  // ---------------------------------------------------------------------------

  /** The decoder after reading `ds`. */
  function After(d: Dec, ds: seq<Decision>): (r: Dec)
    requires Ready(d) && Codable(d.k.bins, ds)
    ensures Ready(r) && r.code == d.code
  {
    d.(k := Run(d.k, ds))
  }

  lemma FollowSplit(d: Dec, a: seq<Decision>, b: seq<Decision>)
    requires Ready(d) && Follows(d, a + b)
    ensures Codable(d.k.bins, a) && Follows(After(d, a), b)
    ensures Codable(d.k.bins, b) && After(After(d, a), b) == After(d, a + b)
  {
    forall i | 0 <= i < |a| ensures a[i].bin < |d.k.bins| && a[i].val <= 1 {
      assert (a + b)[i] == a[i];
    }
    forall i | 0 <= i < |b| ensures b[i].bin < |d.k.bins| && b[i].val <= 1 {
      assert (a + b)[|a| + i] == b[i];
    }
    RunConcat(d.k, a, b);
  }

  lemma AfterConcat(d: Dec, a: seq<Decision>, b: seq<Decision>)
    requires Ready(d) && Codable(d.k.bins, a) && Codable(d.k.bins, b)
    ensures Codable(d.k.bins, a + b)
    ensures After(After(d, a), b) == After(d, a + b)
  {
    RunConcat(d.k, a, b);
  }

  lemma FollowHead(d: Dec, x: Decision, ds: seq<Decision>, rest: seq<Decision>)
    requires Ready(d) && Follows(d, [x] + ds + rest)
    ensures x.bin < STAT_BINS && Bit(d, x.bin) == x.val
    ensures Follows(Advance(d, x.bin), ds + rest)
    ensures Codable(d.k.bins, [x] + ds) && Codable(d.k.bins, ds)
    ensures After(d, [x] + ds) == After(Advance(d, x.bin), ds)
    ensures ds == [] ==> After(d, [x] + ds) == Advance(d, x.bin)
  {
    assert [x] + ds + rest == [x] + (ds + rest);
    assert ([x] + (ds + rest))[0] == x;
    FollowOne(d, x, ds + rest);
    FollowSplit(d, [x] + ds, rest);
    FollowSplit(Advance(d, x.bin), ds, rest);
    assert ([x] + ds)[1..] == ds && ([x] + ds)[0] == x;
  }

  lemma {:induction false} OnesDecoded(d: Dec, st: nat, n: nat, j: nat, rest: seq<Decision>)
    requires Ready(d) && n <= 14 && st + 14 - n < STAT_BINS - 14
    requires Follows(d, Ones(j, st) + [Decision(st + j, 0)] + rest)
    ensures Codable(d.k.bins, Ones(j, st) + [Decision(st + j, 0)])
    ensures DecodeOnes(d, st, n)
         == if n + j <= 14 then Got((n + j, st + j), After(d, Ones(j, st) + [Decision(st + j, 0)])) else Bad
    decreases j
  {
    hide Bit, Advance, After, Follows;
    var stop := [Decision(st + j, 0)];
    if j == 0 {
      assert Ones(j, st) + stop == [Decision(st, 0)] + [];
      FollowHead(d, Decision(st, 0), [], rest);
    } else {
      var ds := Ones(j - 1, st + 1) + stop;
      assert Ones(j, st) + stop == [Decision(st, 1)] + ds;
      FollowHead(d, Decision(st, 1), ds, rest);
      if n < 14 {
        OnesDecoded(Advance(d, st), st + 1, n + 1, j - 1, rest);
      }
    }
  }

  /** `u` cleared of its low `n` bits. */
  function HighPart(u: nat, n: nat): nat {
    hide Pow2;
    var p := Pow2(n);
    var q: nat := u / p;
    q * p
  }

  lemma HighPartStep(u: nat, n: nat)
    requires n > 0
    ensures HighPart(u, n - 1) == HighPart(u, n) + if BitAt(u, n - 1) == 1 then Pow2(n - 1) else 0
  {
    HalfStep(u, Pow2(n - 1));
  }

  lemma {:induction false} BitsDecoded(d: Dec, st: nat, n: nat, u: nat, v: nat, rest: seq<Decision>)
    requires Ready(d) && st < STAT_BINS
    requires Follows(d, LowBits(n, st, u) + rest)
    requires v == HighPart(u, n)
    ensures Codable(d.k.bins, LowBits(n, st, u))
    ensures DecodeBits(d, st, n, v) == (u, After(d, LowBits(n, st, u)))
    decreases n
  {
    hide Bit, Advance, Follows, After, Codable, Pow2, BitAt, HighPart;
    FollowSplit(d, LowBits(n, st, u), rest);
    if n == 0 {
      WholePart(u);
      AfterNone(d);
    } else {
      FollowHead(d, Decision(st, BitAt(u, n - 1)), LowBits(n - 1, st, u), rest);
      HighPartStep(u, n);
      BitsDecoded(Advance(d, st), st, n - 1, u, HighPart(u, n - 1), rest);
    }
  }

  lemma AfterNone(d: Dec)
    requires Ready(d)
    ensures After(d, []) == d
  {
  }

  lemma WholePart(u: nat)
    ensures HighPart(u, 0) == u
  {
  }

  lemma HalfStep(u: nat, p: nat)
    requires p > 0
    ensures u / (2 * p) * (2 * p) + (if u / p % 2 == 1 then p else 0) == u / p * p
  {
    var q := u / p;
    assert u / (2 * p) == q / 2 by {
      var r := u - q * p;
      assert u == q / 2 * (2 * p) + (q % 2 * p + r) by {
        assert q == q / 2 * 2 + q % 2;
        assert (q / 2 * 2 + q % 2) * p == q / 2 * (2 * p) + q % 2 * p;
      }
      assert 0 <= q % 2 * p + r < 2 * p;
      Division(u, 2 * p, q / 2, q % 2 * p + r);
    }
    assert (q / 2 * 2 + q % 2) * p == q / 2 * (2 * p) + q % 2 * p;
  }

  lemma CategoryDecoded(d: Dec, st: nat, n: nat, j: nat, u: nat, rest: seq<Decision>)
    requires Ready(d) && n <= 14 && st + 14 - n < STAT_BINS - 14
    requires u / Pow2(n + j) == 1
    requires Follows(d, Category(j, st, n + j, u) + rest)
    ensures Codable(d.k.bins, Category(j, st, n + j, u))
    ensures n + j > 14 ==> DecodeOnes(d, st, n) == Bad
    ensures n + j <= 14 ==>
      && DecodeOnes(d, st, n).Got? && DecodeOnes(d, st, n).value == (n + j, st + j)
      && DecodeBits(DecodeOnes(d, st, n).d, st + j + 14, n + j, Pow2(n + j))
         == (u, After(d, Category(j, st, n + j, u)))
  {
    hide Bit, Advance, Follows, Pow2, Ones, LowBits, DecodeOnes, DecodeBits, Run;
    var a := Ones(j, st) + [Decision(st + j, 0)];
    var b := LowBits(n + j, st + j + 14, u);
    FollowSplit(d, a + b, rest);
    assert a + b + rest == a + (b + rest);
    OnesDecoded(d, st, n, j, b + rest);
    FollowSplit(d, a, b + rest);
    FollowSplit(After(d, a), b, rest);
    AfterConcat(d, a, b);
    if n + j <= 14 {
      assert HighPart(u, n + j) == Pow2(n + j);
      BitsDecoded(After(d, a), st + j + 14, n + j, u, Pow2(n + j), rest);
    }
  }

  lemma SmallCategoryDecoded(d: Dec, st: nat, u: nat, rest: seq<Decision>)
    requires Ready(d) && st < STAT_BINS
    requires Follows(d, Category(0, st, 0, u) + rest)
    ensures Codable(d.k.bins, Category(0, st, 0, u)) && Bit(d, st) == 0
    ensures Advance(d, st) == After(d, Category(0, st, 0, u))
  {
    hide Bit, Advance, After, Follows;
    assert Category(0, st, 0, u) == [Decision(st, 0)] + [];
    FollowHead(d, Decision(st, 0), [], rest);
  }

  lemma Log2Quotient(u: nat)
    requires u > 0
    ensures u / Pow2(Log2(u)) == 1
  {
    Division(u, Pow2(Log2(u)), 1, u - Pow2(Log2(u)));
  }

  lemma {:induction false} Log2Small(u: nat, n: nat)
    requires u > 0
    ensures Log2(u) <= n <==> u < 2 * Pow2(n)
  {
    if Log2(u) <= n {
      Pow2Up(Log2(u), n);
    } else {
      Pow2Up(n + 1, Log2(u));
    }
  }

  /** A DC magnitude decodes exactly when it is below 2^15, and overflows otherwise. */
  lemma DcMagnitudeDecoded(d: Dec, u: nat, st: nat, x1: nat, rest: seq<Decision>)
    requires Ready(d) && st < STAT_BINS && x1 + 28 < STAT_BINS
    requires Follows(d, DcMagnitude(u, st, x1) + rest)
    ensures Codable(d.k.bins, DcMagnitude(u, st, x1))
    ensures DecodeDcMagnitude(d, st, x1)
         == if u < 0x8000 then Got((u, TopBit(u)), After(d, DcMagnitude(u, st, x1)))
            else Bad
  {
    hide Bit, Advance, After, Follows, Pow2, Log2, Category, DecodeOnes, DecodeBits;
    assert Pow2(14) == 0x4000 by { Pow2Table(); }
    if u == 0 {
      SmallCategoryDecoded(d, st, 0, rest);
    } else {
      var c := Category(Log2(u), x1, Log2(u), u);
      FollowHead(d, Decision(st, 1), c, rest);
      Log2Quotient(u);
      Log2Small(u, 14);
      CategoryDecoded(Advance(d, st), x1, 0, Log2(u), u, rest);
    }
  }

  lemma AcMagnitudeDecoded(d: Dec, u: nat, st: nat, x2: nat, rest: seq<Decision>)
    requires Ready(d) && st < STAT_BINS && x2 + 27 < STAT_BINS
    requires Follows(d, AcMagnitude(u, st, x2) + rest)
    ensures Codable(d.k.bins, AcMagnitude(u, st, x2))
    ensures DecodeAcMagnitude(d, st, x2)
         == if u < 0x8000 then Got(u, After(d, AcMagnitude(u, st, x2))) else Bad
  {
    hide Bit, Advance, After, Follows, Pow2, Log2, Category, DecodeOnes, DecodeBits;
    assert Pow2(14) == 0x4000 && Pow2(1) == 2 && Pow2(0) == 1 by { Pow2Table(); }
    if u == 0 {
      SmallCategoryDecoded(d, st, 0, rest);
    } else if u == 1 {
      FollowHead(d, Decision(st, 1), Category(0, st, 0, 1), rest);
      SmallCategoryDecoded(Advance(d, st), st, 1, rest);
    } else {
      Log2Small(u, 0);
      var c := Category(Log2(u) - 1, x2, Log2(u), u);
      assert [Decision(st, 1), Decision(st, 1)] + c == [Decision(st, 1)] + ([Decision(st, 1)] + c);
      FollowHead(d, Decision(st, 1), [Decision(st, 1)] + c, rest);
      FollowHead(Advance(d, st), Decision(st, 1), c, rest);
      Log2Quotient(u);
      Log2Small(u, 14);
      CategoryDecoded(Advance(Advance(d, st), st), x2, 1, Log2(u) - 1, u, rest);
    }
  }
}
