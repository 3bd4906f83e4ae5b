/** DC differences, AC bands and AC refinements: their decisions and how they decode. */
module DctBands {
  import opened Arith
  import opened QmInterval
  import opened QmRoundTrip
  import opened DctDecisions

  /** A stored coefficient: a 16-bit signed integer. */
  predicate IsCoef(v: int) {
    -0x8000 <= v < 0x8000
  }

  /** Conversion to the 16-bit coefficient type. */
  function Short(v: int): (r: int)
    ensures IsCoef(r) && (IsCoef(v) ==> r == v)
  {
    (v + 0x8000) % 0x10000 - 0x8000
  }

  function Abs(v: int): nat {
    if v < 0 then -v else v
  }

  function Sign(v: int): (s: nat)
    ensures s <= 1
  {
    if v < 0 then 1 else 0
  }

  // ---------------------------------------------------------------------------
  // DC differences (sections F.1.4.1 and F.1.4.4.1 of T.81)
  // ---------------------------------------------------------------------------

  /** The decisions for the difference `v` in the conditioning category `ctx`. */
  function DcDecisions(tbl: nat, ctx: nat, v: int): seq<Decision>
    requires tbl < NUM_ARITH_TBLS && ctx <= 16
  {
    var s := DcBin(tbl, ctx);
    if v == 0 then [Decision(s, 0)] else
      [Decision(s, 1)]
      + ([Decision(s + 1, Sign(v))] + DcMagnitude(Abs(v) - 1, s + 2 + Sign(v), DcBin(tbl, 20)))
  }

  /** The conditioning category after a nonzero difference with category `m`. */
  function ContextOf(m: nat, sign: nat, lower: nat, upper: nat): (ctx: nat)
    requires sign <= 1
    ensures ctx <= 16
  {
    if m < Pow2(lower) / 2 then 0
    else if m > Pow2(upper) / 2 then 12 + 4 * sign
    else 4 + 4 * sign
  }

  function DcContext(v: int, lower: nat, upper: nat): (ctx: nat)
    ensures ctx <= 16
  {
    if v == 0 then 0 else ContextOf(TopBit(Abs(v) - 1), Sign(v), lower, upper)
  }

  /** Figures F.19 and F.21: the difference and the next conditioning category. */
  function DecodeDc(d: Dec, tbl: nat, ctx: nat, lower: nat, upper: nat): (r: Got<(int, nat)>)
    requires Ready(d) && tbl < NUM_ARITH_TBLS && ctx <= 16
    ensures r.Got? ==> Ready(r.d) && r.value.1 <= 16
  {
    var s := DcBin(tbl, ctx);
    var d1 := Advance(d, s);
    if Bit(d, s) == 0 then Got((0, 0), d1) else
      var sign := Bit(d1, s + 1);
      match DecodeDcMagnitude(Advance(d1, s + 1), s + 2 + sign, DcBin(tbl, 20))
      case Bad => Bad
      case Got((u, m), d3) =>
        Got((if sign == 1 then -(u + 1) else u + 1, ContextOf(m, sign, lower, upper)), d3)
  }

  /**
   * Figures F.4 to F.9 and Table F.4, decision by decision: zero flag in S0, sign in SS, then in SP or SN whether the
   * magnitude exceeds one, the category from X1 = 20 on, and the bits below the top one 14 bins further.
   */
  lemma DcSpelled(tbl: nat, ctx: nat, v: int, n: nat)
    requires tbl < NUM_ARITH_TBLS && ctx <= 16
    requires Abs(v) > 1 ==> Pow2(n) <= Abs(v) - 1 < Pow2(n + 1)
    ensures var s, x := 64 * tbl + ctx, 64 * tbl + 20; var sign := if v < 0 then 1 else 0;
      DcDecisions(tbl, ctx, v)
      == if v == 0 then [Decision(s, 0)]
         else if Abs(v) == 1 then [Decision(s, 1), Decision(s + 1, sign), Decision(s + 2 + sign, 0)]
         else [Decision(s, 1), Decision(s + 1, sign), Decision(s + 2 + sign, 1)] + Spelled(n, x, n, Abs(v) - 1)
  {
    hide Category, Spelled, Pow2, Log2;
    if Abs(v) == 1 {
      NoCategory(64 * tbl + ctx + 2 + Sign(v), 0);
    } else if v != 0 {
      Pow2Double(n + 1);
      TopBitOf(Abs(v) - 1, n);
      CategorySpelled(n, 64 * tbl + 20, n, Abs(v) - 1);
    }
  }

  lemma NoCategory(st: nat, u: nat)
    ensures Category(0, st, 0, u) == [Decision(st, 0)]
  {
    assert LowBits(0, st + 14, u) == [];
  }

  /** The highest power of two in `u` is below 2^e exactly if `u` is. */
  lemma TopBitBelow(u: nat, e: nat)
    ensures TopBit(u) < Pow2(e) <==> u < Pow2(e)
    ensures e > 0 ==> Pow2(e) / 2 == Pow2(e - 1) && (TopBit(u) > Pow2(e - 1) <==> u >= Pow2(e))
  {
    hide Pow2;
    if e > 0 {
      Pow2Double(e);
    }
    if u > 0 {
      var n := Log2(u);
      if n < e {
        Pow2Double(n + 1);
        Pow2Up(n + 1, e);
        Pow2Up(n, e - 1);
      } else {
        Pow2Up(e, n);
      }
    }
  }

  /**
   * Section F.1.4.4.1.2 of T.81: a zero difference and one of at most 2^(L-1) have category 0, a small one, of at most
   * 2^U, has 4 or 8, a large one 12 or 16, by its sign.
   */
  lemma DcCategories(v: int, lower: nat, upper: nat)
    ensures DcContext(v, lower, upper)
         == if v == 0 || (lower > 0 && Abs(v) <= Pow2(lower - 1)) then 0
            else if Abs(v) <= Pow2(upper) then if v > 0 then 4 else 8
            else if v > 0 then 12 else 16
  {
    assert Pow2(0) == 1;
    if v != 0 {
      hide Pow2, TopBit;
      var u := Abs(v) - 1;
      TopBitBelow(u, 0);
      TopBitBelow(u, lower);
      TopBitBelow(u, upper);
      if lower > 0 {
        TopBitBelow(u, lower - 1);
      }
    }
  }

  /** Whatever the decoder reads, the next category is that of the difference it gives. */
  lemma DecodedCategory(d: Dec, tbl: nat, ctx: nat, lower: nat, upper: nat)
    requires Ready(d) && tbl < NUM_ARITH_TBLS && ctx <= 16
    ensures var r := DecodeDc(d, tbl, ctx, lower, upper); r.Got? ==> r.value.1 == DcContext(r.value.0, lower, upper)
  {
    hide Bit, Advance, ContextOf, DecodeDcMagnitude, TopBit;
    var s := DcBin(tbl, ctx);
    if Bit(d, s) != 0 {
      var d1 := Advance(d, s);
      MagnitudeCategory(Advance(d1, s + 1), s + 2 + Bit(d1, s + 1), DcBin(tbl, 20));
    }
  }

  /** Differences up to 2^15 in magnitude decode exactly; any other is a magnitude overflow. */
  lemma DcDecoded(d: Dec, tbl: nat, ctx: nat, lower: nat, upper: nat, v: int, rest: seq<Decision>)
    requires Ready(d) && tbl < NUM_ARITH_TBLS && ctx <= 16
    requires Follows(d, DcDecisions(tbl, ctx, v) + rest)
    ensures Codable(d.k.bins, DcDecisions(tbl, ctx, v))
    ensures DecodeDc(d, tbl, ctx, lower, upper)
         == if Abs(v) <= 0x8000 then Got((v, DcContext(v, lower, upper)), After(d, DcDecisions(tbl, ctx, v)))
            else Bad
  {
    hide Bit, Advance, After, Follows, ContextOf, TopBit, DcMagnitude, DecodeDcMagnitude;
    var s := DcBin(tbl, ctx);
    if v == 0 {
      assert [Decision(s, 0)] == [Decision(s, 0)] + [];
      FollowHead(d, Decision(s, 0), [], rest);
    } else {
      var st := s + 2 + Sign(v);
      var mag := DcMagnitude(Abs(v) - 1, st, DcBin(tbl, 20));
      var signed := [Decision(s + 1, Sign(v))] + mag;
      FollowHead(d, Decision(s, 1), signed, rest);
      FollowHead(Advance(d, s), Decision(s + 1, Sign(v)), mag, rest);
      DcMagnitudeDecoded(Advance(Advance(d, s), s + 1), Abs(v) - 1, st, DcBin(tbl, 20), rest);
    }
  }

  // ---------------------------------------------------------------------------
  // AC bands (sections F.1.4.2 and G.1.3.2)
  // ---------------------------------------------------------------------------

  /** The last index in 1..se with a nonzero coefficient, or 0. */
  function EndOfBlock(z: seq<int>, se: nat): (ke: nat)
    requires se < |z|
    ensures ke <= se && (ke > 0 ==> z[ke] != 0)
    ensures forall j :: ke < j <= se ==> z[j] == 0
  {
    if se == 0 then 0 else if z[se] != 0 then se else EndOfBlock(z, se - 1)
  }

  /** The bin of the end-of-block decision at zigzag index `k`. */
  function AcEob(tbl: nat, k: nat): (bin: nat)
    requires tbl < NUM_ARITH_TBLS && 1 <= k <= 63
    ensures 1024 <= bin < FIXED_BIN - 2
  {
    AcBin(tbl, 3 * (k - 1))
  }

  function AcX2(tbl: nat, k: nat, kx: nat): (bin: nat)
    requires tbl < NUM_ARITH_TBLS
    ensures bin + 27 < STAT_BINS
  {
    AcBin(tbl, if k <= kx then 189 else 217)
  }

  /** A nonzero coefficient at index `k`: nonzero flag, sign, magnitude. */
  function AcCoef(tbl: nat, k: nat, kx: nat, v: int): seq<Decision>
    requires tbl < NUM_ARITH_TBLS && 1 <= k <= 63 && v != 0
  {
    var st := AcEob(tbl, k);
    [Decision(st + 1, 1)]
    + ([Decision(FIXED_BIN, Sign(v))] + AcMagnitude(Abs(v) - 1, st + 2, AcX2(tbl, k, kx)))
  }

  /**
   * The same for a nonzero AC coefficient (Table F.5): nonzero flag in S0, sign in the fixed bin, the first two
   * magnitude decisions in SP, the category from X2 = 189 on up to Kx and 217 above.
   */
  lemma AcSpelled(tbl: nat, k: nat, kx: nat, v: int, n: nat)
    requires tbl < NUM_ARITH_TBLS && 1 <= k <= 63 && v != 0
    requires Abs(v) > 2 ==> Pow2(n) <= Abs(v) - 1 < Pow2(n + 1)
    ensures var s := 1024 + 256 * tbl + 3 * (k - 1); var x := 1024 + 256 * tbl + if k <= kx then 189 else 217;
      AcCoef(tbl, k, kx, v)
      == [Decision(s + 1, 1), Decision(5120, if v < 0 then 1 else 0)]
         + if Abs(v) == 1 then [Decision(s + 2, 0)]
           else if Abs(v) == 2 then [Decision(s + 2, 1), Decision(s + 2, 0)]
           else [Decision(s + 2, 1), Decision(s + 2, 1)] + (if n > 0 then Spelled(n - 1, x, n, Abs(v) - 1) else [])
    ensures Abs(v) > 2 ==> n > 0
  {
    hide AcMagnitude, Spelled, Pow2;
    var s := AcEob(tbl, k);
    var x := AcX2(tbl, k, kx);
    assert s == 1024 + 256 * tbl + 3 * (k - 1) && x == 1024 + 256 * tbl + if k <= kx then 189 else 217;
    hide AcEob, AcX2;
    MagnitudeSpelled(Abs(v) - 1, s + 2, x, n);
    TwoFirst(Decision(s + 1, 1), Decision(FIXED_BIN, Sign(v)), AcMagnitude(Abs(v) - 1, s + 2, x));
  }

  lemma MagnitudeSpelled(u: nat, st: nat, x2: nat, n: nat)
    requires u > 1 ==> Pow2(n) <= u < Pow2(n + 1)
    ensures u > 1 ==> n > 0
    ensures AcMagnitude(u, st, x2)
         == if u == 0 then [Decision(st, 0)]
            else if u == 1 then [Decision(st, 1), Decision(st, 0)]
            else [Decision(st, 1), Decision(st, 1)] + (if n > 0 then Spelled(n - 1, x2, n, u) else [])
  {
    assert Pow2(0) == 1 && Pow2(1) == 2;
    hide Category, Spelled, Pow2, Log2;
    if u <= 1 {
      NoCategory(st, u);
    } else {
      Pow2Double(n + 1);
      TopBitOf(u, n);
      CategorySpelled(n - 1, x2, n, u);
    }
  }

  /** From index `k` on, with an end-of-block decision first; `ke` is the end of the block. */
  function AcBand(z: seq<int>, k: nat, ke: nat, se: nat, tbl: nat, kx: nat): seq<Decision>
    requires tbl < NUM_ARITH_TBLS && 1 <= k && ke <= se <= 63 < |z| && (ke > 0 ==> z[ke] != 0)
    decreases 64 - k, 1
  {
    if k <= ke then [Decision(AcEob(tbl, k), 0)] + AcRun(z, k, ke, se, tbl, kx)
    else if k <= se then [Decision(AcEob(tbl, k), 1)]
    else []
  }

  /** From index `k` on, when the block is known not to have ended. */
  function AcRun(z: seq<int>, k: nat, ke: nat, se: nat, tbl: nat, kx: nat): seq<Decision>
    requires tbl < NUM_ARITH_TBLS && 1 <= k <= ke <= se <= 63 < |z| && z[ke] != 0
    decreases 64 - k, 0
  {
    if z[k] == 0 then [Decision(AcEob(tbl, k) + 1, 0)] + AcRun(z, k + 1, ke, se, tbl, kx)
    else AcCoef(tbl, k, kx, z[k]) + AcBand(z, k + 1, ke, se, tbl, kx)
  }

  /**
   * What is coded at index `k` of a band from `ss` on: behind the start and each nonzero coefficient, that the block
   * has not ended; then the coefficient.
   */
  function AcPiece(z: seq<int>, ss: nat, k: nat, tbl: nat, kx: nat): seq<Decision>
    requires tbl < NUM_ARITH_TBLS && 1 <= ss <= k <= 63 < |z|
  {
    (if k == ss || z[k - 1] != 0 then [Decision(AcEob(tbl, k), 0)] else [])
    + if z[k] == 0 then [Decision(AcEob(tbl, k) + 1, 0)] else AcCoef(tbl, k, kx, z[k])
  }

  function AcPieces(z: seq<int>, ss: nat, k: nat, ke: nat, tbl: nat, kx: nat): seq<Decision>
    requires tbl < NUM_ARITH_TBLS && 1 <= ss <= k && ke <= 63 < |z|
    decreases 64 - k
  {
    if k > ke then [] else AcPiece(z, ss, k, tbl, kx) + AcPieces(z, ss, k + 1, ke, tbl, kx)
  }

  /** That the block has ended, in a band coded from index `k` on, unless it ends with the band. */
  function EndPiece(k: nat, ke: nat, se: nat, tbl: nat): seq<Decision>
    requires tbl < NUM_ARITH_TBLS && 1 <= k && se <= 63
  {
    var next := if ke < k then k else ke + 1;
    if next <= se then [Decision(1024 + 256 * tbl + 3 * (next - 1), 1)] else []
  }

  /** A band, index by index. */
  lemma {:induction false} BandPieces(z: seq<int>, ss: nat, k: nat, ke: nat, se: nat, tbl: nat, kx: nat)
    requires tbl < NUM_ARITH_TBLS && 1 <= ss <= k && ke <= se <= 63 < |z| && (ke > 0 ==> z[ke] != 0)
    requires k == ss || k <= ke + 1
    ensures k == ss || z[k - 1] != 0 ==>
      AcBand(z, k, ke, se, tbl, kx) == AcPieces(z, ss, k, ke, tbl, kx) + EndPiece(k, ke, se, tbl)
    ensures k > ss && z[k - 1] == 0 && k <= ke ==>
      AcRun(z, k, ke, se, tbl, kx) == AcPieces(z, ss, k, ke, tbl, kx) + EndPiece(k, ke, se, tbl)
    decreases 64 - k
  {
    hide AcBand, AcRun, AcCoef, AcPieces, AcEob, EndPiece;
    BandStep(z, ss, k, ke, se, tbl, kx);
    if k <= ke {
      BandPieces(z, ss, k + 1, ke, se, tbl, kx);
      var flag := if k == ss || z[k - 1] != 0 then [Decision(AcEob(tbl, k), 0)] else [];
      var coef := if z[k] == 0 then [Decision(AcEob(tbl, k) + 1, 0)] else AcCoef(tbl, k, kx, z[k]);
      Joined(flag, coef, AcPieces(z, ss, k + 1, ke, tbl, kx), EndPiece(k, ke, se, tbl));
    }
  }

  lemma BandStep(z: seq<int>, ss: nat, k: nat, ke: nat, se: nat, tbl: nat, kx: nat)
    requires tbl < NUM_ARITH_TBLS && 1 <= ss <= k && ke <= se <= 63 < |z| && (ke > 0 ==> z[ke] != 0)
    ensures k > ke ==> AcBand(z, k, ke, se, tbl, kx) == AcPieces(z, ss, k, ke, tbl, kx) + EndPiece(k, ke, se, tbl)
    ensures k <= ke ==>
      var flag := if k == ss || z[k - 1] != 0 then [Decision(AcEob(tbl, k), 0)] else [];
      var coef := if z[k] == 0 then [Decision(AcEob(tbl, k) + 1, 0)] else AcCoef(tbl, k, kx, z[k]);
      && AcPieces(z, ss, k, ke, tbl, kx) == flag + coef + AcPieces(z, ss, k + 1, ke, tbl, kx)
      && AcBand(z, k, ke, se, tbl, kx) == [Decision(AcEob(tbl, k), 0)] + AcRun(z, k, ke, se, tbl, kx)
      && AcRun(z, k, ke, se, tbl, kx)
         == coef + (if z[k] == 0 then AcRun(z, k + 1, ke, se, tbl, kx) else AcBand(z, k + 1, ke, se, tbl, kx))
      && EndPiece(k, ke, se, tbl) == EndPiece(k + 1, ke, se, tbl)
  {
  }

  /** Figure F.21 from the sign on: the value of a nonzero coefficient at index `k`. */
  function DecodeAcCoef(d: Dec, k: nat, tbl: nat, kx: nat): (r: Got<int>)
    requires Ready(d) && tbl < NUM_ARITH_TBLS && 1 <= k <= 63
    ensures r.Got? ==> Ready(r.d)
  {
    var sign := Bit(d, FIXED_BIN);
    match DecodeAcMagnitude(Advance(d, FIXED_BIN), AcEob(tbl, k) + 2, AcX2(tbl, k, kx))
    case Bad => Bad
    case Got(u, d1) => Got(if sign == 1 then -(u + 1) else u + 1, d1)
  }

  /** Figure F.20 from index `k` on; coefficients are scaled by 2^al into `block`. */
  function DecodeAcBand(d: Dec, k: nat, se: nat, tbl: nat, kx: nat, al: nat, block: seq<int>): (r: Got<seq<int>>)
    requires Ready(d) && tbl < NUM_ARITH_TBLS && 1 <= k && se <= 63 && |block| == 64
    ensures r.Got? ==> Ready(r.d) && |r.value| == 64
    decreases 64 - k, 2
  {
    if k > se then Got(block, d) else
      var st := AcEob(tbl, k);
      if Bit(d, st) == 1 then Got(block, Advance(d, st))
      else DecodeAcRun(Advance(d, st), k, se, tbl, kx, al, block)
  }

  /** The same when the block has not ended: zeros up to the next coefficient. */
  function DecodeAcRun(d: Dec, k: nat, se: nat, tbl: nat, kx: nat, al: nat, block: seq<int>): (r: Got<seq<int>>)
    requires Ready(d) && tbl < NUM_ARITH_TBLS && 1 <= k <= se <= 63 && |block| == 64
    ensures r.Got? ==> Ready(r.d) && |r.value| == 64
    decreases 64 - k, 1
  {
    var d1 := Advance(d, AcEob(tbl, k) + 1);
    if Bit(d, AcEob(tbl, k) + 1) == 1 then DecodeAcRest(d1, k, se, tbl, kx, al, block)
    else if k + 1 > se then Bad
    else DecodeAcRun(d1, k + 1, se, tbl, kx, al, block)
  }

  /** A nonzero coefficient at index `k`, and the band behind it. */
  function DecodeAcRest(d: Dec, k: nat, se: nat, tbl: nat, kx: nat, al: nat, block: seq<int>): (r: Got<seq<int>>)
    requires Ready(d) && tbl < NUM_ARITH_TBLS && 1 <= k <= se <= 63 && |block| == 64
    ensures r.Got? ==> Ready(r.d) && |r.value| == 64
    decreases 64 - k, 0
  {
    match DecodeAcCoef(d, k, tbl, kx)
    case Bad => Bad
    case Got(v, d1) => DecodeAcBand(d1, k + 1, se, tbl, kx, al, block[k := Short(v * Pow2(al))])
  }

  /** `block` with the nonzero coefficients of `z` in k..se stored, scaled by 2^al. */
  function Filled(block: seq<int>, z: seq<int>, k: nat, se: nat, al: nat): (r: seq<int>)
    requires |block| == 64 && |z| == 64
    ensures |r| == 64
  {
    seq(64, j requires 0 <= j < 64 =>
      if k <= j <= se && z[j] != 0 then Short(z[j] * Pow2(al)) else block[j])
  }

  lemma FilledNext(block: seq<int>, z: seq<int>, k: nat, se: nat, al: nat)
    requires |block| == 64 && |z| == 64 && k <= se <= 63
    ensures z[k] == 0 ==> Filled(block, z, k, se, al) == Filled(block, z, k + 1, se, al)
    ensures z[k] != 0 ==>
      Filled(block, z, k, se, al) == Filled(block[k := Short(z[k] * Pow2(al))], z, k + 1, se, al)
  {
    hide Short, Pow2;
  }

  /** What a band decodes to. */
  ghost predicate BandResult(r: Got<seq<int>>, d: Dec, ds: seq<Decision>, block: seq<int>, z: seq<int>,
                             k: nat, se: nat, al: nat)
    requires Ready(d) && |block| == 64 && |z| == 64
  {
    Codable(d.k.bins, ds) && r == Got(Filled(block, z, k, se, al), After(d, ds))
  }

  ghost predicate Band(z: seq<int>, ke: nat, se: nat) {
    && |z| == 64 && ke <= se <= 63 && (ke > 0 ==> z[ke] != 0)
    && (forall j :: ke < j <= se ==> z[j] == 0)
    && (forall j :: 0 <= j < 64 ==> Abs(z[j]) <= 0x8000)
  }

  lemma {:induction false} AcBandDecoded(d: Dec, z: seq<int>, k: nat, ke: nat, se: nat, tbl: nat, kx: nat, al: nat,
                                         block: seq<int>, rest: seq<Decision>)
    requires Ready(d) && Band(z, ke, se) && |block| == 64 && 1 <= k && tbl < NUM_ARITH_TBLS
    requires Follows(d, AcBand(z, k, ke, se, tbl, kx) + rest)
    ensures BandResult(DecodeAcBand(d, k, se, tbl, kx, al, block), d, AcBand(z, k, ke, se, tbl, kx), block, z, k, se, al)
    decreases 64 - k, 1
  {
    hide Bit, Advance, Follows, AcRun, DecodeAcRun;
    var ds := AcBand(z, k, ke, se, tbl, kx);
    FollowSplit(d, ds, rest);
    if k <= ke {
      var run := AcRun(z, k, ke, se, tbl, kx);
      FollowHead(d, Decision(AcEob(tbl, k), 0), run, rest);
      AcRunDecoded(Advance(d, AcEob(tbl, k)), z, k, ke, se, tbl, kx, al, block, rest);
    } else {
      assert Filled(block, z, k, se, al) == block;
      if k <= se {
        assert ds == [Decision(AcEob(tbl, k), 1)] + [];
        FollowHead(d, Decision(AcEob(tbl, k), 1), [], rest);
      }
    }
  }

  lemma {:induction false} AcRunDecoded(d: Dec, z: seq<int>, k: nat, ke: nat, se: nat, tbl: nat, kx: nat, al: nat,
                                        block: seq<int>, rest: seq<Decision>)
    requires Ready(d) && Band(z, ke, se) && |block| == 64 && 1 <= k <= ke && tbl < NUM_ARITH_TBLS
    requires Follows(d, AcRun(z, k, ke, se, tbl, kx) + rest)
    ensures BandResult(DecodeAcRun(d, k, se, tbl, kx, al, block), d, AcRun(z, k, ke, se, tbl, kx), block, z, k, se, al)
    decreases 64 - k, 0
  {
    hide Bit, Advance, Follows, After, AcBand, AcCoef, DecodeAcBand, DecodeAcCoef, Filled, Short, Pow2;
    var st := AcEob(tbl, k);
    FilledNext(block, z, k, se, al);
    if z[k] == 0 {
      var more := AcRun(z, k + 1, ke, se, tbl, kx);
      FollowHead(d, Decision(st + 1, 0), more, rest);
      AcRunDecoded(Advance(d, st + 1), z, k + 1, ke, se, tbl, kx, al, block, rest);
    } else {
      var v := z[k];
      var more := AcBand(z, k + 1, ke, se, tbl, kx);
      var block2 := block[k := Short(v * Pow2(al))];
      var d3 := CoefDecoded(d, tbl, k, kx, v, more, rest);
      AcBandDecoded(d3, z, k + 1, ke, se, tbl, kx, al, block2, rest);
    }
  }

  lemma CoefDecoded(d: Dec, tbl: nat, k: nat, kx: nat, v: int, more: seq<Decision>, rest: seq<Decision>)
      returns (d3: Dec)
    requires Ready(d) && tbl < NUM_ARITH_TBLS && 1 <= k <= 63 && 0 < Abs(v) <= 0x8000
    requires Follows(d, AcCoef(tbl, k, kx, v) + more + rest)
    ensures Bit(d, AcEob(tbl, k) + 1) == 1
    ensures DecodeAcCoef(Advance(d, AcEob(tbl, k) + 1), k, tbl, kx) == Got(v, d3)
    ensures Ready(d3) && Follows(d3, more + rest)
    ensures Codable(d.k.bins, AcCoef(tbl, k, kx, v) + more) && Codable(d3.k.bins, more)
    ensures After(d3, more) == After(d, AcCoef(tbl, k, kx, v) + more)
  {
    hide Bit, Advance, After, Follows, AcMagnitude, DecodeAcMagnitude;
    var st := AcEob(tbl, k);
    var coef := AcCoef(tbl, k, kx, v);
    var mag := AcMagnitude(Abs(v) - 1, st + 2, AcX2(tbl, k, kx));
    var signed := [Decision(FIXED_BIN, Sign(v))] + mag;
    assert coef + more + rest == coef + (more + rest);
    FollowHead(d, Decision(st + 1, 1), signed, more + rest);
    FollowHead(Advance(d, st + 1), Decision(FIXED_BIN, Sign(v)), mag, more + rest);
    var d2 := Advance(Advance(d, st + 1), FIXED_BIN);
    AcMagnitudeDecoded(d2, Abs(v) - 1, st + 2, AcX2(tbl, k, kx), more + rest);
    d3 := After(d2, mag);
    FollowSplit(d2, mag, more + rest);
    FollowSplit(d3, more, rest);
    FollowSplit(d, coef, more + rest);
    AfterConcat(d, coef, more);
  }
}
