/** Successive approximation of AC coefficients: refinement decisions (section G.1.3.3 of T.81). */
module DctRefine {
  import opened Arith
  import opened QmInterval
  import opened QmRoundTrip
  import opened DctDecisions
  import opened DctBands

  /** The magnitude after the point transform. */
  function Mag(v: int, al: nat): nat {
    hide Pow2;
    var p := Pow2(al);
    Abs(v) / p
  }

  /** `m` with the sign of a negative or nonnegative number. */
  function WithSign(negative: bool, m: int): int {
    if negative then -m else m
  }

  /** The point transform of an AC coefficient: division by 2^al, rounding towards 0. */
  function PointTransform(v: int, al: nat): int {
    WithSign(v < 0, Mag(v, al))
  }

  /** What is known of an AC coefficient once its bits from `al` up have been sent. */
  function Approx(v: int, al: nat): int {
    WithSign(v < 0, Mag(v, al) * Pow2(al))
  }

  /** A multiple of 2^al on the same side of zero, less than 2^al nearer to it. */
  lemma ApproxNear(v: int, al: nat)
    ensures Abs(v) - Pow2(al) < Abs(Approx(v, al)) <= Abs(v)
    ensures (Approx(v, al) > 0 ==> v > 0) && (Approx(v, al) < 0 ==> v < 0)
    ensures Approx(v, al) % Pow2(al) == 0
  {
    hide Pow2;
    var p, q := Pow2(al), PointTransform(v, al);
    ApproxScaled(v, al);
    Division(q * p, p, q, 0);
    MulNext(Mag(v, al), p);
    assert 0 <= Mag(v, al) * p;
  }

  lemma ApproxScaled(v: int, al: nat)
    ensures PointTransform(v, al) * Pow2(al) == Approx(v, al)
  {
    assert (0 - Mag(v, al)) * Pow2(al) == 0 - Mag(v, al) * Pow2(al);
  }

  /** Does index `j` lie past the end-of-block index `kx`? */
  predicate Past(j: nat, kx: nat) {
    j > kx
  }

  /** The last index in 1..se whose coefficient is nonzero after the point transform, or 0. */
  function EndOfBlockAt(b: seq<int>, se: nat, al: nat): (ke: nat)
    requires se < |b|
    ensures ke <= se && (ke > 0 ==> Mag(b[ke], al) != 0)
    ensures forall j :: ke < j <= se ==> Mag(b[j], al) == 0
  {
    if se == 0 then 0 else if Mag(b[se], al) != 0 then se else EndOfBlockAt(b, se - 1, al)
  }

  /** Figure G.10 from index `k` on; an end-of-block decision is needed only past `kex`. */
  function RefineBand(b: seq<int>, k: nat, ke: nat, kex: nat, se: nat, tbl: nat, al: nat): seq<Decision>
    requires tbl < NUM_ARITH_TBLS && 1 <= k && ke <= se <= 63 < |b| && (ke > 0 ==> Mag(b[ke], al) != 0)
    decreases 64 - k, 1
  {
    if k <= ke then
      (if k > kex then [Decision(AcEob(tbl, k), 0)] else []) + RefineRun(b, k, ke, kex, se, tbl, al)
    else if k <= se then [Decision(AcEob(tbl, k), 1)]
    else []
  }

  function RefineRun(b: seq<int>, k: nat, ke: nat, kex: nat, se: nat, tbl: nat, al: nat): seq<Decision>
    requires tbl < NUM_ARITH_TBLS && 1 <= k <= ke <= se <= 63 < |b| && Mag(b[ke], al) != 0
    decreases 64 - k, 0
  {
    if Mag(b[k], al) == 0 then
      [Decision(AcEob(tbl, k) + 1, 0)] + RefineRun(b, k + 1, ke, kex, se, tbl, al)
    else
      RefineCoef(tbl, k, b[k], al) + RefineBand(b, k + 1, ke, kex, se, tbl, al)
  }

  /** A previously nonzero coefficient sends its next bit, a newly nonzero one its sign. */
  function RefineCoef(tbl: nat, k: nat, v: int, al: nat): seq<Decision>
    requires tbl < NUM_ARITH_TBLS && 1 <= k <= 63
  {
    var st := AcEob(tbl, k);
    if Mag(v, al) / 2 != 0 then [Decision(st + 2, Mag(v, al) % 2)]
    else [Decision(st + 1, 1), Decision(FIXED_BIN, Sign(v))]
  }

  /**
   * What is coded at index `k` of a refinement from `ss` on: that the block has not ended, only past `kex` and behind
   * the start or a coefficient that is nonzero; then the next bit of a coefficient that was nonzero before, or whether
   * it is now, with its sign.
   */
  function RefinePiece(b: seq<int>, ss: nat, k: nat, kex: nat, tbl: nat, al: nat): seq<Decision>
    requires tbl < NUM_ARITH_TBLS && 1 <= ss <= k <= 63 < |b|
  {
    RefineFlag(b, ss, k, kex, tbl, al) + RefineBits(b, k, tbl, al)
  }

  function RefineFlag(b: seq<int>, ss: nat, k: nat, kex: nat, tbl: nat, al: nat): seq<Decision>
    requires tbl < NUM_ARITH_TBLS && 1 <= ss <= k <= 63 < |b|
  {
    if k > kex && (k == ss || Abs(b[k - 1]) / Pow2(al) != 0) then [Decision(1024 + 256 * tbl + 3 * (k - 1), 0)] else []
  }

  function RefineBits(b: seq<int>, k: nat, tbl: nat, al: nat): seq<Decision>
    requires tbl < NUM_ARITH_TBLS && 1 <= k <= 63 < |b|
  {
    var s := 1024 + 256 * tbl + 3 * (k - 1);
    var m := Abs(b[k]) / Pow2(al);
    if m > 1 then [Decision(s + 2, m % 2)]
    else if m == 1 then [Decision(s + 1, 1), Decision(5120, if b[k] < 0 then 1 else 0)]
    else [Decision(s + 1, 0)]
  }

  function RefinePieces(b: seq<int>, ss: nat, k: nat, ke: nat, kex: nat, tbl: nat, al: nat): seq<Decision>
    requires tbl < NUM_ARITH_TBLS && 1 <= ss <= k && ke <= 63 < |b|
    decreases 64 - k
  {
    if k > ke then [] else RefinePiece(b, ss, k, kex, tbl, al) + RefinePieces(b, ss, k + 1, ke, kex, tbl, al)
  }

  /** A refinement, index by index. */
  lemma {:induction false} RefinementPieces(b: seq<int>, ss: nat, k: nat, ke: nat, kex: nat, se: nat, tbl: nat, al: nat)
    requires tbl < NUM_ARITH_TBLS && 1 <= ss <= k && ke <= se <= 63 < |b| && (ke > 0 ==> Mag(b[ke], al) != 0)
    requires k == ss || k <= ke + 1
    ensures k == ss || Mag(b[k - 1], al) != 0 ==>
      RefineBand(b, k, ke, kex, se, tbl, al) == RefinePieces(b, ss, k, ke, kex, tbl, al) + EndPiece(k, ke, se, tbl)
    ensures k > ss && Mag(b[k - 1], al) == 0 && k <= ke ==>
      RefineRun(b, k, ke, kex, se, tbl, al) == RefinePieces(b, ss, k, ke, kex, tbl, al) + EndPiece(k, ke, se, tbl)
    decreases 64 - k
  {
    hide RefinePieces, RefineBand, RefineRun, RefineCoef, RefineFlag, RefineBits, AcEob, Mag, Pow2, EndPiece;
    if k > ke {
      RefineEnd(b, ss, k, ke, kex, se, tbl, al);
    } else {
      RefinePieceStep(b, ss, k, ke, kex, tbl, al);
      RefineRunStep(b, k, ke, kex, se, tbl, al);
      RefineBandStep(b, ss, k, ke, kex, se, tbl, al);
      SameEnd(k, ke, se, tbl);
      RefinementPieces(b, ss, k + 1, ke, kex, se, tbl, al);
      Joined(RefineFlag(b, ss, k, kex, tbl, al), RefineBits(b, k, tbl, al),
             RefinePieces(b, ss, k + 1, ke, kex, tbl, al), EndPiece(k, ke, se, tbl));
    }
  }

  lemma RefineEnd(b: seq<int>, ss: nat, k: nat, ke: nat, kex: nat, se: nat, tbl: nat, al: nat)
    requires tbl < NUM_ARITH_TBLS && 1 <= ss <= k && ke < k && ke <= se <= 63 < |b| && (ke > 0 ==> Mag(b[ke], al) != 0)
    ensures RefineBand(b, k, ke, kex, se, tbl, al) == RefinePieces(b, ss, k, ke, kex, tbl, al) + EndPiece(k, ke, se, tbl)
  {
    hide Mag;
  }

  lemma SameEnd(k: nat, ke: nat, se: nat, tbl: nat)
    requires tbl < NUM_ARITH_TBLS && 1 <= k <= ke && se <= 63
    ensures EndPiece(k, ke, se, tbl) == EndPiece(k + 1, ke, se, tbl)
  {
  }

  lemma RefinePieceStep(b: seq<int>, ss: nat, k: nat, ke: nat, kex: nat, tbl: nat, al: nat)
    requires tbl < NUM_ARITH_TBLS && 1 <= ss <= k <= ke <= 63 < |b|
    ensures RefinePieces(b, ss, k, ke, kex, tbl, al)
         == RefineFlag(b, ss, k, kex, tbl, al) + RefineBits(b, k, tbl, al) + RefinePieces(b, ss, k + 1, ke, kex, tbl, al)
  {
    hide RefineFlag, RefineBits;
  }

  lemma RefineRunStep(b: seq<int>, k: nat, ke: nat, kex: nat, se: nat, tbl: nat, al: nat)
    requires tbl < NUM_ARITH_TBLS && 1 <= k <= ke <= se <= 63 < |b| && Mag(b[ke], al) != 0
    ensures RefineRun(b, k, ke, kex, se, tbl, al)
         == RefineBits(b, k, tbl, al) + (if Mag(b[k], al) == 0 then RefineRun(b, k + 1, ke, kex, se, tbl, al)
                                         else RefineBand(b, k + 1, ke, kex, se, tbl, al))
  {
    hide Mag, RefineBits, RefineCoef, RefineBand, AcEob;
    RefineBitsCoef(b, k, tbl, al);
  }

  lemma RefineBandStep(b: seq<int>, ss: nat, k: nat, ke: nat, kex: nat, se: nat, tbl: nat, al: nat)
    requires tbl < NUM_ARITH_TBLS && 1 <= ss <= k <= ke <= se <= 63 < |b| && Mag(b[ke], al) != 0
    ensures var flag := RefineFlag(b, ss, k, kex, tbl, al);
      if k == ss || Mag(b[k - 1], al) != 0
      then RefineBand(b, k, ke, kex, se, tbl, al) == flag + RefineRun(b, k, ke, kex, se, tbl, al)
      else flag == []
  {
    hide RefineRun, Pow2;
  }

  lemma RefineBitsCoef(b: seq<int>, k: nat, tbl: nat, al: nat)
    requires tbl < NUM_ARITH_TBLS && 1 <= k <= 63 < |b|
    ensures RefineBits(b, k, tbl, al)
      == if Mag(b[k], al) == 0 then [Decision(AcEob(tbl, k) + 1, 0)] else RefineCoef(tbl, k, b[k], al)
  {
  }

  /** The refinement decoder from index `k` on, in `block` as the earlier scans left it. */
  function DecodeRefineBand(d: Dec, k: nat, kex: nat, se: nat, tbl: nat, al: nat, block: seq<int>): (r: Got<seq<int>>)
    requires Ready(d) && tbl < NUM_ARITH_TBLS && 1 <= k && se <= 63 && |block| == 64
    ensures r.Got? ==> Ready(r.d) && |r.value| == 64
    decreases 64 - k, 1
  {
    if k > se then Got(block, d) else
      var st := AcEob(tbl, k);
      if k <= kex then DecodeRefineRun(d, k, kex, se, tbl, al, block)
      else if Bit(d, st) == 1 then Got(block, Advance(d, st))
      else DecodeRefineRun(Advance(d, st), k, kex, se, tbl, al, block)
  }

  function DecodeRefineRun(d: Dec, k: nat, kex: nat, se: nat, tbl: nat, al: nat, block: seq<int>): (r: Got<seq<int>>)
    requires Ready(d) && tbl < NUM_ARITH_TBLS && 1 <= k <= se <= 63 && |block| == 64
    ensures r.Got? ==> Ready(r.d) && |r.value| == 64
    decreases 64 - k, 0
  {
    var st := AcEob(tbl, k);
    var p1 := Pow2(al);
    if block[k] != 0 then
      var step := if Bit(d, st + 2) == 0 then 0 else WithSign(block[k] < 0, p1);
      DecodeRefineBand(Advance(d, st + 2), k + 1, kex, se, tbl, al, block[k := Short(block[k] + step)])
    else
      var d1 := Advance(d, st + 1);
      if Bit(d, st + 1) == 1 then
        var v := WithSign(Bit(d1, FIXED_BIN) == 1, p1);
        DecodeRefineBand(Advance(d1, FIXED_BIN), k + 1, kex, se, tbl, al, block[k := Short(v)])
      else if k + 1 > se then Bad
      else DecodeRefineRun(d1, k + 1, kex, se, tbl, al, block)
  }

  /** `block` with k..se known one bit further. */
  function Refined(block: seq<int>, b: seq<int>, k: nat, se: nat, al: nat): (r: seq<int>)
    requires |block| == 64 && |b| == 64
    ensures |r| == 64
  {
    seq(64, j requires 0 <= j < 64 => if k <= j <= se then Approx(b[j], al) else block[j])
  }

  /** `block` holds, in k..se, what the scans down to `al + 1` tell of the coefficients `b`. */
  ghost predicate Known(block: seq<int>, b: seq<int>, k: nat, se: nat, al: nat) {
    && |block| == 64 && |b| == 64 && se <= 63
    && (forall j :: 0 <= j < 64 ==> IsCoef(b[j]))
    && forall j :: k <= j <= se ==> block[j] == Approx(b[j], al + 1)
  }

  /** The next bit of a magnitude completes the approximation by one step. */
  lemma ApproxStep(v: int, al: nat)
    requires IsCoef(v)
    ensures Mag(v, al) / 2 == Mag(v, al + 1)
    ensures Approx(v, al + 1) != 0 <==> Mag(v, al + 1) != 0
    ensures Approx(v, al + 1) < 0 <==> v < 0 && Mag(v, al + 1) != 0
    ensures Approx(v, al) == Approx(v, al + 1) + if Mag(v, al) % 2 == 0 then 0 else WithSign(v < 0, Pow2(al))
    ensures IsCoef(Approx(v, al))
  {
    hide Pow2;
    var p := Pow2(al);
    assert Pow2(al + 1) == 2 * p by { Pow2Add(1, al); Pow2Table(); }
    var q := Mag(v, al);
    HalfDivision(Abs(v), p);
    MagStep(q, p);
    assert q * p <= Abs(v);
  }

  lemma MagStep(q: nat, p: nat)
    requires p > 0
    ensures q * p == q / 2 * (2 * p) + (if q % 2 == 0 then 0 else p)
    ensures q / 2 * (2 * p) > 0 <==> q / 2 > 0
  {
    var h := q / 2;
    assert q == h * 2 + q % 2;
    assert (h * 2 + q % 2) * p == h * (2 * p) + q % 2 * p;
    assert h > 0 ==> h * (2 * p) > 0;
  }

  lemma HalfDivision(u: nat, p: nat)
    requires p > 0
    ensures u / (2 * p) == u / p / 2
  {
    var q: nat := u / p;
    var r := u - q * p;
    assert q == q / 2 * 2 + q % 2;
    assert (q / 2 * 2 + q % 2) * p == q / 2 * (2 * p) + q % 2 * p;
    Division(u, 2 * p, q / 2, q % 2 * p + r);
  }

  ghost predicate RefineResult(r: Got<seq<int>>, d: Dec, ds: seq<Decision>, block: seq<int>, b: seq<int>,
                               k: nat, se: nat, al: nat)
    requires Ready(d) && |block| == 64 && |b| == 64
  {
    Codable(d.k.bins, ds) && r == Got(Refined(block, b, k, se, al), After(d, ds))
  }

  /** The ends of the block at this stage (`ke`) and at the previous one (`kex`), as far as k..se goes. */
  ghost predicate Ends(b: seq<int>, block: seq<int>, k: nat, ke: nat, kex: nat, kd: nat, se: nat, al: nat) {
    && |b| == 64 && |block| == 64 && ke <= se <= 63 && (ke > 0 ==> Mag(b[ke], al) != 0)
    && (forall j :: ke < j <= se ==> Mag(b[j], al) == 0)
    && (forall j: nat :: k <= j <= se ==> (Past(j, kex) <==> Past(j, kd)))
  }

  lemma {:induction false} RefineBandDecoded(d: Dec, b: seq<int>, k: nat, ke: nat, kex: nat, kd: nat, se: nat, tbl: nat,
                                             al: nat, block: seq<int>, rest: seq<Decision>)
    requires Ready(d) && Known(block, b, k, se, al) && Ends(b, block, k, ke, kex, kd, se, al)
    requires kex <= ke && 1 <= k && tbl < NUM_ARITH_TBLS
    requires Follows(d, RefineBand(b, k, ke, kex, se, tbl, al) + rest)
    ensures RefineResult(DecodeRefineBand(d, k, kd, se, tbl, al, block), d,
                         RefineBand(b, k, ke, kex, se, tbl, al), block, b, k, se, al)
    decreases 64 - k, 1
  {
    hide Bit, Advance, Follows, RefineRun, DecodeRefineRun, Approx, Mag;
    var ds := RefineBand(b, k, ke, kex, se, tbl, al);
    FollowSplit(d, ds, rest);
    assert Past(k, kex) <==> k > kex;
    if k <= ke {
      var run := RefineRun(b, k, ke, kex, se, tbl, al);
      if k > kex {
        FollowHead(d, Decision(AcEob(tbl, k), 0), run, rest);
        RefineRunDecoded(Advance(d, AcEob(tbl, k)), b, k, ke, kex, kd, se, tbl, al, block, rest);
      } else {
        assert ds == run;
        RefineRunDecoded(d, b, k, ke, kex, kd, se, tbl, al, block, rest);
      }
    } else {
      SameTail(b, block, k, se, al);
      assert k <= se ==> Past(k, kd);
      if k <= se {
        assert ds == [Decision(AcEob(tbl, k), 1)] + [];
        FollowHead(d, Decision(AcEob(tbl, k), 1), [], rest);
      }
    }
  }

  /** Past the end of the block nothing changes. */
  lemma SameTail(b: seq<int>, block: seq<int>, k: nat, se: nat, al: nat)
    requires Known(block, b, k, se, al)
    requires forall j :: k <= j <= se ==> Mag(b[j], al) == 0
    ensures Refined(block, b, k, se, al) == block
  {
    hide Approx, Mag;
    forall j | k <= j <= se ensures Approx(b[j], al) == block[j] {
      ApproxStep(b[j], al);
    }
  }

  lemma {:induction false} RefineRunDecoded(d: Dec, b: seq<int>, k: nat, ke: nat, kex: nat, kd: nat, se: nat, tbl: nat,
                                            al: nat, block: seq<int>, rest: seq<Decision>)
    requires Ready(d) && Known(block, b, k, se, al) && Ends(b, block, k, ke, kex, kd, se, al)
    requires kex <= ke && 1 <= k <= ke && tbl < NUM_ARITH_TBLS
    requires Follows(d, RefineRun(b, k, ke, kex, se, tbl, al) + rest)
    ensures RefineResult(DecodeRefineRun(d, k, kd, se, tbl, al, block), d,
                         RefineRun(b, k, ke, kex, se, tbl, al), block, b, k, se, al)
    decreases 64 - k, 0
  {
    hide Bit, Advance, Follows, After, RefineBand, DecodeRefineBand, Approx, Mag;
    var st := AcEob(tbl, k);
    ApproxStep(b[k], al);
    if Mag(b[k], al) == 0 {
      var more := RefineRun(b, k + 1, ke, kex, se, tbl, al);
      FollowHead(d, Decision(st + 1, 0), more, rest);
      RefineRunDecoded(Advance(d, st + 1), b, k + 1, ke, kex, kd, se, tbl, al, block, rest);
      assert Refined(block, b, k, se, al) == Refined(block, b, k + 1, se, al);
    } else {
      var more := RefineBand(b, k + 1, ke, kex, se, tbl, al);
      var block2 := block[k := Approx(b[k], al)];
      assert Refined(block, b, k, se, al) == Refined(block2, b, k + 1, se, al);
      if Mag(b[k], al) / 2 != 0 {
        FollowHead(d, Decision(st + 2, Mag(b[k], al) % 2), more, rest);
        RefineBandDecoded(Advance(d, st + 2), b, k + 1, ke, kex, kd, se, tbl, al, block2, rest);
      } else {
        NewlyNonzero(b[k], al);
        var sign := [Decision(FIXED_BIN, Sign(b[k]))];
        assert RefineCoef(tbl, k, b[k], al) + more == [Decision(st + 1, 1)] + (sign + more);
        FollowHead(d, Decision(st + 1, 1), sign + more, rest);
        FollowHead(Advance(d, st + 1), Decision(FIXED_BIN, Sign(b[k])), more, rest);
        RefineBandDecoded(Advance(Advance(d, st + 1), FIXED_BIN), b, k + 1, ke, kex, kd, se, tbl, al, block2, rest);
      }
    }
  }

  lemma NewlyNonzero(v: int, al: nat)
    requires IsCoef(v) && Mag(v, al) != 0 && Mag(v, al) / 2 == 0
    ensures Approx(v, al) == WithSign(v < 0, Pow2(al))
  {
    assert Mag(v, al) == 1;
  }
}
