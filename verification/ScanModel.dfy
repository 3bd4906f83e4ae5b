/**
 * Scans: how each of the five entropy-coding modes of jcarith.c turns MCUs into
 * decisions, and what the matching routines of jdarith.c make of them.
 */
module ScanModel {
  import opened Coefficients
  import opened Arith
  import opened QmInterval
  import opened QmRoundTrip
  import opened DctDecisions
  import opened DctBands
  import opened DctRefine

  datatype Component = Component(dcTbl: nat, acTbl: nat)

  datatype Mode = Sequential | DcFirst | AcFirst | DcRefine | AcRefine

  /** The scan parameters the entropy coder reads. */
  datatype Scan = Scan(comps: seq<Component>, membership: seq<nat>, restartInterval: nat, progressive: bool,
                       ss: nat, se: nat, ah: nat, al: nat, dcL: seq<nat>, dcU: seq<nat>, acK: seq<nat>)

  const MAX_COMPS_IN_SCAN: nat := 4

  /** The selection of the MCU routine in `start_pass`. */
  function ModeOf(scan: Scan): Mode {
    if !scan.progressive then Sequential
    else if scan.ah == 0 then if scan.ss == 0 then DcFirst else AcFirst
    else if scan.ss == 0 then DcRefine else AcRefine
  }

  /** What scan setup and script validation guarantee. */
  ghost predicate ValidScan(scan: Scan) {
    && 1 <= |scan.comps| <= MAX_COMPS_IN_SCAN
    && (forall c :: 0 <= c < |scan.comps| ==>
          scan.comps[c].dcTbl < NUM_ARITH_TBLS && scan.comps[c].acTbl < NUM_ARITH_TBLS)
    && (forall i :: 0 <= i < |scan.membership| ==> scan.membership[i] < |scan.comps|)
    && |scan.dcL| == NUM_ARITH_TBLS && |scan.dcU| == NUM_ARITH_TBLS && |scan.acK| == NUM_ARITH_TBLS
    && scan.ss <= scan.se <= 63 && scan.al <= 13
    && (!scan.progressive ==> scan.ss == 0 && scan.se == 63 && scan.ah == 0 && scan.al == 0)
    && (scan.progressive && scan.ss == 0 ==> scan.se == 0)
    && (scan.progressive && scan.ss > 0 ==> |scan.comps| == 1 && scan.membership == [0])
    && (scan.ah != 0 ==> scan.ah == scan.al + 1)
  }

  /** DC predictions and conditioning categories, by component of the scan. */
  datatype Pred = Pred(last: seq<int>, ctx: seq<nat>)

  ghost predicate ValidPred(p: Pred) {
    && |p.last| == |p.ctx| == MAX_COMPS_IN_SCAN
    && forall c :: 0 <= c < MAX_COMPS_IN_SCAN ==> p.ctx[c] <= 16 && IsCoef(p.last[c])
  }

  ghost predicate IsBlock(b: Block) {
    forall j :: 0 <= j < 64 ==> IsCoef(b[j])
  }

  /** Division by 2^al rounding down: an arithmetic right shift. */
  function DcTransform(v: int, al: nat): int {
    v / Pow2(al)
  }

  /** What is known of a DC coefficient once its bits from `al` up have been sent. */
  function DcApprox(v: int, al: nat): int {
    DcTransform(v, al) * Pow2(al)
  }

  function Transformed(b: Block, al: nat): (z: Block)
    ensures forall j :: 0 <= j < 64 ==> z[j] == PointTransform(b[j], al)
  {
    seq(64, j requires 0 <= j < 64 => PointTransform(b[j], al))
  }

  predicate CodesDc(mode: Mode) {
    mode == Sequential || mode == DcFirst
  }

  function DcTbl(scan: Scan, i: nat): (tbl: nat)
    requires ValidScan(scan) && i < |scan.membership|
    ensures tbl < NUM_ARITH_TBLS
  {
    scan.comps[scan.membership[i]].dcTbl
  }

  function AcTbl(scan: Scan, i: nat): (tbl: nat)
    requires ValidScan(scan) && i < |scan.membership|
    ensures tbl < NUM_ARITH_TBLS
  {
    scan.comps[scan.membership[i]].acTbl
  }

  function DcDiff(scan: Scan, p: Pred, i: nat, b: Block): int
    requires ValidScan(scan) && ValidPred(p) && i < |scan.membership|
  {
    DcTransform(b[0], scan.al) - p.last[scan.membership[i]]
  }

  /** The decisions for block `i` of an MCU. */
  function BlockDecisions(scan: Scan, p: Pred, i: nat, b: Block): seq<Decision>
    requires ValidScan(scan) && ValidPred(p) && i < |scan.membership|
  {
    var ci := scan.membership[i];
    var kx := scan.acK[AcTbl(scan, i)];
    match ModeOf(scan)
    case Sequential =>
      DcDecisions(DcTbl(scan, i), p.ctx[ci], DcDiff(scan, p, i, b))
      + AcBand(b, 1, EndOfBlock(b, 63), 63, AcTbl(scan, i), kx)
    case DcFirst =>
      DcDecisions(DcTbl(scan, i), p.ctx[ci], DcDiff(scan, p, i, b))
    case AcFirst =>
      AcBand(Transformed(b, scan.al), scan.ss, EndOfBlockAt(b, scan.se, scan.al), scan.se, AcTbl(scan, i), kx)
    case DcRefine =>
      [Decision(FIXED_BIN, DcTransform(b[0], scan.al) % 2)]
    case AcRefine =>
      var ke := EndOfBlockAt(b, scan.se, scan.al);
      RefineBand(b, scan.ss, ke, EndOfBlockAt(b, ke, scan.ah), scan.se, AcTbl(scan, i), scan.al)
  }

  /** Is `ke` the last index in 1..se whose coefficient is not below 2^al in magnitude, or 0 if there is none? */
  ghost predicate EndsAt(b: Block, se: nat, al: nat, ke: nat) {
    && ke <= se <= 63 && (ke > 0 ==> Abs(b[ke]) >= Pow2(al))
    && forall j :: ke < j <= se ==> Abs(b[j]) < Pow2(al)
  }

  lemma EndFound(b: Block, se: nat, al: nat, ke: nat)
    requires EndsAt(b, se, al, ke)
    ensures EndOfBlockAt(b, se, al) == ke
  {
    hide Pow2;
    var e := EndOfBlockAt(b, se, al);
    forall j | 0 <= j < 64 ensures Mag(b[j], al) != 0 <==> Abs(b[j]) >= Pow2(al) {
      if Abs(b[j]) < Pow2(al) {
        Division(Abs(b[j]), Pow2(al), 0, Abs(b[j]));
      }
    }
    hide Mag;
    assert (ke > 0 ==> Mag(b[ke], al) != 0) && (e > 0 ==> Mag(b[e], al) != 0);
  }

  /**
   * What is coded for a block in each of the five modes, from the scan's parameters: the DC value less the prediction,
   * or its next bit, and the band of AC coefficients with its point transform, with the tables of the component.
   */
  lemma BlockSpelled(scan: Scan, p: Pred, i: nat, b: Block, ke: nat, kex: nat)
    requires ValidScan(scan) && ValidPred(p) && i < |scan.membership|
    requires EndsAt(b, scan.se, scan.al, ke) && (scan.ah > 0 ==> EndsAt(b, ke, scan.ah, kex))
    ensures var ci := scan.membership[i]; var c := scan.comps[ci];
      var kx := scan.acK[c.acTbl];
      var dc := DcDecisions(c.dcTbl, p.ctx[ci], b[0] / Pow2(scan.al) - p.last[ci]);
      BlockDecisions(scan, p, i, b)
      == if !scan.progressive then dc + (AcPieces(b, 1, 1, ke, c.acTbl, kx) + EndPiece(1, ke, 63, c.acTbl))
         else if scan.ss == 0 && scan.ah == 0 then dc
         else if scan.ss == 0 then [Decision(5120, b[0] / Pow2(scan.al) % 2)]
         else if scan.ah == 0 then
           AcPieces(Transformed(b, scan.al), scan.ss, scan.ss, ke, c.acTbl, kx) + EndPiece(scan.ss, ke, scan.se, c.acTbl)
         else
           RefinePieces(b, scan.ss, scan.ss, ke, kex, c.acTbl, scan.al) + EndPiece(scan.ss, ke, scan.se, c.acTbl)
  {
    hide DcDecisions, AcBand, AcPieces, RefineBand, RefinePieces, EndPiece, PointTransform, Mag;
    var tbl := AcTbl(scan, i);
    var kx := scan.acK[tbl];
    EndFound(b, scan.se, scan.al, ke);
    match ModeOf(scan)
    case Sequential =>
      SequentialEnd(b, ke);
      BandPieces(b, 1, 1, ke, 63, tbl, kx);
    case DcFirst =>
    case DcRefine =>
    case AcFirst =>
      TransformedEnd(b, scan.al, ke);
      BandPieces(Transformed(b, scan.al), scan.ss, scan.ss, ke, scan.se, tbl, kx);
    case AcRefine =>
      EndFound(b, ke, scan.ah, kex);
      RefinementPieces(b, scan.ss, scan.ss, ke, kex, scan.se, tbl, scan.al);
  }

  lemma SequentialEnd(b: Block, ke: nat)
    requires EndsAt(b, 63, 0, ke)
    ensures EndOfBlock(b, 63) == ke
  {
    assert Pow2(0) == 1;
    var e := EndOfBlock(b, 63);
    assert (ke > 0 ==> b[ke] != 0) && (e > 0 ==> b[e] != 0);
  }

  lemma TransformedEnd(b: Block, al: nat, ke: nat)
    requires ke <= 63 && EndOfBlockAt(b, ke, al) == ke
    ensures ke > 0 ==> Transformed(b, al)[ke] != 0
  {
    hide Pow2;
  }

  /** What coding a block leaves: with a DC difference the new value and the category of the difference, else nothing new. */
  lemma BlockLeaves(scan: Scan, p: Pred, i: nat, b: Block)
    requires ValidScan(scan) && ValidPred(p) && i < |scan.membership| && IsBlock(b)
    ensures var ci := scan.membership[i]; var tbl := scan.comps[ci].dcTbl; var dc := b[0] / Pow2(scan.al);
      BlockPred(scan, p, i, b)
      == if !scan.progressive || (scan.ss == 0 && scan.ah == 0)
         then Pred(p.last[ci := dc], p.ctx[ci := DcContext(dc - p.last[ci], scan.dcL[tbl], scan.dcU[tbl])])
         else p
  {
    hide DcContext, Pow2;
  }

  /** DC predictions after block `i`. */
  function BlockPred(scan: Scan, p: Pred, i: nat, b: Block): (r: Pred)
    requires ValidScan(scan) && ValidPred(p) && i < |scan.membership| && IsBlock(b)
    ensures ValidPred(r)
  {
    if !CodesDc(ModeOf(scan)) then p else
      var ci := scan.membership[i];
      var tbl := DcTbl(scan, i);
      var diff := DcDiff(scan, p, i, b);
      DcTransformCoef(b[0], scan.al);
      Pred(p.last[ci := DcTransform(b[0], scan.al)], p.ctx[ci := DcContext(diff, scan.dcL[tbl], scan.dcU[tbl])])
  }

  lemma DcTransformCoef(v: int, al: nat)
    requires IsCoef(v)
    ensures IsCoef(DcTransform(v, al))
    ensures DcApprox(v, al) <= v < DcApprox(v, al) + Pow2(al)
  {
    hide Pow2;
    var p := Pow2(al);
    var q := v / p;
    assert q * p <= v < q * p + p;
    assert (q + 1) * p == q * p + p;
    assert 0x8000 * p >= 0x8000;
    assert q + 1 <= -0x8000 ==> (q + 1) * p <= (-0x8000) * p;
    assert q >= 0x8000 ==> q * p >= 0x8000 * p;
  }

  // ---------------------------------------------------------------------------
  // Decoding one MCU
  // ---------------------------------------------------------------------------

  /** `*coef |= 1 << al`, on a two's-complement coefficient. */
  function OrBit(v: int, al: nat): int {
    if DcTransform(v, al) % 2 == 0 then v + Pow2(al) else v
  }

  /** The DC part of block `i`: its prediction, kept modulo 2^16, and the scaled coefficient. */
  function DecodeDcBlock(scan: Scan, q: Pred, d: Dec, i: nat, before: Block): (r: Got<(Block, Pred)>)
    requires ValidScan(scan) && ValidDecPred(q) && Ready(d) && i < |scan.membership|
    ensures r.Got? ==> Ready(r.d) && ValidDecPred(r.value.1)
  {
    var ci := scan.membership[i];
    var tbl := DcTbl(scan, i);
    match DecodeDc(d, tbl, q.ctx[ci], scan.dcL[tbl], scan.dcU[tbl])
    case Bad => Bad
    case Got((diff, ctx), d1) =>
      var last := NextLast(q.last[ci], diff);
      var block: Block := before[0 := Short(last * Pow2(scan.al))];
      Got((block, Pred(q.last[ci := last], q.ctx[ci := ctx])), d1)
  }

  function NextLast(last: nat, diff: int): (r: nat)
    requires last < 0x10000
    ensures r < 0x10000
  {
    if diff == 0 then last else (last + diff) % 0x10000
  }

  /** Decoding block `i`, in place of `before`. */
  function DecodeBlock(scan: Scan, q: Pred, d: Dec, i: nat, before: Block): (r: Got<(Block, Pred)>)
    requires ValidScan(scan) && ValidDecPred(q) && Ready(d) && i < |scan.membership|
    ensures r.Got? ==> Ready(r.d) && ValidDecPred(r.value.1)
  {
    var tbl := AcTbl(scan, i);
    match ModeOf(scan)
    case Sequential => (
      match DecodeDcBlock(scan, q, d, i, before)
      case Bad => Bad
      case Got((block, q1), d1) => WithPred(DecodeAcBand(d1, 1, 63, tbl, scan.acK[tbl], 0, block), q1))
    case DcFirst => DecodeDcBlock(scan, q, d, i, before)
    case AcFirst => WithPred(DecodeAcBand(d, scan.ss, scan.se, tbl, scan.acK[tbl], scan.al, before), q)
    case DcRefine =>
      var v := if Bit(d, FIXED_BIN) == 1 then OrBit(before[0], scan.al) else before[0];
      var block: Block := before[0 := v];
      Got((block, q), Advance(d, FIXED_BIN))
    case AcRefine =>
      WithPred(DecodeRefineBand(d, scan.ss, EndOfBlock(before, scan.se), scan.se, tbl, scan.al, before), q)
  }

  function WithPred(r: Got<seq<int>>, q: Pred): Got<(Block, Pred)>
    requires r.Got? ==> |r.value| == 64
  {
    match r
    case Bad => Bad
    case Got(z, d) => var block: Block := z; Got((block, q), d)
  }

  ghost predicate ValidDecPred(q: Pred) {
    && |q.last| == |q.ctx| == MAX_COMPS_IN_SCAN
    && forall c :: 0 <= c < MAX_COMPS_IN_SCAN ==> q.ctx[c] <= 16 && 0 <= q.last[c] < 0x10000
  }

  /** The decoder's predictions match the encoder's. */
  ghost predicate Same(p: Pred, q: Pred) {
    && ValidPred(p) && ValidDecPred(q) && q.ctx == p.ctx
    && forall c :: 0 <= c < MAX_COMPS_IN_SCAN ==> q.last[c] == p.last[c] % 0x10000
  }

  /** What earlier scans have left in a block that this scan goes on with. */
  ghost predicate Prior(scan: Scan, before: Block, b: Block)
    requires ValidScan(scan)
  {
    match ModeOf(scan)
    case Sequential => forall j :: 0 <= j < 64 ==> before[j] == 0
    case DcFirst => true
    case AcFirst => forall j :: scan.ss <= j <= scan.se ==> before[j] == 0
    case DcRefine => before[0] == DcApprox(b[0], scan.al + 1)
    case AcRefine => forall j :: scan.ss <= j <= scan.se ==> before[j] == Approx(b[j], scan.al + 1)
  }

  /** What this scan leaves in the block. */
  function Target(scan: Scan, before: Block, b: Block): Block {
    match ModeOf(scan)
    case Sequential => b
    case DcFirst => before[0 := DcApprox(b[0], scan.al)]
    case DcRefine => before[0 := DcApprox(b[0], scan.al)]
    case AcFirst => Refined(before, b, scan.ss, scan.se, scan.al)
    case AcRefine => Refined(before, b, scan.ss, scan.se, scan.al)
  }

  /** The DC difference is one the decoder accepts. */
  predicate Fits(scan: Scan, p: Pred, i: nat, b: Block)
    requires ValidScan(scan) && ValidPred(p) && i < |scan.membership|
  {
    CodesDc(ModeOf(scan)) ==> Abs(DcDiff(scan, p, i, b)) <= 0x8000
  }

  lemma ShortPeriodic(x: int, n: int)
    ensures Short(x + n * 0x10000) == Short(x)
  {
  }

  /** The decoder's prediction modulo 2^16 still gives the coefficient. */
  lemma ShortScaled(v: int, al: nat)
    requires IsCoef(v * Pow2(al))
    ensures Short((v % 0x10000) * Pow2(al)) == v * Pow2(al)
  {
    hide Pow2, Short;
    var p := Pow2(al);
    var n := v / 0x10000;
    assert v == n * 0x10000 + v % 0x10000;
    assert v * p == (v % 0x10000) * p + (n * p) * 0x10000;
    ShortPeriodic((v % 0x10000) * p, n * p);
  }

  /** Where the encoder and the decoder see the end of the block at the previous stage. */
  lemma SameEnds(b: Block, before: Block, ss: nat, se: nat, al: nat)
    requires 1 <= ss <= se <= 63 && IsBlock(b)
    requires forall j :: ss <= j <= se ==> before[j] == Approx(b[j], al + 1)
    ensures var ke := EndOfBlockAt(b, se, al);
      Ends(b, before, ss, ke, EndOfBlockAt(b, ke, al + 1), EndOfBlock(before, se), se, al)
  {
    hide Approx, Mag;
    var ke := EndOfBlockAt(b, se, al);
    var kex := EndOfBlockAt(b, ke, al + 1);
    var kd := EndOfBlock(before, se);
    forall j | 0 <= j < 64
      ensures Mag(b[j], al + 1) == Mag(b[j], al) / 2
      ensures Approx(b[j], al + 1) != 0 <==> Mag(b[j], al + 1) != 0
    {
      ApproxStep(b[j], al);
    }
    forall j: nat | ss <= j <= se ensures Past(j, kex) <==> Past(j, kd) {
      if kex >= j {
        assert before[kex] != 0;
      }
      if kd >= j {
        assert Mag(b[kd], al + 1) != 0;
      }
    }
  }

  lemma DcRefined(v: int, before: int, al: nat)
    requires before == DcApprox(v, al + 1)
    ensures DcApprox(v, al) == if DcTransform(v, al) % 2 == 1 then OrBit(before, al) else before
  {
    hide Pow2;
    var p := Pow2(al);
    assert Pow2(al + 1) == 2 * p by { Pow2Add(1, al); Pow2Table(); }
    var h := v / (2 * p);
    HalfFloor(v, p);
    assert v / p == 2 * h + v / p % 2;
    assert before == (2 * h) * p;
    assert before / p == 2 * h by { Division(before, p, 2 * h, 0); }
    assert (2 * h + 1) * p == (2 * h) * p + p;
  }

  lemma HalfFloor(v: int, p: nat)
    requires p > 0
    ensures v / (2 * p) == v / p / 2
  {
    var q := v / p;
    var r := v - q * p;
    assert q == q / 2 * 2 + q % 2;
    assert (q / 2 * 2 + q % 2) * p == q / 2 * (2 * p) + q % 2 * p;
    Division(v, 2 * p, q / 2, q % 2 * p + r);
  }

  // ---------------------------------------------------------------------------
  // The MCU round trip
  // ---------------------------------------------------------------------------

  /** What a block decodes to: the target, or an overflow when its DC difference does not fit. */
  ghost predicate BlockResult(scan: Scan, p: Pred, q: Pred, d: Dec, i: nat, before: Block, b: Block)
    requires ValidScan(scan) && Same(p, q) && Ready(d) && i < |scan.membership| && IsBlock(b)
  {
    var r := DecodeBlock(scan, q, d, i, before);
    if Fits(scan, p, i, b) then
      && Codable(d.k.bins, BlockDecisions(scan, p, i, b))
      && r.Got? && r.value.0 == Target(scan, before, b) && Same(BlockPred(scan, p, i, b), r.value.1)
      && r.d == After(d, BlockDecisions(scan, p, i, b))
    else r.Bad?
  }

  /** The decoder's prediction and coefficient for the difference that the encoder saw. */
  lemma DcStored(v: int, last: int, al: nat)
    requires IsCoef(v) && IsCoef(last) && al <= 15
    ensures NextLast(last % 0x10000, DcTransform(v, al) - last) == DcTransform(v, al) % 0x10000
    ensures Short(DcTransform(v, al) % 0x10000 * Pow2(al)) == DcApprox(v, al)
  {
    hide Pow2, Short;
    DcApproxCoef(v, al);
    ShortScaled(DcTransform(v, al), al);
  }

  lemma DcBlockDecoded(scan: Scan, p: Pred, q: Pred, d: Dec, i: nat, before: Block, b: Block, rest: seq<Decision>)
      returns (d1: Dec, q1: Pred)
    requires ValidScan(scan) && Same(p, q) && Ready(d) && i < |scan.membership| && IsBlock(b)
    requires CodesDc(ModeOf(scan))
    requires Follows(d, DcDecisions(DcTbl(scan, i), p.ctx[scan.membership[i]], DcDiff(scan, p, i, b)) + rest)
    ensures var dc := DcDecisions(DcTbl(scan, i), p.ctx[scan.membership[i]], DcDiff(scan, p, i, b));
      Codable(d.k.bins, dc) && d1 == After(d, dc) && Follows(d1, rest)
    ensures Fits(scan, p, i, b) ==>
      && Same(BlockPred(scan, p, i, b), q1)
      && DecodeDcBlock(scan, q, d, i, before) == Got((before[0 := DcApprox(b[0], scan.al)], q1), d1)
    ensures !Fits(scan, p, i, b) ==> DecodeDcBlock(scan, q, d, i, before).Bad?
  {
    hide Follows, After, DcDecisions, DecodeDc, DcContext, DcTransform, DcApprox, Pow2, Short, NextLast;
    var ci := scan.membership[i];
    var tbl := DcTbl(scan, i);
    var diff := DcDiff(scan, p, i, b);
    var dc := DcDecisions(tbl, p.ctx[ci], diff);
    FollowSplit(d, dc, rest);
    DcDecoded(d, tbl, p.ctx[ci], scan.dcL[tbl], scan.dcU[tbl], diff, rest);
    d1 := After(d, dc);
    DcStored(b[0], p.last[ci], scan.al);
    q1 := Pred(q.last[ci := DcTransform(b[0], scan.al) % 0x10000],
               q.ctx[ci := DcContext(diff, scan.dcL[tbl], scan.dcU[tbl])]);
  }

  lemma FloorCoef(v: int, p: int, r: int)
    requires IsCoef(v) && p > 0 && r * p == 0x8000
    ensures IsCoef(v / p * p)
  {
    var q := v / p;
    assert (q + 1) * p == q * p + p && (0 - r) * p == -0x8000;
    assert q + 1 <= 0 - r ==> (q + 1) * p <= (0 - r) * p;
    assert q * p <= v;
  }

  lemma DcApproxCoef(v: int, al: nat)
    requires IsCoef(v)
    ensures al <= 15 ==> IsCoef(DcApprox(v, al))
  {
    hide Pow2;
    if al <= 15 {
      Pow2Add(15 - al, al);
      assert Pow2(15) == 0x8000 by { Pow2Table(); }
      FloorCoef(v, Pow2(al), Pow2(15 - al));
      DcTransformCoef(v, al);
    }
  }

  /** Every mode, every block: decoding gives the target exactly if the DC difference fits. */
  lemma BlockDecoded(scan: Scan, p: Pred, q: Pred, d: Dec, i: nat, before: Block, b: Block, rest: seq<Decision>)
    requires ValidScan(scan) && Same(p, q) && Ready(d) && i < |scan.membership| && IsBlock(b)
    requires Prior(scan, before, b)
    requires Follows(d, BlockDecisions(scan, p, i, b) + rest)
    ensures BlockResult(scan, p, q, d, i, before, b)
  {
    hide Follows, After, DcDecisions, DecodeDc, DcContext, AcBand, DecodeAcBand, RefineBand, DecodeRefineBand;
    match ModeOf(scan)
    case Sequential => SequentialDecoded(scan, p, q, d, i, before, b, rest);
    case DcFirst =>
      DcFirstDecoded(scan, p, q, d, i, before, b, rest);
    case AcFirst =>
      AcFirstDecoded(scan, p, q, d, i, before, b, rest);
    case DcRefine =>
      hide Pow2, Bit, Advance;
      var x := Decision(FIXED_BIN, DcTransform(b[0], scan.al) % 2);
      assert [x] == [x] + [];
      FollowHead(d, x, [], rest);
      DcRefined(b[0], before[0], scan.al);
    case AcRefine =>
      AcRefineDecoded(scan, p, q, d, i, before, b, rest);
  }

  lemma SequentialDecoded(scan: Scan, p: Pred, q: Pred, d: Dec, i: nat, before: Block, b: Block, rest: seq<Decision>)
    requires ValidScan(scan) && Same(p, q) && Ready(d) && i < |scan.membership| && IsBlock(b)
    requires Prior(scan, before, b) && ModeOf(scan) == Sequential
    requires Follows(d, BlockDecisions(scan, p, i, b) + rest)
    ensures BlockResult(scan, p, q, d, i, before, b)
  {
    hide Follows, After, DcDecisions, DecodeDcBlock, BlockPred, AcBand, DecodeAcBand, Short;
    var tbl := AcTbl(scan, i);
    var kx := scan.acK[tbl];
    var dc := DcDecisions(DcTbl(scan, i), p.ctx[scan.membership[i]], DcDiff(scan, p, i, b));
    var ac := AcBand(b, 1, EndOfBlock(b, 63), 63, tbl, kx);
    assert Pow2(0) == 1;
    assert dc + ac + rest == dc + (ac + rest);
    var d1, q1 := DcBlockDecoded(scan, p, q, d, i, before, b, ac + rest);
    var block: Block := before[0 := DcApprox(b[0], scan.al)];
    AcBandDecoded(d1, b, 1, EndOfBlock(b, 63), 63, tbl, kx, 0, block, rest);
    assert Filled(block, b, 1, 63, 0) == b by {
      forall j | 0 <= j < 64 ensures Filled(block, b, 1, 63, 0)[j] == b[j] {
        assert IsCoef(b[j]);
      }
    }
    AfterConcat(d, dc, ac);
  }

  lemma DcFirstDecoded(scan: Scan, p: Pred, q: Pred, d: Dec, i: nat, before: Block, b: Block, rest: seq<Decision>)
    requires ValidScan(scan) && Same(p, q) && Ready(d) && i < |scan.membership| && IsBlock(b)
    requires ModeOf(scan) == DcFirst
    requires Follows(d, BlockDecisions(scan, p, i, b) + rest)
    ensures BlockResult(scan, p, q, d, i, before, b)
  {
    hide Follows, After, DcDecisions, DecodeDcBlock, BlockPred, Short, Pow2;
    var d1, q1 := DcBlockDecoded(scan, p, q, d, i, before, b, rest);
  }

  lemma AcFirstDecoded(scan: Scan, p: Pred, q: Pred, d: Dec, i: nat, before: Block, b: Block, rest: seq<Decision>)
    requires ValidScan(scan) && Same(p, q) && Ready(d) && i < |scan.membership| && IsBlock(b)
    requires Prior(scan, before, b) && ModeOf(scan) == AcFirst
    requires Follows(d, BlockDecisions(scan, p, i, b) + rest)
    ensures BlockResult(scan, p, q, d, i, before, b)
  {
    hide Follows, After, AcBand, DecodeAcBand, Short, Pow2, Mag;
    var tbl := AcTbl(scan, i);
    var kx := scan.acK[tbl];
    var z := Transformed(b, scan.al);
    var ke := EndOfBlockAt(b, scan.se, scan.al);
    forall j | 0 <= j < 64
      ensures Abs(z[j]) <= 0x8000
      ensures Short(z[j] * Pow2(scan.al)) == Approx(b[j], scan.al)
      ensures z[j] == 0 ==> Approx(b[j], scan.al) == 0
    {
      MagBound(b[j], scan.al);
      ApproxScaled(b[j], scan.al);
      ApproxStep(b[j], scan.al);
      assert IsCoef(Approx(b[j], scan.al));
    }
    AcBandDecoded(d, z, scan.ss, ke, scan.se, tbl, kx, scan.al, before, rest);
    assert Filled(before, z, scan.ss, scan.se, scan.al) == Refined(before, b, scan.ss, scan.se, scan.al);
  }

  lemma MagBound(v: int, al: nat)
    requires IsCoef(v)
    ensures Mag(v, al) <= 0x8000
  {
    hide Pow2;
    var p := Pow2(al);
    var q := Mag(v, al);
    assert q * p <= Abs(v);
    MulMono(1, p, q);
  }

  lemma AcRefineDecoded(scan: Scan, p: Pred, q: Pred, d: Dec, i: nat, before: Block, b: Block, rest: seq<Decision>)
    requires ValidScan(scan) && Same(p, q) && Ready(d) && i < |scan.membership| && IsBlock(b)
    requires Prior(scan, before, b) && ModeOf(scan) == AcRefine
    requires Follows(d, BlockDecisions(scan, p, i, b) + rest)
    ensures BlockResult(scan, p, q, d, i, before, b)
  {
    hide Follows, After, RefineBand, DecodeRefineBand, Pow2, Mag, Approx;
    var tbl := AcTbl(scan, i);
    var ke := EndOfBlockAt(b, scan.se, scan.al);
    SameEnds(b, before, scan.ss, scan.se, scan.al);
    RefineBandDecoded(d, b, scan.ss, ke, EndOfBlockAt(b, ke, scan.ah), EndOfBlock(before, scan.se), scan.se, tbl,
                      scan.al, before, rest);
  }

  /** The decisions for the blocks of an MCU from block `i` on. */
  function McuDecisions(scan: Scan, p: Pred, mcu: seq<Block>, i: nat): seq<Decision>
    requires ValidScan(scan) && ValidPred(p) && ValidMcu(scan, mcu) && i <= |mcu|
    decreases |mcu| - i
  {
    if i == |mcu| then [] else
      BlockDecisions(scan, p, i, mcu[i]) + McuDecisions(scan, BlockPred(scan, p, i, mcu[i]), mcu, i + 1)
  }

  ghost predicate ValidMcu(scan: Scan, mcu: seq<Block>) {
    |mcu| == |scan.membership| && forall i :: 0 <= i < |mcu| ==> IsBlock(mcu[i])
  }

  function McuPred(scan: Scan, p: Pred, mcu: seq<Block>, i: nat): (r: Pred)
    requires ValidScan(scan) && ValidPred(p) && ValidMcu(scan, mcu) && i <= |mcu|
    ensures ValidPred(r)
    decreases |mcu| - i
  {
    if i == |mcu| then p else McuPred(scan, BlockPred(scan, p, i, mcu[i]), mcu, i + 1)
  }

  /** The predictions when block `i` is coded. */
  function PredBefore(scan: Scan, p: Pred, mcu: seq<Block>, i: nat): (r: Pred)
    requires ValidScan(scan) && ValidPred(p) && ValidMcu(scan, mcu) && i <= |mcu|
    ensures ValidPred(r)
  {
    if i == 0 then p else BlockPred(scan, PredBefore(scan, p, mcu, i - 1), i - 1, mcu[i - 1])
  }

  /** An MCU is its blocks in order, each with these predictions. */
  lemma {:induction false} McuCut(scan: Scan, p: Pred, mcu: seq<Block>, i: nat) returns (head: seq<Decision>)
    requires ValidScan(scan) && ValidPred(p) && ValidMcu(scan, mcu) && i <= |mcu|
    ensures McuDecisions(scan, p, mcu, 0) == head + McuDecisions(scan, PredBefore(scan, p, mcu, i), mcu, i)
    ensures McuPred(scan, p, mcu, 0) == McuPred(scan, PredBefore(scan, p, mcu, i), mcu, i)
  {
    hide BlockDecisions, BlockPred;
    if i == 0 {
      head := [];
      assert [] + McuDecisions(scan, p, mcu, 0) == McuDecisions(scan, p, mcu, 0);
    } else {
      var q := PredBefore(scan, p, mcu, i - 1);
      var now, rest := BlockDecisions(scan, q, i - 1, mcu[i - 1]), McuDecisions(scan, BlockPred(scan, q, i - 1, mcu[i - 1]), mcu, i);
      head := McuCut(scan, p, mcu, i - 1);
      assert head + (now + rest) == (head + now) + rest;
      head := head + now;
    }
  }

  /** The last block before block `i` of the MCU that belongs to component `c`. */
  ghost predicate LastOf(scan: Scan, c: nat, j: nat, i: nat) {
    j < i <= |scan.membership| && scan.membership[j] == c && forall l :: j < l < i ==> scan.membership[l] != c
  }

  /**
   * DC values are predicted from the block of the same component that was coded last: the last one in this MCU, or the
   * one that the MCU before left.
   */
  lemma {:induction false} Predicted(scan: Scan, p: Pred, mcu: seq<Block>, i: nat, c: nat)
    requires ValidScan(scan) && ValidPred(p) && ValidMcu(scan, mcu) && i <= |mcu| && c < MAX_COMPS_IN_SCAN
    requires !scan.progressive || (scan.ss == 0 && scan.ah == 0)
    ensures forall j: nat :: LastOf(scan, c, j, i) ==> PredBefore(scan, p, mcu, i).last[c] == mcu[j][0] / Pow2(scan.al)
    ensures (forall l :: 0 <= l < i ==> scan.membership[l] != c) ==> PredBefore(scan, p, mcu, i).last[c] == p.last[c]
  {
    hide Pow2, DcContext;
    if i > 0 {
      Predicted(scan, p, mcu, i - 1, c);
      forall j: nat | LastOf(scan, c, j, i) ensures PredBefore(scan, p, mcu, i).last[c] == mcu[j][0] / Pow2(scan.al) {
        assert j < i - 1 ==> LastOf(scan, c, j, i - 1);
      }
    }
  }

  /** Every DC difference of the MCU is one the decoder accepts. */
  predicate McuFits(scan: Scan, p: Pred, mcu: seq<Block>, i: nat)
    requires ValidScan(scan) && ValidPred(p) && ValidMcu(scan, mcu) && i <= |mcu|
    decreases |mcu| - i
  {
    i == |mcu| || (Fits(scan, p, i, mcu[i]) && McuFits(scan, BlockPred(scan, p, i, mcu[i]), mcu, i + 1))
  }

  /** Decoding an MCU from block `i` on, in place of `before`. */
  function DecodeMcu(scan: Scan, q: Pred, d: Dec, before: seq<Block>, i: nat): (r: Got<(seq<Block>, Pred)>)
    requires ValidScan(scan) && ValidDecPred(q) && Ready(d) && |before| == |scan.membership| && i <= |before|
    ensures r.Got? ==> Ready(r.d) && ValidDecPred(r.value.1) && |r.value.0| == |before|
    decreases |before| - i
  {
    if i == |before| then Got((before, q), d) else
      match DecodeBlock(scan, q, d, i, before[i])
      case Bad => Bad
      case Got((b, q1), d1) => DecodeMcu(scan, q1, d1, before[i := b], i + 1)
  }

  function Targets(scan: Scan, before: seq<Block>, mcu: seq<Block>, i: nat): (r: seq<Block>)
    requires |before| == |mcu|
    ensures |r| == |mcu|
  {
    seq(|mcu|, j requires 0 <= j < |mcu| => if j < i then before[j] else Target(scan, before[j], mcu[j]))
  }

  /** An MCU decodes to its targets if and only if all its DC differences fit. */
  lemma {:induction false} McuDecoded(scan: Scan, p: Pred, q: Pred, d: Dec, before: seq<Block>, mcu: seq<Block>, i: nat,
                                      rest: seq<Decision>)
    requires ValidScan(scan) && Same(p, q) && Ready(d) && ValidMcu(scan, mcu) && |before| == |mcu| && i <= |mcu|
    requires forall j :: i <= j < |mcu| ==> Prior(scan, before[j], mcu[j])
    requires Follows(d, McuDecisions(scan, p, mcu, i) + rest)
    ensures var r := DecodeMcu(scan, q, d, before, i);
      if McuFits(scan, p, mcu, i) then
        && Codable(d.k.bins, McuDecisions(scan, p, mcu, i))
        && r.Got? && r.value.0 == Targets(scan, before, mcu, i) && Same(McuPred(scan, p, mcu, i), r.value.1)
        && r.d == After(d, McuDecisions(scan, p, mcu, i))
      else r.Bad?
    decreases |mcu| - i
  {
    hide Follows, BlockDecisions, DecodeBlock, BlockPred, Target, Prior;
    var ds := McuDecisions(scan, p, mcu, i);
    FollowSplit(d, ds, rest);
    if i == |mcu| {
      assert Targets(scan, before, mcu, i) == before;
    } else {
      var b := mcu[i];
      var now := BlockDecisions(scan, p, i, b);
      var p1 := BlockPred(scan, p, i, b);
      var more := McuDecisions(scan, p1, mcu, i + 1);
      assert now + more + rest == now + (more + rest);
      BlockDecoded(scan, p, q, d, i, before[i], b, more + rest);
      if Fits(scan, p, i, b) {
        var r := DecodeBlock(scan, q, d, i, before[i]);
        FollowSplit(d, now, more + rest);
        FollowSplit(r.d, more, rest);
        AfterConcat(d, now, more);
        var before1 := before[i := r.value.0];
        McuDecoded(scan, p1, r.value.1, r.d, before1, mcu, i + 1, rest);
        assert Targets(scan, before, mcu, i) == Targets(scan, before1, mcu, i + 1);
      }
    }
  }
}
