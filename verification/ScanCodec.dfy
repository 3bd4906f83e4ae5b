/** Whole scans with restart intervals: the bytes sent, and the round trip through the decoder. */
module ScanCodec {
  import opened Coefficients
  import opened Arith
  import opened Bytes
  import opened QmInterval
  import opened QmTermination
  import opened ArithDecoder
  import opened QmRoundTrip
  import opened DctDecisions
  import opened DctBands
  import opened DctRefine
  import opened ScanModel

  // ---------------------------------------------------------------------------
  // Which statistics bins a block can touch
  // ---------------------------------------------------------------------------

  /** Decisions in the bins lo..hi - 1 or in the fixed bin. */
  ghost predicate Within(ds: seq<Decision>, lo: nat, hi: nat) {
    forall i :: 0 <= i < |ds| ==> (lo <= ds[i].bin < hi || ds[i].bin == FIXED_BIN) && ds[i].val <= 1
  }

  lemma {:induction false} OnesWithin(n: nat, st: nat)
    ensures Within(Ones(n, st), st, st + n)
  {
    if n > 0 {
      OnesWithin(n - 1, st + 1);
    }
  }

  lemma {:induction false} LowBitsWithin(n: nat, st: nat, u: nat)
    ensures Within(LowBits(n, st, u), st, st + 1)
  {
    hide BitAt;
    if n > 0 {
      LowBitsWithin(n - 1, st, u);
      BitAtBit(u, n - 1);
    }
  }

  lemma BitAtBit(u: nat, i: nat)
    ensures BitAt(u, i) <= 1
  {
  }

  lemma CategoryWithin(n: nat, st: nat, bits: nat, u: nat)
    ensures Within(Category(n, st, bits, u), st, st + n + (if bits == 0 then 1 else 15))
  {
    OnesWithin(n, st);
    LowBitsWithin(bits, st + n + 14, u);
  }

  /** DC coding of a 17-bit difference stays below index 50 of its table. */
  lemma DcWithin(tbl: nat, ctx: nat, v: int)
    requires tbl < NUM_ARITH_TBLS && ctx <= 16 && Abs(v) <= 0x10000
    ensures Within(DcDecisions(tbl, ctx, v), DcBin(tbl, 0), DcBin(tbl, 0) + 50)
  {
    hide Category, Log2, Pow2;
    if v != 0 {
      var u := Abs(v) - 1;
      var st := DcBin(tbl, ctx) + 2 + Sign(v);
      if u == 0 {
        CategoryWithin(0, st, 0, 0);
      } else {
        assert Pow2(15) == 0x8000 by { Pow2Table(); }
        Log2Small(u, 15);
        CategoryWithin(Log2(u), DcBin(tbl, 20), Log2(u), u);
      }
    }
  }

  /** AC magnitudes of 16-bit coefficients stay below index 245 of their table. */
  lemma AcCoefWithin(tbl: nat, k: nat, kx: nat, v: int)
    requires tbl < NUM_ARITH_TBLS && 1 <= k <= 63 && 0 < Abs(v) <= 0x8000
    ensures Within(AcCoef(tbl, k, kx, v), AcBin(tbl, 0), AcBin(tbl, 0) + 245)
  {
    hide Category, Log2;
    var u := Abs(v) - 1;
    var st := AcEob(tbl, k) + 2;
    if u <= 1 {
      CategoryWithin(0, st, 0, u);
    } else {
      assert Pow2(14) == 0x4000 && Pow2(0) == 1 by { Pow2Table(); }
      Log2Small(u, 14);
      Log2Small(u, 0);
      CategoryWithin(Log2(u) - 1, AcX2(tbl, k, kx), Log2(u), u);
    }
  }

  lemma {:induction false} AcBandWithin(z: seq<int>, k: nat, ke: nat, se: nat, tbl: nat, kx: nat)
    requires Band(z, ke, se) && 1 <= k && tbl < NUM_ARITH_TBLS
    ensures Within(AcBand(z, k, ke, se, tbl, kx), AcBin(tbl, 0), AcBin(tbl, 0) + 245)
    ensures k <= ke ==> Within(AcRun(z, k, ke, se, tbl, kx), AcBin(tbl, 0), AcBin(tbl, 0) + 245)
    decreases 64 - k
  {
    hide AcCoef;
    if k <= ke {
      AcBandWithin(z, k + 1, ke, se, tbl, kx);
      if z[k] != 0 {
        AcCoefWithin(tbl, k, kx, z[k]);
      }
    }
  }

  lemma {:induction false} RefineBandWithin(b: seq<int>, k: nat, ke: nat, kex: nat, se: nat, tbl: nat, al: nat)
    requires tbl < NUM_ARITH_TBLS && 1 <= k && ke <= se <= 63 && |b| == 64 && (ke > 0 ==> Mag(b[ke], al) != 0)
    ensures Within(RefineBand(b, k, ke, kex, se, tbl, al), AcBin(tbl, 0), AcBin(tbl, 0) + 189)
    ensures k <= ke ==> Within(RefineRun(b, k, ke, kex, se, tbl, al), AcBin(tbl, 0), AcBin(tbl, 0) + 189)
    decreases 64 - k
  {
    hide Mag;
    if k <= ke {
      RefineBandWithin(b, k + 1, ke, kex, se, tbl, al);
    }
  }

  /** Does the scan code DC differences, AC coefficients? */
  predicate HasDc(scan: Scan) {
    !scan.progressive || (scan.ss == 0 && scan.ah == 0)
  }

  predicate HasAc(scan: Scan) {
    !scan.progressive || scan.ss > 0
  }

  /** The bins of one block: 50 DC bins and 245 AC bins of its tables, where it codes such coefficients, and the fixed bin. */
  ghost predicate BlockBin(scan: Scan, i: nat, bin: nat)
    requires ValidScan(scan) && i < |scan.membership|
  {
    || (HasDc(scan) && 64 * DcTbl(scan, i) <= bin < 64 * DcTbl(scan, i) + 50)
    || (HasAc(scan) && 1024 + 256 * AcTbl(scan, i) <= bin < 1024 + 256 * AcTbl(scan, i) + 245)
    || bin == FIXED_BIN
  }

  lemma BlockWithin(scan: Scan, p: Pred, i: nat, b: Block)
    requires ValidScan(scan) && ValidPred(p) && i < |scan.membership| && IsBlock(b)
    ensures forall j :: 0 <= j < |BlockDecisions(scan, p, i, b)| ==>
      var x := BlockDecisions(scan, p, i, b)[j];
      x.val <= 1 && BlockBin(scan, i, x.bin)
  {
    hide DcDecisions, AcBand, RefineBand, PointTransform, Mag;
    var tbl := AcTbl(scan, i);
    var kx := scan.acK[tbl];
    match ModeOf(scan)
    case Sequential =>
      DcTransformCoef(b[0], scan.al);
      DcWithin(DcTbl(scan, i), p.ctx[scan.membership[i]], DcDiff(scan, p, i, b));
      forall j | 0 <= j < 64 ensures Abs(b[j]) <= 0x8000 {
        assert IsCoef(b[j]);
      }
      AcBandWithin(b, 1, EndOfBlock(b, 63), 63, tbl, kx);
    case DcFirst =>
      DcTransformCoef(b[0], scan.al);
      DcWithin(DcTbl(scan, i), p.ctx[scan.membership[i]], DcDiff(scan, p, i, b));
    case AcFirst =>
      TransformedBand(b, scan.se, scan.al);
      AcBandWithin(Transformed(b, scan.al), scan.ss, EndOfBlockAt(b, scan.se, scan.al), scan.se, tbl, kx);
    case DcRefine =>
    case AcRefine =>
      var ke := EndOfBlockAt(b, scan.se, scan.al);
      RefineBandWithin(b, scan.ss, ke, EndOfBlockAt(b, ke, scan.ah), scan.se, tbl, scan.al);
  }

  lemma TransformedBand(b: Block, se: nat, al: nat)
    requires IsBlock(b) && se <= 63
    ensures Band(Transformed(b, al), EndOfBlockAt(b, se, al), se)
  {
    hide Mag;
    forall j | 0 <= j < 64
      ensures Abs(Transformed(b, al)[j]) <= 0x8000
      ensures Transformed(b, al)[j] == 0 <==> Mag(b[j], al) == 0
    {
      MagBound(b[j], al);
    }
  }

  lemma {:induction false} McuCodable(scan: Scan, p: Pred, mcu: seq<Block>, i: nat, bins: seq<Byte>)
    requires ValidScan(scan) && ValidPred(p) && ValidMcu(scan, mcu) && i <= |mcu| && |bins| == STAT_BINS
    ensures Codable(bins, McuDecisions(scan, p, mcu, i))
    decreases |mcu| - i
  {
    hide BlockDecisions, BlockPred;
    if i < |mcu| {
      BlockWithin(scan, p, i, mcu[i]);
      assert forall bin: nat :: BlockBin(scan, i, bin) ==> bin < STAT_BINS;
      McuCodable(scan, BlockPred(scan, p, i, mcu[i]), mcu, i + 1, bins);
    }
  }

  // ---------------------------------------------------------------------------
  // Encoding a scan
  // ---------------------------------------------------------------------------

  /** Does the scan reset and use DC (AC) statistics? The conditions of `start_pass` and `emit_restart`. */
  predicate UsesDc(scan: Scan) {
    !scan.progressive || (scan.ss == 0 && scan.ah == 0)
  }

  predicate UsesAc(scan: Scan) {
    !scan.progressive || scan.se != 0
  }

  /** `memset` of `n` statistics bytes. */
  function Zeroed(bins: seq<Byte>, lo: nat, n: nat): (r: seq<Byte>)
    ensures |r| == |bins|
    ensures ValidBins(bins) ==> ValidBins(r)
  {
    seq(|bins|, i requires 0 <= i < |bins| => if lo <= i < lo + n then 0 else bins[i])
  }

  /** Re-initialization of the statistics areas of component `ci`. */
  function ResetComponent(scan: Scan, bins: seq<Byte>, ci: nat): (r: seq<Byte>)
    requires ValidScan(scan) && ci < |scan.comps|
    ensures |r| == |bins|
    ensures ValidBins(bins) ==> ValidBins(r)
  {
    var c := scan.comps[ci];
    var b := if UsesDc(scan) then Zeroed(bins, DcBin(c.dcTbl, 0), DC_STAT_BINS) else bins;
    if UsesAc(scan) then Zeroed(b, AcBin(c.acTbl, 0), AC_STAT_BINS) else b
  }

  /** Re-initialization of the statistics areas of the components from `ci` on. */
  function ResetBins(scan: Scan, bins: seq<Byte>, ci: nat): (r: seq<Byte>)
    requires ValidScan(scan) && ci <= |scan.comps|
    ensures |r| == |bins|
    ensures ValidBins(bins) ==> ValidBins(r)
    decreases |scan.comps| - ci
  {
    if ci == |scan.comps| then bins else ResetBins(scan, ResetComponent(scan, bins, ci), ci + 1)
  }

  /** Re-initialization of the DC predictions of the components in the scan. */
  function ResetPred(scan: Scan, p: Pred): (r: Pred)
    requires ValidScan(scan) && |p.last| == |p.ctx| == MAX_COMPS_IN_SCAN
    ensures |r.last| == |r.ctx| == MAX_COMPS_IN_SCAN
    ensures ValidPred(p) ==> ValidPred(r)
    ensures ValidDecPred(p) ==> ValidDecPred(r)
  {
    if UsesDc(scan) then
      Pred(seq(MAX_COMPS_IN_SCAN, c requires 0 <= c < MAX_COMPS_IN_SCAN => if c < |scan.comps| then 0 else p.last[c]),
           seq(MAX_COMPS_IN_SCAN, c requires 0 <= c < MAX_COMPS_IN_SCAN => if c < |scan.comps| then 0 else p.ctx[c]))
    else p
  }

  /** The encoder within a pass: the open coding segment, predictions and restart counters. */
  datatype Pass = Pass(bins0: seq<Byte>, log: seq<Decision>, pred: Pred, toGo: nat, num: nat)

  ghost predicate ValidPass(scan: Scan, g: Pass) {
    && ValidScan(scan) && |g.bins0| == STAT_BINS && ValidBins(g.bins0) && Valid(Start(g.bins0))
    && Codable(g.bins0, g.log) && ValidPred(g.pred) && g.num < 8
  }

  /** The statistics bins at the end of the segment so far. */
  function CurrentBins(scan: Scan, g: Pass): (r: seq<Byte>)
    requires ValidPass(scan, g)
    ensures |r| == STAT_BINS && ValidBins(r)
  {
    Run(Start(g.bins0), g.log).bins
  }

  /** `start_pass`, over statistics bytes `bins`. */
  function StartPass(scan: Scan, bins: seq<Byte>, p: Pred): (g: Pass)
    requires ValidScan(scan) && |bins| == STAT_BINS && ValidBins(bins) && ValidPred(p)
    ensures ValidPass(scan, g)
  {
    StartValid(ResetBins(scan, bins, 0));
    Pass(ResetBins(scan, bins, 0), [], ResetPred(scan, p), scan.restartInterval, 0)
  }

  /** A restart marker is due before the next MCU. */
  predicate RestartDue(scan: Scan, toGo: nat) {
    scan.restartInterval > 0 && toGo == 0
  }

  /** After `emit_restart`. */
  function Restarted(scan: Scan, g: Pass): (r: Pass)
    requires ValidPass(scan, g)
    ensures ValidPass(scan, r)
  {
    StartValid(ResetBins(scan, CurrentBins(scan, g), 0));
    Pass(ResetBins(scan, CurrentBins(scan, g), 0), [], ResetPred(scan, g.pred), scan.restartInterval, (g.num + 1) % 8)
  }

  // ---------------------------------------------------------------------------
  // What a segment starts from
  // ---------------------------------------------------------------------------

  /** Is the bin in the DC area of a component, if the scan codes DC differences, or in the AC area, if it codes AC coefficients? */
  ghost predicate Cleared(scan: Scan, bin: nat) {
    exists c :: 0 <= c < |scan.comps| && ClearedFor(scan, scan.comps[c], bin)
  }

  predicate ClearedFor(scan: Scan, c: Component, bin: nat) {
    || ((!scan.progressive || (scan.ss == 0 && scan.ah == 0)) && 64 * c.dcTbl <= bin < 64 * c.dcTbl + 64)
    || ((!scan.progressive || scan.ss > 0) && 1024 + 256 * c.acTbl <= bin < 1024 + 256 * c.acTbl + 256)
  }

  lemma {:induction false} ResetFrom(scan: Scan, bins: seq<Byte>, ci: nat, bin: nat)
    requires ValidScan(scan) && ci <= |scan.comps| && bin < |bins|
    ensures ResetBins(scan, bins, ci)[bin]
         == if exists c :: ci <= c < |scan.comps| && ClearedFor(scan, scan.comps[c], bin) then 0 else bins[bin]
    decreases |scan.comps| - ci
  {
    hide ClearedFor, ResetComponent;
    if ci < |scan.comps| {
      ComponentReset(scan, bins, ci, bin);
      ResetFrom(scan, ResetComponent(scan, bins, ci), ci + 1, bin);
    }
  }

  lemma ComponentReset(scan: Scan, bins: seq<Byte>, ci: nat, bin: nat)
    requires ValidScan(scan) && ci < |scan.comps| && bin < |bins|
    ensures ResetComponent(scan, bins, ci)[bin] == if ClearedFor(scan, scan.comps[ci], bin) then 0 else bins[bin]
  {
  }

  /** Exactly these bins become 0. */
  lemma ResetExact(scan: Scan, bins: seq<Byte>)
    requires ValidScan(scan)
    ensures forall bin :: 0 <= bin < |bins| ==> ResetBins(scan, bins, 0)[bin] == if Cleared(scan, bin) then 0 else bins[bin]
  {
    forall bin | 0 <= bin < |bins| ensures ResetBins(scan, bins, 0)[bin] == if Cleared(scan, bin) then 0 else bins[bin] {
      ResetFrom(scan, bins, 0, bin);
    }
  }

  /**
   * A segment that starts in `g` from statistics `bins` and predictions `p`: every MCU finds 0 in all its bins but the
   * fixed one; if DC differences are coded, the predictions and contexts of the scan's components are 0; and nothing
   * else has changed.
   */
  ghost predicate Fresh(scan: Scan, g: Pass, bins: seq<Byte>, p: Pred)
    requires ValidPass(scan, g) && |bins| == STAT_BINS && ValidPred(p)
  {
    && g.log == []
    && (forall q, mcu | ValidPred(q) && ValidMcu(scan, mcu) :: FindsZero(g.bins0, McuDecisions(scan, q, mcu, 0)))
    && (forall c :: 0 <= c < MAX_COMPS_IN_SCAN ==>
          if c < |scan.comps| && (!scan.progressive || (scan.ss == 0 && scan.ah == 0))
          then g.pred.last[c] == g.pred.ctx[c] == 0
          else g.pred.last[c] == p.last[c] && g.pred.ctx[c] == p.ctx[c])
    && (forall bin :: 0 <= bin < STAT_BINS && !Cleared(scan, bin) ==> g.bins0[bin] == bins[bin])
  }

  ghost predicate FindsZero(bins: seq<Byte>, ds: seq<Decision>) {
    forall j :: 0 <= j < |ds| ==> ds[j].bin < |bins| && (ds[j].bin != 5120 ==> bins[ds[j].bin] == 0)
  }

  lemma BlockCleared(scan: Scan, i: nat, bin: nat)
    requires ValidScan(scan) && i < |scan.membership| && BlockBin(scan, i, bin) && bin != 5120
    ensures Cleared(scan, bin)
  {
    assert ClearedFor(scan, scan.comps[scan.membership[i]], bin);
  }

  lemma {:induction false} McuFindsZero(scan: Scan, bins: seq<Byte>, q: Pred, mcu: seq<Block>, i: nat)
    requires ValidScan(scan) && |bins| == STAT_BINS && ValidPred(q) && ValidMcu(scan, mcu) && i <= |mcu|
    ensures FindsZero(ResetBins(scan, bins, 0), McuDecisions(scan, q, mcu, i))
    decreases |mcu| - i
  {
    hide BlockDecisions, BlockPred, ResetBins;
    ResetExact(scan, bins);
    if i < |mcu| {
      McuFindsZero(scan, bins, BlockPred(scan, q, i, mcu[i]), mcu, i + 1);
      BlockWithin(scan, q, i, mcu[i]);
      forall x: Decision | BlockBin(scan, i, x.bin)
        ensures x.bin < STAT_BINS && (x.bin != 5120 ==> ResetBins(scan, bins, 0)[x.bin] == 0)
      {
        if x.bin != 5120 {
          BlockCleared(scan, i, x.bin);
        }
      }
    }
  }

  lemma SegmentFresh(scan: Scan, g: Pass, bins: seq<Byte>, p: Pred)
    requires ValidPass(scan, g) && |bins| == STAT_BINS && ValidPred(p) && g.log == []
    requires g.bins0 == ResetBins(scan, bins, 0) && g.pred == ResetPred(scan, p)
    ensures Fresh(scan, g, bins, p)
  {
    hide McuDecisions, FindsZero, ResetBins;
    forall q, mcu | ValidPred(q) && ValidMcu(scan, mcu) ensures FindsZero(g.bins0, McuDecisions(scan, q, mcu, 0)) {
      McuFindsZero(scan, bins, q, mcu, 0);
    }
    ResetExact(scan, bins);
  }

  /** Every pass, and every segment behind a restart marker, starts fresh. */
  lemma StartsFresh(scan: Scan, bins: seq<Byte>, p: Pred)
    requires ValidScan(scan) && |bins| == STAT_BINS && ValidBins(bins) && ValidPred(p)
    ensures Fresh(scan, StartPass(scan, bins, p), bins, p)
  {
    hide Fresh, ResetBins, ResetPred;
    SegmentFresh(scan, StartPass(scan, bins, p), bins, p);
  }

  lemma RestartsFresh(scan: Scan, g: Pass)
    requires ValidPass(scan, g)
    ensures Fresh(scan, Restarted(scan, g), CurrentBins(scan, g), g.pred)
  {
    hide Fresh, ResetBins, ResetPred, Run;
    SegmentFresh(scan, Restarted(scan, g), CurrentBins(scan, g), g.pred);
  }

  /** After coding an MCU. */
  function Coded(scan: Scan, g: Pass, mcu: seq<Block>): (r: Pass)
    requires ValidPass(scan, g) && ValidMcu(scan, mcu) && !RestartDue(scan, g.toGo)
    ensures ValidPass(scan, r)
  {
    McuCodable(scan, g.pred, mcu, 0, g.bins0);
    var ds := McuDecisions(scan, g.pred, mcu, 0);
    RunConcat(Start(g.bins0), g.log, ds);
    g.(log := g.log + ds, pred := McuPred(scan, g.pred, mcu, 0),
       toGo := if scan.restartInterval > 0 then g.toGo - 1 else g.toGo)
  }

  /** The byte after 0xFF of a restart marker. */
  function Rst(num: nat): (m: Byte)
    requires num < 8
    ensures m != 0 && m != 0xFF
  {
    0xD0 + num
  }

  /** The pass when the next MCU is about to be coded, after a restart if one is due. */
  function BeforeMcu(scan: Scan, g: Pass): (r: Pass)
    requires ValidPass(scan, g)
    ensures ValidPass(scan, r) && !RestartDue(scan, r.toGo)
  {
    if RestartDue(scan, g.toGo) then Restarted(scan, g) else g
  }

  /** What such a restart writes. */
  function Flushed(scan: Scan, g: Pass): seq<Byte>
    requires ValidPass(scan, g)
  {
    if RestartDue(scan, g.toGo) then Segment(g.bins0, g.log) + [0xFF, Rst(g.num)] else []
  }

  /** The bytes from the start of the open segment to the end of the pass, for MCUs still to come. */
  function Output(scan: Scan, g: Pass, mcus: seq<seq<Block>>): seq<Byte>
    requires ValidPass(scan, g) && forall i :: 0 <= i < |mcus| ==> ValidMcu(scan, mcus[i])
    decreases |mcus|, if RestartDue(scan, g.toGo) then 1 else 0
  {
    if mcus == [] then Segment(g.bins0, g.log)
    else if RestartDue(scan, g.toGo) then
      Segment(g.bins0, g.log) + [0xFF, Rst(g.num)] + Output(scan, Restarted(scan, g), mcus)
    else Output(scan, Coded(scan, g, mcus[0]), mcus[1..])
  }

  /** The pass after all its MCUs. */
  function Passed(scan: Scan, g: Pass, mcus: seq<seq<Block>>): (r: Pass)
    requires ValidPass(scan, g) && forall i :: 0 <= i < |mcus| ==> ValidMcu(scan, mcus[i])
    ensures ValidPass(scan, r)
    decreases |mcus|
  {
    if mcus == [] then g else Passed(scan, Coded(scan, BeforeMcu(scan, g), mcus[0]), mcus[1..])
  }

  // ---------------------------------------------------------------------------
  // Where restart markers stand
  // ---------------------------------------------------------------------------

  /** The markers in entropy-coded data: what follows a 0xFF, unless that is 0. */
  function Markers(s: seq<Byte>): seq<Byte> {
    if |s| < 2 then []
    else if s[0] == 0xFF && s[1] != 0 then [s[1]] + Markers(s[2..])
    else Markers(s[1..])
  }

  lemma {:induction false} NoneBefore(seg: seq<Byte>, rest: seq<Byte>)
    requires forall i :: 0 <= i < |seg| && seg[i] == 0xFF ==> i + 1 < |seg| && seg[i + 1] == 0
    ensures Markers(seg + rest) == Markers(rest)
  {
    if seg == [] {
      assert seg + rest == rest;
    } else {
      assert seg[0] == 0xFF ==> seg[1] == 0;
      forall i | 0 <= i < |seg[1..]| && seg[1..][i] == 0xFF ensures i + 1 < |seg[1..]| && seg[1..][i + 1] == 0 {
        assert seg[i + 1] == 0xFF;
      }
      NoneBefore(seg[1..], rest);
      assert (seg + rest)[1..] == seg[1..] + rest;
    }
  }

  lemma SegmentThenMarker(bins: seq<Byte>, ds: seq<Decision>, m: Byte, rest: seq<Byte>)
    requires ValidBins(bins) && Codable(bins, ds) && m != 0
    ensures Markers(Segment(bins, ds)) == [] && Markers(Segment(bins, ds) + [0xFF, m] + rest) == [m] + Markers(rest)
  {
    var seg := Segment(bins, ds);
    SegmentMarkerSafe(bins, ds);
    hide Segment;
    NoneBefore(seg, []);
    assert seg + [] == seg;
    NoneBefore(seg, [0xFF, m] + rest);
    assert seg + [0xFF, m] + rest == seg + ([0xFF, m] + rest);
    assert ([0xFF, m] + rest)[2..] == rest;
  }

  /** How many restarts there are in `n` MCUs, if `toGo` of them come before the first. */
  function RestartCount(interval: nat, toGo: nat, n: nat): nat {
    if interval == 0 || n <= toGo then 0 else 1 + (n - toGo - 1) / interval
  }

  lemma NextCount(interval: nat, n: nat)
    requires interval > 0 && n > 0
    ensures RestartCount(interval, 0, n) == 1 + RestartCount(interval, interval, n)
  {
    if n <= interval {
      Division(n - 1, interval, 0, n - 1);
    } else {
      var q := (n - interval - 1) / interval;
      var r := (n - interval - 1) % interval;
      MulNext(q, interval);
      Division(n - 1, interval, q + 1, r);
    }
  }

  /** The second bytes of `n` restart markers in a row. */
  function Numbered(first: nat, n: nat): seq<Byte> {
    seq(n, k requires 0 <= k < n => 0xD0 + (first + k) % 8)
  }

  lemma NoNumbers(first: nat)
    ensures Numbered(first, 0) == []
  {
  }

  lemma NumberedNext(first: nat, n: nat)
    requires first < 8 && n > 0
    ensures Numbered(first, n) == [0xD0 + first] + Numbered((first + 1) % 8, n - 1)
  {
  }

  /** The markers in what is still to be written: one behind each interval but the last, numbered modulo 8. */
  lemma {:induction false} OutputMarkers(scan: Scan, g: Pass, mcus: seq<seq<Block>>)
    requires ValidPass(scan, g) && forall i :: 0 <= i < |mcus| ==> ValidMcu(scan, mcus[i])
    ensures var n := RestartCount(scan.restartInterval, g.toGo, |mcus|);
      Markers(Output(scan, g, mcus)) == Numbered(g.num, n)
    decreases |mcus|, if RestartDue(scan, g.toGo) then 1 else 0
  {
    hide Segment, Markers, McuDecisions, McuPred, Run, ResetBins, ResetPred, RestartCount, Numbered;
    NoNumbers(g.num);
    CountCases(scan.restartInterval, g.toGo, |mcus|);
    SegmentThenMarker(g.bins0, g.log, Rst(g.num), Output(scan, Restarted(scan, g), mcus));
    if mcus != [] {
      if RestartDue(scan, g.toGo) {
        OutputMarkers(scan, Restarted(scan, g), mcus);
        NumberedNext(g.num, RestartCount(scan.restartInterval, g.toGo, |mcus|));
      } else {
        var g1 := Coded(scan, g, mcus[0]);
        OutputMarkers(scan, g1, mcus[1..]);
        CountCases(scan.restartInterval, g1.toGo, |mcus| - 1);
      }
    }
  }

  lemma CountCases(interval: nat, toGo: nat, n: nat)
    ensures n == 0 || interval == 0 ==> RestartCount(interval, toGo, n) == 0
    ensures n > 0 && interval > 0 && toGo == 0 ==>
      RestartCount(interval, toGo, n) == 1 + RestartCount(interval, interval, n)
    ensures n > 0 && interval > 0 && toGo > 0 ==>
      RestartCount(interval, toGo, n) == RestartCount(interval, toGo - 1, n - 1)
  {
    if n > 0 && interval > 0 {
      if toGo == 0 {
        NextCount(interval, n);
      } else {
        assert n - toGo - 1 == (n - 1) - (toGo - 1) - 1;
      }
    }
  }

  /** A whole scan has one marker less than restart intervals, marker k with the byte 0xD0 + k modulo 8. */
  lemma ScanMarkers(scan: Scan, bins: seq<Byte>, p: Pred, mcus: seq<seq<Block>>)
    requires ValidScan(scan) && |bins| == STAT_BINS && ValidBins(bins) && ValidPred(p)
    requires forall i :: 0 <= i < |mcus| ==> ValidMcu(scan, mcus[i])
    ensures Markers(Output(scan, StartPass(scan, bins, p), mcus))
         == Numbered(0, RestartCount(scan.restartInterval, scan.restartInterval, |mcus|))
  {
    hide Markers, Numbered, Output, ResetBins, ResetPred, ValidScan, RestartCount;
    OutputMarkers(scan, StartPass(scan, bins, p), mcus);
  }

  lemma CountExact(interval: nat, n: nat)
    requires interval > 0 && n > 0
    ensures RestartCount(interval, interval, n) == (n - 1) / interval
  {
    NextCount(interval, n);
  }

  /** Up to the next restart everything goes into the open segment. */
  lemma {:induction false} SameSegment(scan: Scan, g: Pass, mcus: seq<seq<Block>>, k: nat)
    requires ValidPass(scan, g) && forall i :: 0 <= i < |mcus| ==> ValidMcu(scan, mcus[i])
    requires scan.restartInterval > 0 && k <= g.toGo && k <= |mcus|
    ensures var r := Passed(scan, g, mcus[..k]);
      && r.bins0 == g.bins0 && r.num == g.num && r.toGo == g.toGo - k
      && Output(scan, g, mcus) == Output(scan, r, mcus[k..])
    decreases k
  {
    hide McuDecisions, McuPred, Run, Segment, Restarted;
    if k == 0 {
      assert mcus[0..] == mcus;
    } else {
      SameSegment(scan, Coded(scan, g, mcus[0]), mcus[1..], k - 1);
      assert mcus[..k][1..] == mcus[1..][..k - 1] && mcus[1..][k - 1..] == mcus[k..];
    }
  }

  lemma {:induction false} PassedConcat(scan: Scan, g: Pass, a: seq<seq<Block>>, b: seq<seq<Block>>)
    requires ValidPass(scan, g) && forall i :: 0 <= i < |a + b| ==> ValidMcu(scan, (a + b)[i])
    ensures forall i :: 0 <= i < |a| ==> ValidMcu(scan, a[i])
    ensures forall i :: 0 <= i < |b| ==> ValidMcu(scan, b[i])
    ensures Passed(scan, g, a + b) == Passed(scan, Passed(scan, g, a), b)
    decreases |a|
  {
    hide BeforeMcu, McuDecisions, McuPred;
    forall i | 0 <= i < |a| ensures ValidMcu(scan, a[i]) {
      assert a[i] == (a + b)[i];
    }
    forall i | 0 <= i < |b| ensures ValidMcu(scan, b[i]) {
      assert b[i] == (a + b)[|a| + i];
    }
    if a == [] {
      assert a + b == b;
    } else {
      assert (a + b)[1..] == a[1..] + b;
      PassedConcat(scan, Coded(scan, BeforeMcu(scan, g), a[0]), a[1..], b);
    }
  }

  lemma {:induction false} MarkersConcat(a: seq<Byte>, b: seq<Byte>)
    requires a == [] || a[|a| - 1] != 0xFF
    ensures Markers(a + b) == Markers(a) + Markers(b)
  {
    if a == [] {
      assert a + b == b;
    } else if |a| == 1 {
      assert (a + b)[1..] == b;
    } else if a[0] == 0xFF && a[1] != 0 {
      assert (a + b)[2..] == a[2..] + b;
      MarkersConcat(a[2..], b);
    } else {
      assert (a + b)[1..] == a[1..] + b;
      MarkersConcat(a[1..], b);
    }
  }

  /** When a restart is due it comes before the next MCU. */
  lemma DueOutput(scan: Scan, g: Pass, mcus: seq<seq<Block>>)
    requires ValidPass(scan, g) && forall i :: 0 <= i < |mcus| ==> ValidMcu(scan, mcus[i])
    requires mcus != [] && RestartDue(scan, g.toGo)
    ensures Output(scan, g, mcus) == Segment(g.bins0, g.log) + [0xFF, Rst(g.num)] + Output(scan, Restarted(scan, g), mcus)
  {
    hide Segment, Restarted, Coded, Run, ValidMcu;
  }

  lemma DuePassed(scan: Scan, g: Pass, mcus: seq<seq<Block>>)
    requires ValidPass(scan, g) && forall i :: 0 <= i < |mcus| ==> ValidMcu(scan, mcus[i])
    requires mcus != [] && RestartDue(scan, g.toGo)
    ensures Passed(scan, g, mcus) == Passed(scan, Restarted(scan, g), mcus)
  {
    hide ResetBins, ResetPred, CurrentBins, Coded, ValidScan, ValidMcu;
  }

  lemma RestartedGo(scan: Scan, g: Pass)
    requires ValidPass(scan, g)
    ensures Restarted(scan, g).toGo == scan.restartInterval && Restarted(scan, g).num == (g.num + 1) % 8
  {
  }

  /** From one restart to the next. */
  lemma IntervalPassed(scan: Scan, g: Pass, mcus: seq<seq<Block>>)
    requires ValidPass(scan, g) && forall i :: 0 <= i < |mcus| ==> ValidMcu(scan, mcus[i])
    requires 0 < scan.restartInterval < |mcus| && g.toGo == 0
    ensures var end := Passed(scan, g, mcus[..scan.restartInterval]);
      && end.toGo == 0 && end.num == (g.num + 1) % 8
      && Output(scan, g, mcus)
         == Segment(g.bins0, g.log) + [0xFF, Rst(g.num)] + Output(scan, end, mcus[scan.restartInterval..])
  {
    hide Passed, Output, Segment, ValidMcu, ValidPass, Restarted;
    var r := scan.restartInterval;
    RestartedGo(scan, g);
    DuePassed(scan, g, mcus[..r]);
    DueOutput(scan, g, mcus);
    SameSegment(scan, Restarted(scan, g), mcus, r);
  }

  /** What is written up to and including marker n - 1. */
  lemma MarkersNext(before: seq<Byte>, bins: seq<Byte>, ds: seq<Decision>, n: nat)
    requires ValidBins(bins) && Codable(bins, ds) && n > 0
    requires (before == [] || before[|before| - 1] != 0xFF) && Markers(before) == Numbered(0, n - 1)
    ensures Markers(before + (Segment(bins, ds) + [0xFF, Rst((n - 1) % 8)])) == Numbered(0, n)
  {
    hide Markers, Numbered, Segment;
    var seg, m := Segment(bins, ds), Rst((n - 1) % 8);
    MarkersConcat(before, seg + [0xFF, m]);
    SegmentThenMarker(bins, ds, m, []);
    assert seg + [0xFF, m] + [] == seg + [0xFF, m];
    MarkersNone();
    assert [m] + [] == [m];
    NumberedLast(n);
  }

  /** Behind (n + 1) restart intervals the next restart is due, with number `n`; `n` markers have been written before. */
  lemma {:induction false} MarkerDue(scan: Scan, g: Pass, mcus: seq<seq<Block>>, n: nat, k: nat) returns (before: seq<Byte>)
    requires ValidPass(scan, g) && forall i :: 0 <= i < |mcus| ==> ValidMcu(scan, mcus[i])
    requires scan.restartInterval > 0 && g.toGo == scan.restartInterval && g.num == 0
    requires k == (n + 1) * scan.restartInterval < |mcus|
    ensures before == [] || before[|before| - 1] != 0xFF
    ensures Markers(before) == Numbered(0, n)
    ensures var end := Passed(scan, g, mcus[..k]);
      end.toGo == 0 && end.num == n % 8 && Output(scan, g, mcus) == before + Output(scan, end, mcus[k..])
    decreases n
  {
    hide Passed, Output, Markers, Numbered, Segment, ValidMcu, ValidPass, Restarted, Rst;
    var r := scan.restartInterval;
    if n == 0 {
      before := [];
      MarkersNone();
      SameSegment(scan, g, mcus, r);
      assert [] + Output(scan, g, mcus) == Output(scan, g, mcus);
    } else {
      MulNext(n, r);
      var j := k - r;
      var before1 := MarkerDue(scan, g, mcus, n - 1, j);
      var end1 := Passed(scan, g, mcus[..j]);
      before := MarkerStep(scan, end1, mcus[j..], n, before1);
      assert mcus[..j] + mcus[j..][..r] == mcus[..k] && mcus[j..][r..] == mcus[k..];
      PassedConcat(scan, g, mcus[..j], mcus[j..][..r]);
    }
  }

  /** The same from marker n - 1 on. */
  lemma MarkerStep(scan: Scan, g: Pass, mcus: seq<seq<Block>>, n: nat, before1: seq<Byte>) returns (before: seq<Byte>)
    requires ValidPass(scan, g) && forall i :: 0 <= i < |mcus| ==> ValidMcu(scan, mcus[i])
    requires 0 < scan.restartInterval < |mcus| && g.toGo == 0 && n > 0 && g.num == (n - 1) % 8
    requires (before1 == [] || before1[|before1| - 1] != 0xFF) && Markers(before1) == Numbered(0, n - 1)
    ensures before == [] || before[|before| - 1] != 0xFF
    ensures Markers(before) == Numbered(0, n)
    ensures var end := Passed(scan, g, mcus[..scan.restartInterval]);
      && end.toGo == 0 && end.num == n % 8
      && before1 + Output(scan, g, mcus) == before + Output(scan, end, mcus[scan.restartInterval..])
  {
    hide Passed, Output, Markers, Numbered, Segment, ValidMcu, Restarted, Rst;
    var next := Segment(g.bins0, g.log) + [0xFF, Rst(g.num)];
    before := before1 + next;
    IntervalPassed(scan, g, mcus);
    MarkersNext(before1, g.bins0, g.log, n);
    Regroup(before1, next, Output(scan, Passed(scan, g, mcus[..scan.restartInterval]), mcus[scan.restartInterval..]));
  }

  /**
   * Marker `n` stands behind (n + 1) restart intervals: what is written before it codes the MCUs up to there, with the
   * `n` markers before, and what is written behind it codes the others.
   */
  lemma MarkerAt(scan: Scan, bins: seq<Byte>, p: Pred, mcus: seq<seq<Block>>, n: nat) returns (before: seq<Byte>)
    requires ValidScan(scan) && |bins| == STAT_BINS && ValidBins(bins) && ValidPred(p)
    requires forall i :: 0 <= i < |mcus| ==> ValidMcu(scan, mcus[i])
    requires scan.restartInterval > 0 && (n + 1) * scan.restartInterval < |mcus|
    ensures Markers(before) == Numbered(0, n)
    ensures var g := StartPass(scan, bins, p); var k := (n + 1) * scan.restartInterval;
      var end := Passed(scan, g, mcus[..k]);
      Output(scan, g, mcus)
      == before + (Segment(end.bins0, end.log) + [0xFF, 0xD0 + n % 8] + Output(scan, Restarted(scan, end), mcus[k..]))
  {
    hide Passed, Output, Markers, Numbered, Segment, ValidMcu, Restarted, ResetBins, ResetPred;
    var g, k := StartPass(scan, bins, p), (n + 1) * scan.restartInterval;
    before := MarkerDue(scan, g, mcus, n, k);
    DueOutput(scan, Passed(scan, g, mcus[..k]), mcus[k..]);
  }

  lemma MarkersNone()
    ensures Markers([]) == [] && Numbered(0, 0) == []
  {
  }

  lemma NumberedLast(n: nat)
    requires n > 0
    ensures Numbered(0, n) == Numbered(0, n - 1) + [0xD0 + (n - 1) % 8]
  {
  }

  lemma Regroup(a: seq<Byte>, b: seq<Byte>, c: seq<Byte>)
    ensures a + (b + c) == (a + b) + c
  {
  }

  /** The fixed bin of a pass is in entry 113. */
  ghost predicate FixedSet(bins: seq<Byte>) {
    |bins| == STAT_BINS && bins[FIXED_BIN] == 113
  }

  lemma {:induction false} ResetFixed(scan: Scan, bins: seq<Byte>, ci: nat)
    requires ValidScan(scan) && ci <= |scan.comps| && FixedSet(bins)
    ensures FixedSet(ResetBins(scan, bins, ci))
    decreases |scan.comps| - ci
  {
    if ci < |scan.comps| {
      ResetFixed(scan, ResetComponent(scan, bins, ci), ci + 1);
    }
  }

  lemma BeforeFixed(scan: Scan, g: Pass)
    requires ValidPass(scan, g) && FixedSet(g.bins0)
    ensures FixedSet(CurrentBins(scan, g)) && FixedSet(BeforeMcu(scan, g).bins0)
  {
    hide ValidScan, ResetBins;
    RunFixed(Start(g.bins0), g.log, FIXED_BIN);
    ResetFixed(scan, CurrentBins(scan, g), 0);
  }

  /** No scan, with whatever restarts, moves the fixed bin. */
  lemma {:induction false} PassedFixed(scan: Scan, g: Pass, mcus: seq<seq<Block>>)
    requires ValidPass(scan, g) && FixedSet(g.bins0) && forall i :: 0 <= i < |mcus| ==> ValidMcu(scan, mcus[i])
    ensures FixedSet(CurrentBins(scan, Passed(scan, g, mcus)))
    decreases |mcus|
  {
    hide FixedSet, ValidScan, ValidMcu, BeforeMcu, CurrentBins, McuDecisions, McuPred;
    BeforeFixed(scan, g);
    if mcus != [] {
      PassedFixed(scan, Coded(scan, BeforeMcu(scan, g), mcus[0]), mcus[1..]);
    }
  }

  lemma StartFixed(scan: Scan, bins: seq<Byte>, p: Pred)
    requires ValidScan(scan) && FixedSet(bins) && ValidBins(bins) && ValidPred(p)
    ensures FixedSet(StartPass(scan, bins, p).bins0)
  {
    ResetFixed(scan, bins, 0);
  }

  // ---------------------------------------------------------------------------
  // Decoding a scan
  // ---------------------------------------------------------------------------

  /** The decoder within a pass; `seg` is where the segment starts in the data. */
  datatype DecPass = DecPass(seg: nat, d: Dec, pred: Pred, toGo: nat, num: nat)

  /** The MCUs, and the statistics bins and predictions the pass ends with. */
  datatype Decoded = Mcus(mcus: seq<seq<Block>>, bins: seq<Byte>, pred: Pred) | Damaged

  ghost predicate ValidDecPass(scan: Scan, data: seq<Byte>, g: DecPass) {
    && ValidScan(scan) && Terminated(data, g.seg) && Ready(g.d)
    && ValidDecPred(g.pred) && g.num < 8
  }

  /** `start_pass`: a fresh decoder for the segment at `pos`. */
  function DecStart(scan: Scan, data: seq<Byte>, pos: nat, bins: seq<Byte>, q: Pred): (r: DecPass)
    requires ValidScan(scan) && Terminated(data, pos) && |bins| == STAT_BINS && ValidBins(bins) && ValidDecPred(q)
    ensures ValidDecPass(scan, data, r)
  {
    var bins0 := ResetBins(scan, bins, 0);
    StartValid(bins0);
    DecPass(pos, Dec(Start(bins0), Unstuff(data, pos)), ResetPred(scan, q), scan.restartInterval, 0)
  }

  /** `process_restart`: the marker expected next, and a fresh decoder behind it. */
  function DecRestarted(scan: Scan, data: seq<Byte>, g: DecPass): (r: DecPass)
    requires ValidDecPass(scan, data, g) && Terminated(data, PastMarker(data, g.seg))
    ensures ValidDecPass(scan, data, r)
  {
    var q := PastMarker(data, g.seg);
    StartValid(ResetBins(scan, g.d.k.bins, 0));
    DecPass(q, Dec(Start(ResetBins(scan, g.d.k.bins, 0)), Unstuff(data, q)), ResetPred(scan, g.pred),
            scan.restartInterval, (g.num + 1) % 8)
  }

  /** After decoding an MCU. */
  function DecCoded(scan: Scan, data: seq<Byte>, g: DecPass, d: Dec, q: Pred): (r: DecPass)
    requires ValidDecPass(scan, data, g) && Ready(d) && ValidDecPred(q) && !RestartDue(scan, g.toGo)
    ensures ValidDecPass(scan, data, r)
  {
    g.(d := d, pred := q, toGo := if scan.restartInterval > 0 then g.toGo - 1 else g.toGo)
  }

  ghost predicate WellShaped(scan: Scan, n: nat, r: Decoded) {
    r.Mcus? ==>
      && |r.bins| == STAT_BINS && ValidBins(r.bins) && ValidDecPred(r.pred)
      && |r.mcus| == n && forall i :: 0 <= i < n ==> |r.mcus[i]| == |scan.membership|
  }

  /** Decoding as many MCUs as there are in `befores`, in place of those. */
  function DecodeScan(scan: Scan, data: seq<Byte>, g: DecPass, befores: seq<seq<Block>>): (r: Decoded)
    requires ValidDecPass(scan, data, g)
    requires forall i :: 0 <= i < |befores| ==> |befores[i]| == |scan.membership|
    ensures WellShaped(scan, |befores|, r)
    decreases |befores|, if RestartDue(scan, g.toGo) then 1 else 0
  {
    if befores == [] then Mcus([], g.d.k.bins, g.pred)
    else if RestartDue(scan, g.toGo) then
      var q := PastMarker(data, g.seg);
      if data[q - 1] == Rst(g.num) && Terminated(data, q) then DecodeScan(scan, data, DecRestarted(scan, data, g), befores)
      else Damaged
    else
      match DecodeMcu(scan, g.pred, g.d, befores[0], 0)
      case Bad => Damaged
      case Got((mcu, q), d1) =>
        Behind(scan, |befores| - 1, [mcu], DecodeScan(scan, data, DecCoded(scan, data, g, d1, q), befores[1..]))
  }

  /** The MCUs decoded so far, before what decoding the other `n` gives. */
  function Behind(scan: Scan, ghost n: nat, mcus: seq<seq<Block>>, r: Decoded): (s: Decoded)
    requires WellShaped(scan, n, r) && forall m :: 0 <= m < |mcus| ==> |mcus[m]| == |scan.membership|
    ensures WellShaped(scan, |mcus| + n, s)
  {
    match r
    case Damaged => Damaged
    case Mcus(more, bins, p) => Mcus(mcus + more, bins, p)
  }

  /** All DC differences of the MCUs fit, given where restarts reset the predictions. */
  ghost predicate AllFit(scan: Scan, g: Pass, mcus: seq<seq<Block>>)
    requires ValidPass(scan, g) && forall i :: 0 <= i < |mcus| ==> ValidMcu(scan, mcus[i])
    decreases |mcus|, if RestartDue(scan, g.toGo) then 1 else 0
  {
    mcus == [] ||
    if RestartDue(scan, g.toGo) then AllFit(scan, Restarted(scan, g), mcus)
    else McuFits(scan, g.pred, mcus[0], 0) && AllFit(scan, Coded(scan, g, mcus[0]), mcus[1..])
  }

  // ---------------------------------------------------------------------------
  // The scan round trip
  // ---------------------------------------------------------------------------

  ghost predicate AllValid(scan: Scan, befores: seq<seq<Block>>, mcus: seq<seq<Block>>)
    requires ValidScan(scan)
  {
    && |befores| == |mcus|
    && (forall i :: 0 <= i < |mcus| ==> ValidMcu(scan, mcus[i]) && |befores[i]| == |scan.membership|)
    && (forall i, j :: 0 <= i < |mcus| && 0 <= j < |mcus[i]| ==> Prior(scan, befores[i][j], mcus[i][j]))
  }

  function AllTargets(scan: Scan, befores: seq<seq<Block>>, mcus: seq<seq<Block>>): (r: seq<seq<Block>>)
    requires |befores| == |mcus| && forall i :: 0 <= i < |mcus| ==> |befores[i]| == |mcus[i]|
    ensures |r| == |mcus|
  {
    seq(|mcus|, i requires 0 <= i < |mcus| => Targets(scan, befores[i], mcus[i], 0))
  }

  /** The open segment's remaining decisions, and what is sent after it. */
  function Remaining(scan: Scan, g: Pass, mcus: seq<seq<Block>>): (r: (seq<Decision>, seq<Byte>))
    requires ValidPass(scan, g) && forall i :: 0 <= i < |mcus| ==> ValidMcu(scan, mcus[i])
    decreases |mcus|
  {
    if mcus == [] then ([], [])
    else if RestartDue(scan, g.toGo) then ([], [0xFF, Rst(g.num)] + Output(scan, Restarted(scan, g), mcus))
    else
      var r := Remaining(scan, Coded(scan, g, mcus[0]), mcus[1..]);
      (McuDecisions(scan, g.pred, mcus[0], 0) + r.0, r.1)
  }

  lemma {:induction false} OutputSplit(scan: Scan, g: Pass, mcus: seq<seq<Block>>)
    requires ValidPass(scan, g) && forall i :: 0 <= i < |mcus| ==> ValidMcu(scan, mcus[i])
    ensures var r := Remaining(scan, g, mcus);
      && Codable(g.bins0, r.0) && Codable(g.bins0, g.log + r.0)
      && Output(scan, g, mcus) == Segment(g.bins0, g.log + r.0) + r.1
      && (r.1 != [] ==> |r.1| >= 2 && r.1[0] == 0xFF && r.1[1] != 0 && r.1[1] != 0xFF)
    decreases |mcus|
  {
    hide McuDecisions, Run, McuPred, Segment;
    var r := Remaining(scan, g, mcus);
    if mcus == [] || RestartDue(scan, g.toGo) {
      assert g.log + [] == g.log;
    } else {
      var ds := McuDecisions(scan, g.pred, mcus[0], 0);
      var g1 := Coded(scan, g, mcus[0]);
      McuCodable(scan, g.pred, mcus[0], 0, g.bins0);
      OutputSplit(scan, g1, mcus[1..]);
      var r1 := Remaining(scan, g1, mcus[1..]);
      assert (g.log + ds) + r1.0 == g.log + r.0;
    }
  }

  /** The decoder stands where the encoder stood: same decisions coded, same predictions, same counters. */
  ghost predicate InStep(scan: Scan, data: seq<Byte>, g: Pass, dg: DecPass, mcus: seq<seq<Block>>, marker: Byte, tail: seq<Byte>)
    requires ValidPass(scan, g) && forall i :: 0 <= i < |mcus| ==> ValidMcu(scan, mcus[i])
  {
    && marker != 0 && marker != 0xFF
    && dg.seg <= |data| && data == data[..dg.seg] + Output(scan, g, mcus) + [0xFF, marker] + tail
    && Terminated(data, dg.seg) && ValidDecPass(scan, data, dg)
    && dg.d == Dec(Run(Start(g.bins0), g.log), Unstuff(data, dg.seg))
    && Same(g.pred, dg.pred) && dg.toGo == g.toGo && dg.num == g.num
  }

  /** Where and how the open segment sits in the data. */
  lemma SegmentCut(scan: Scan, data: seq<Byte>, g: Pass, pos: nat, mcus: seq<seq<Block>>, marker: Byte, tail: seq<Byte>)
    requires ValidPass(scan, g) && forall i :: 0 <= i < |mcus| ==> ValidMcu(scan, mcus[i])
    requires marker != 0 && marker != 0xFF
    requires pos <= |data| && data == data[..pos] + Output(scan, g, mcus) + [0xFF, marker] + tail
    ensures var ds := g.log + Remaining(scan, g, mcus).0;
      && Codable(g.bins0, ds) && Terminated(data, pos)
      && Unstuff(data, pos) == Payload(Run(Start(g.bins0), ds))
      && PastMarker(data, pos) == pos + |Segment(g.bins0, ds)| + 2
  {
    hide Run, Output, Remaining, Payload, Stuff, Terminated, Unstuff, PastMarker;
    var r := Remaining(scan, g, mcus);
    OutputSplit(scan, g, mcus);
    var code := Payload(Run(Start(g.bins0), g.log + r.0));
    var pre := data[..pos];
    if r.1 == [] {
      UnstuffStuff(pre, code, marker, tail);
      assert pre + Stuff(code) + [0xFF, marker] + tail == data;
    } else {
      var more := r.1[2..] + [0xFF, marker] + tail;
      UnstuffStuff(pre, code, r.1[1], more);
      assert r.1 == [0xFF, r.1[1]] + r.1[2..];
      assert pre + Stuff(code) + [0xFF, r.1[1]] + more == data;
    }
  }

  /** The open segment's code string, seen by the decoder. */
  lemma SegmentRead(scan: Scan, data: seq<Byte>, g: Pass, dg: DecPass, mcus: seq<seq<Block>>, marker: Byte, tail: seq<Byte>)
    requires ValidPass(scan, g) && forall i :: 0 <= i < |mcus| ==> ValidMcu(scan, mcus[i])
    requires InStep(scan, data, g, dg, mcus, marker, tail)
    ensures Follows(dg.d, Remaining(scan, g, mcus).0)
    ensures var r := Remaining(scan, g, mcus);
      Codable(g.bins0, g.log + r.0) && PastMarker(data, dg.seg) == dg.seg + |Segment(g.bins0, g.log + r.0)| + 2
  {
    hide Run, Output, Remaining, Segment, Unstuff, Terminated, PastMarker;
    SegmentCut(scan, data, g, dg.seg, mcus, marker, tail);
    OutputSplit(scan, g, mcus);
    SegmentFollows(g.bins0, g.log, Remaining(scan, g, mcus).0);
  }

  lemma RunNothing(k: Coder)
    requires Valid(k)
    ensures Run(k, []) == k
  {
  }

  /** Where the restart marker is, and what comes behind it. */
  lemma RestartCut(scan: Scan, data: seq<Byte>, g: Pass, dg: DecPass, mcus: seq<seq<Block>>, marker: Byte, tail: seq<Byte>)
      returns (q: nat)
    requires ValidPass(scan, g) && forall i :: 0 <= i < |mcus| ==> ValidMcu(scan, mcus[i])
    requires InStep(scan, data, g, dg, mcus, marker, tail)
    requires mcus != [] && RestartDue(scan, g.toGo)
    ensures q == PastMarker(data, dg.seg) <= |data| && data[q - 1] == Rst(g.num)
    ensures data == data[..q] + Output(scan, Restarted(scan, g), mcus) + [0xFF, marker] + tail
  {
    hide McuDecisions, Run, McuPred, Segment, ResetBins, ResetPred, Unstuff, Terminated, PastMarker, Restarted, Output, Remaining;
    SegmentRead(scan, data, g, dg, mcus, marker, tail);
    DueOutput(scan, g, mcus);
    DueRemaining(scan, g, mcus);
    q := PastMarker(data, dg.seg);
    assert g.log + [] == g.log;
    hide InStep, ValidPass;
    CutBehind(data, data[..dg.seg], Segment(g.bins0, g.log), Rst(g.num), Output(scan, Restarted(scan, g), mcus), [0xFF, marker], tail);
  }

  lemma DueRemaining(scan: Scan, g: Pass, mcus: seq<seq<Block>>)
    requires ValidPass(scan, g) && forall i :: 0 <= i < |mcus| ==> ValidMcu(scan, mcus[i])
    requires mcus != [] && RestartDue(scan, g.toGo)
    ensures Remaining(scan, g, mcus).0 == []
  {
    hide Output, Restarted, ValidMcu;
  }

  lemma CutBehind(data: seq<Byte>, pre: seq<Byte>, seg: seq<Byte>, m: Byte, rest: seq<Byte>, end: seq<Byte>, tail: seq<Byte>)
    requires data == pre + (seg + [0xFF, m] + rest) + end + tail
    ensures var q := |pre| + |seg| + 2;
      q <= |data| && data[q - 1] == m && data == data[..q] + rest + end + tail
  {
    var head := pre + seg + [0xFF, m];
    assert data == head + (rest + end + tail);
    assert data[..|head|] == head;
    assert head + (rest + end + tail) == head + rest + end + tail;
  }

  /** Behind a restart marker the decoder is in step with the restarted encoder. */
  lemma RestartInStep(scan: Scan, data: seq<Byte>, g: Pass, dg: DecPass, mcus: seq<seq<Block>>, marker: Byte, tail: seq<Byte>)
    requires ValidPass(scan, g) && forall i :: 0 <= i < |mcus| ==> ValidMcu(scan, mcus[i])
    requires InStep(scan, data, g, dg, mcus, marker, tail)
    requires mcus != [] && RestartDue(scan, g.toGo)
    ensures var q := PastMarker(data, dg.seg); data[q - 1] == Rst(g.num) && Terminated(data, q)
    ensures InStep(scan, data, Restarted(scan, g), DecRestarted(scan, data, dg), mcus, marker, tail)
  {
    hide Run, Output, Segment, ResetBins, ResetPred, Unstuff, Terminated, PastMarker, Remaining, ValidScan, ValidMcu, Payload;
    var q := RestartCut(scan, data, g, dg, mcus, marker, tail);
    var g1 := Restarted(scan, g);
    SegmentCut(scan, data, g1, q, mcus, marker, tail);
    RunNothing(Start(g1.bins0));
    SameReset(scan, g.pred, dg.pred);
  }

  lemma SameReset(scan: Scan, p: Pred, q: Pred)
    requires ValidScan(scan) && Same(p, q)
    ensures Same(ResetPred(scan, p), ResetPred(scan, q))
  {
  }

  /** The decoder's predictions, kept modulo 2^16, for those of the encoder. */
  function Reduced16(p: Pred): Pred
    requires |p.last| == |p.ctx| == MAX_COMPS_IN_SCAN
  {
    p.(last := seq(MAX_COMPS_IN_SCAN, c requires 0 <= c < MAX_COMPS_IN_SCAN => p.last[c] % 0x10000))
  }

  lemma SameReduced(p: Pred, q: Pred)
    requires Same(p, q)
    ensures q == Reduced16(p)
  {
    assert q.last == Reduced16(p).last;
  }

  /** What decoding the rest of a scan gives. */
  ghost predicate ScanResult(scan: Scan, data: seq<Byte>, g: Pass, dg: DecPass, befores: seq<seq<Block>>, mcus: seq<seq<Block>>)
    requires ValidPass(scan, g) && ValidDecPass(scan, data, dg) && AllValid(scan, befores, mcus)
  {
    DecodeScan(scan, data, dg, befores)
    == if AllFit(scan, g, mcus) then ScanTargets(scan, g, befores, mcus) else Damaged
  }

  function ScanTargets(scan: Scan, g: Pass, befores: seq<seq<Block>>, mcus: seq<seq<Block>>): Decoded
    requires ValidPass(scan, g) && AllValid(scan, befores, mcus)
  {
    var end := Passed(scan, g, mcus);
    Mcus(AllTargets(scan, befores, mcus), CurrentBins(scan, end), Reduced16(end.pred))
  }

  lemma {:induction false} ScanDecoded(scan: Scan, data: seq<Byte>, g: Pass, dg: DecPass,
                                       befores: seq<seq<Block>>, mcus: seq<seq<Block>>, marker: Byte, tail: seq<Byte>)
    requires ValidPass(scan, g) && AllValid(scan, befores, mcus)
    requires InStep(scan, data, g, dg, mcus, marker, tail)
    ensures ScanResult(scan, data, g, dg, befores, mcus)
    decreases |mcus|, if RestartDue(scan, g.toGo) then 1 else 0
  {
    hide McuDecisions, Run, McuPred, McuFits, Segment, DecodeMcu, Unstuff, Terminated, PastMarker;
    if mcus == [] {
      SameReduced(g.pred, dg.pred);
    } else if RestartDue(scan, g.toGo) {
      RestartInStep(scan, data, g, dg, mcus, marker, tail);
      ScanDecoded(scan, data, Restarted(scan, g), DecRestarted(scan, data, dg), befores, mcus, marker, tail);
    } else {
      McuInStep(scan, data, g, dg, befores, mcus, marker, tail);
      if McuFits(scan, g.pred, mcus[0], 0) {
        var r := DecodeMcu(scan, dg.pred, dg.d, befores[0], 0);
        var dg1 := DecCoded(scan, data, dg, r.d, r.value.1);
        ScanDecoded(scan, data, Coded(scan, g, mcus[0]), dg1, befores[1..], mcus[1..], marker, tail);
        assert AllTargets(scan, befores, mcus)
            == [Targets(scan, befores[0], mcus[0], 0)] + AllTargets(scan, befores[1..], mcus[1..]);
      }
    }
  }

  /** One MCU keeps the decoder in step. */
  lemma McuInStep(scan: Scan, data: seq<Byte>, g: Pass, dg: DecPass,
                  befores: seq<seq<Block>>, mcus: seq<seq<Block>>, marker: Byte, tail: seq<Byte>)
    requires ValidPass(scan, g) && AllValid(scan, befores, mcus) && mcus != [] && !RestartDue(scan, g.toGo)
    requires InStep(scan, data, g, dg, mcus, marker, tail)
    ensures var r := DecodeMcu(scan, dg.pred, dg.d, befores[0], 0);
      if McuFits(scan, g.pred, mcus[0], 0) then
        && r.Got? && r.value.0 == Targets(scan, befores[0], mcus[0], 0)
        && InStep(scan, data, Coded(scan, g, mcus[0]), DecCoded(scan, data, dg, r.d, r.value.1), mcus[1..], marker, tail)
      else r.Bad?
  {
    hide McuDecisions, Run, McuPred, McuFits, Segment, DecodeMcu, Unstuff, Terminated, PastMarker, Follows;
    SegmentRead(scan, data, g, dg, mcus, marker, tail);
    var ds := McuDecisions(scan, g.pred, mcus[0], 0);
    var rest := Remaining(scan, Coded(scan, g, mcus[0]), mcus[1..]).0;
    McuDecoded(scan, g.pred, dg.pred, dg.d, befores[0], mcus[0], 0, rest);
    McuCodable(scan, g.pred, mcus[0], 0, g.bins0);
    RunConcat(Start(g.bins0), g.log, ds);
  }

  /**
   * The scan round trip: for any statistics and predictions left by earlier scans,
   * any bytes before, any restart interval and any marker after the scan, decoding
   * what the encoder sent gives the target of every block exactly if all DC
   * differences fit in the decoder's range, and reports damage otherwise.
   */
  lemma ScanRoundTrip(scan: Scan, pre: seq<Byte>, bins: seq<Byte>, p: Pred, q: Pred, befores: seq<seq<Block>>,
                      mcus: seq<seq<Block>>, marker: Byte, tail: seq<Byte>)
    requires ValidScan(scan) && |bins| == STAT_BINS && ValidBins(bins) && Same(p, q)
    requires AllValid(scan, befores, mcus) && marker != 0 && marker != 0xFF
    ensures var g := StartPass(scan, bins, p);
      var data := pre + Output(scan, g, mcus) + [0xFF, marker] + tail;
      && Terminated(data, |pre|)
      && DecodeScan(scan, data, DecStart(scan, data, |pre|, bins, q), befores)
         == if AllFit(scan, g, mcus) then ScanTargets(scan, g, befores, mcus) else Damaged
  {
    hide Output, Terminated, Unstuff, AllFit, DecodeScan, ResetPred, ResetBins;
    var g := StartPass(scan, bins, p);
    var data := pre + Output(scan, g, mcus) + [0xFF, marker] + tail;
    assert data[..|pre|] == pre;
    SegmentCut(scan, data, g, |pre|, mcus, marker, tail);
    RunNothing(Start(g.bins0));
    SameReset(scan, p, q);
    ScanDecoded(scan, data, g, DecStart(scan, data, |pre|, bins, q), befores, mcus, marker, tail);
  }

  // ---------------------------------------------------------------------------
  // A scan that does not come back
  // ---------------------------------------------------------------------------

  /** A sequential scan of one component, one block an MCU, without a restart between the first two. */
  ghost predicate Plain(scan: Scan) {
    ValidScan(scan) && !scan.progressive && scan.membership == [0] && scan.restartInterval != 1
  }

  lemma FirstFits(scan: Scan, p: Pred, b: Block)
    requires Plain(scan) && ValidPred(p) && IsBlock(b) && p.last[0] == 0
    ensures ValidMcu(scan, [b]) && McuFits(scan, p, [b], 0)
    ensures McuPred(scan, p, [b], 0).last[0] == b[0]
  {
    hide DcContext;
    assert Pow2(0) == 1;
    assert McuPred(scan, p, [b], 0) == BlockPred(scan, p, 0, b);
  }

  lemma SecondFits(scan: Scan, p: Pred, b: Block)
    requires Plain(scan) && ValidPred(p) && IsBlock(b)
    ensures ValidMcu(scan, [b]) && (McuFits(scan, p, [b], 0) <==> Abs(b[0] - p.last[0]) <= 0x8000)
  {
    hide BlockPred;
    assert Pow2(0) == 1;
    assert McuFits(scan, p, [b], 0) <==> Fits(scan, p, 0, b);
  }

  /** Two blocks in a row fit exactly if their DC values are at most 2^15 apart. */
  lemma PairFits(scan: Scan, bins: seq<Byte>, p: Pred, first: Block, second: Block)
    requires Plain(scan) && |bins| == STAT_BINS && ValidBins(bins) && ValidPred(p) && IsBlock(first) && IsBlock(second)
    ensures ValidMcu(scan, [first]) && ValidMcu(scan, [second])
    ensures AllFit(scan, StartPass(scan, bins, p), [[first], [second]]) <==> Abs(second[0] - first[0]) <= 0x8000
  {
    hide McuDecisions, Run, McuFits, McuPred, ResetBins;
    var g := StartPass(scan, bins, p);
    FirstFits(scan, g.pred, first);
    var g1 := Coded(scan, g, [first]);
    SecondFits(scan, g1.pred, second);
    var mcus: seq<seq<Block>> := [[first], [second]];
    assert mcus[1..] == [[second]] && |mcus[1..][1..]| == 0;
    assert AllFit(scan, g1, mcus[1..]) <==> McuFits(scan, g1.pred, [second], 0);
  }

  /** Two blocks further apart are valid, but the decoder reports damage. */
  lemma FarApartDamaged(scan: Scan, bins: seq<Byte>, p: Pred, q: Pred, first: Block, second: Block, marker: Byte)
    requires Plain(scan) && |bins| == STAT_BINS && ValidBins(bins) && Same(p, q) && marker != 0 && marker != 0xFF
    requires IsBlock(first) && IsBlock(second) && Abs(second[0] - first[0]) > 0x8000
    ensures ValidMcu(scan, [first]) && ValidMcu(scan, [second])
    ensures var data := Output(scan, StartPass(scan, bins, p), [[first], [second]]) + [0xFF, marker];
      Terminated(data, 0) && DecodeScan(scan, data, DecStart(scan, data, 0, bins, q), [[ZeroBlock()], [ZeroBlock()]]) == Damaged
  {
    hide Output, Terminated, Unstuff, AllFit, DecodeScan, StartPass, DecStart;
    PairFits(scan, bins, p, first, second);
    var mcus: seq<seq<Block>> := [[first], [second]];
    var sent := Output(scan, StartPass(scan, bins, p), mcus);
    ScanRoundTrip(scan, [], bins, p, q, [[ZeroBlock()], [ZeroBlock()]], mcus, marker, []);
    assert [] + sent + [0xFF, marker] + [] == sent + [0xFF, marker];
  }

  function PlainScan(): (scan: Scan)
    ensures Plain(scan)
  {
    Scan([Component(0, 0)], [0], 0, false, 0, 63, 0, 0, seq(16, _ => 0), seq(16, _ => 1), seq(16, _ => 5))
  }

  /** For example the greatest and the least DC value. */
  lemma FarApart(bins: seq<Byte>, p: Pred)
    requires |bins| == STAT_BINS && ValidBins(bins) && ValidPred(p)
    ensures var scan, first, second := PlainScan(), ZeroBlock()[0 := 0x7FFF], ZeroBlock()[0 := -0x8000];
      ValidMcu(scan, [first]) && ValidMcu(scan, [second]) && !AllFit(scan, StartPass(scan, bins, p), [[first], [second]])
  {
    PairFits(PlainScan(), bins, p, ZeroBlock()[0 := 0x7FFF], ZeroBlock()[0 := -0x8000]);
  }
}
