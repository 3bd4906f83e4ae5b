/** Clearing the statistics areas and DC predictions of a scan's components, as passes and restarts do. */
module StatAreas {
  import opened Bytes
  import opened QmInterval
  import opened DctDecisions
  import opened ScanModel
  import opened ScanCodec

  /** Statistics, last DC values and DC contexts, as separate arrays. */
  ghost predicate Areas(stats: array<Byte>, last: array<int>, ctx: array<nat>) {
    && stats.Length == STAT_BINS && last.Length == ctx.Length == MAX_COMPS_IN_SCAN
    && last as object != ctx as object && stats as object != last as object && stats as object != ctx as object
  }

  /** Before the first scan: everything is zero but the bin of the fixed estimate. */
  function InitialBins(): (bins: seq<Byte>)
    ensures |bins| == STAT_BINS
  {
    seq(STAT_BINS, i => if i == FIXED_BIN then 113 else 0)
  }

  function InitialPred(): Pred {
    Pred(seq(MAX_COMPS_IN_SCAN, _ => 0), seq(MAX_COMPS_IN_SCAN, _ => 0))
  }

  lemma InitialValid()
    ensures ValidBins(InitialBins()) && FixedSet(InitialBins())
    ensures Same(InitialPred(), InitialPred())
  {
  }

  /** The tables of `jinit_arith_encoder` and `jinit_arith_decoder`. */
  method InitAreas() returns (stats: array<Byte>, last: array<int>, ctx: array<nat>)
    ensures Areas(stats, last, ctx) && fresh(stats) && fresh(last) && fresh(ctx)
    ensures stats[..] == InitialBins() && Pred(last[..], ctx[..]) == InitialPred()
  {
    stats := new Byte[STAT_BINS](i => if i == FIXED_BIN then 113 else 0);
    last := new int[MAX_COMPS_IN_SCAN](_ => 0);
    ctx := new nat[MAX_COMPS_IN_SCAN](_ => 0);
    assert stats[..] == InitialBins();
    assert last[..] == InitialPred().last && ctx[..] == InitialPred().ctx;
  }

  /** `memset` on a statistics area. */
  method ClearStats(stats: array<Byte>, lo: nat, n: nat)
    requires stats.Length == STAT_BINS && lo + n <= STAT_BINS
    modifies stats
    ensures stats[..] == Zeroed(old(stats[..]), lo, n)
  {
    for i := 0 to n
      invariant forall j :: 0 <= j < STAT_BINS ==> stats[j] == if lo <= j < lo + i then 0 else old(stats[..])[j]
    {
      stats[lo + i] := 0;
    }
  }

  method ClearComponent(scan: Scan, stats: array<Byte>, last: array<int>, ctx: array<nat>, ci: nat)
    requires Areas(stats, last, ctx) && ValidScan(scan) && ci < |scan.comps|
    modifies stats, last, ctx
    ensures stats[..] == ResetComponent(scan, old(stats[..]), ci)
    ensures last[..] == if UsesDc(scan) then old(last[..])[ci := 0] else old(last[..])
    ensures ctx[..] == if UsesDc(scan) then old(ctx[..])[ci := 0] else old(ctx[..])
  {
    hide Zeroed;
    var c := scan.comps[ci];
    if UsesDc(scan) {
      ClearStats(stats, DcBin(c.dcTbl, 0), DC_STAT_BINS);
      last[ci] := 0;
      ctx[ci] := 0;
    }
    if UsesAc(scan) {
      ClearStats(stats, AcBin(c.acTbl, 0), AC_STAT_BINS);
    }
  }

  /** All components of the scan: common to `start_pass`, `emit_restart` and `process_restart`. */
  method ClearAreas(scan: Scan, stats: array<Byte>, last: array<int>, ctx: array<nat>)
    requires Areas(stats, last, ctx) && ValidScan(scan)
    modifies stats, last, ctx
    ensures stats[..] == ResetBins(scan, old(stats[..]), 0)
    ensures forall bin :: 0 <= bin < STAT_BINS ==> stats[bin] == if Cleared(scan, bin) then 0 else old(stats[bin])
    ensures Pred(last[..], ctx[..]) == ResetPred(scan, old(Pred(last[..], ctx[..])))
  {
    hide ResetComponent, Cleared;
    ResetExact(scan, stats[..]);
    for ci := 0 to |scan.comps|
      invariant ResetBins(scan, stats[..], ci) == ResetBins(scan, old(stats[..]), 0)
      invariant forall c :: 0 <= c < MAX_COMPS_IN_SCAN ==>
        last[c] == if c < ci && UsesDc(scan) then 0 else old(last[..])[c]
      invariant forall c :: 0 <= c < MAX_COMPS_IN_SCAN ==>
        ctx[c] == if c < ci && UsesDc(scan) then 0 else old(ctx[..])[c]
    {
      ghost var last1, ctx1 := last[..], ctx[..];
      ClearComponent(scan, stats, last, ctx, ci);
      forall c | 0 <= c < MAX_COMPS_IN_SCAN
        ensures last[c] == (if c == ci && UsesDc(scan) then 0 else last1[c])
        ensures ctx[c] == (if c == ci && UsesDc(scan) then 0 else ctx1[c])
      {
        assert last[c] == last[..][c] && ctx[c] == ctx[..][c];
      }
    }
  }
}
