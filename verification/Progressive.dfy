/**
 * Progressive exactness: a legal script of scans, each sent through the arithmetic
 * coder, lets the decoder rebuild every coefficient.
 */
module Progressive {
  import opened Coefficients
  import opened Arith
  import opened Bytes
  import opened QmInterval
  import opened ArithDecoder
  import opened DctDecisions
  import opened DctBands
  import opened DctRefine
  import opened ScanModel
  import opened ScanCodec

  /** For each coefficient the lowest bit sent so far, -1 if it has not been sent at all. */
  type Precision = p: seq<int> | |p| == 64 witness seq(64, _ => -1)

  /** The rule of script validation: a first pass for a new band, or the next bit of a known one. */
  ghost predicate LegalScan(scan: Scan, prec: Precision) {
    && ValidScan(scan) && scan.progressive
    && forall j :: scan.ss <= j <= scan.se ==> prec[j] == if scan.ah == 0 then -1 else scan.ah
  }

  /** Nothing sent yet. */
  function Unseen(): Precision {
    seq(64, _ => -1)
  }

  /** Every coefficient sent down to bit 0. */
  ghost predicate Complete(prec: Precision) {
    forall j :: 0 <= j < 64 ==> prec[j] == 0
  }

  function NextPrecision(scan: Scan, prec: Precision): Precision {
    seq(64, j requires 0 <= j < 64 => if scan.ss <= j <= scan.se then scan.al else prec[j])
  }

  /** What the scans so far tell about a block. */
  function Seen(b: Block, prec: Precision): (r: Block)
    ensures forall j :: 0 <= j < 64 ==> r[j] == SeenCoef(b[j], j, prec[j])
  {
    seq(64, j requires 0 <= j < 64 => SeenCoef(b[j], j, prec[j]))
  }

  function SeenCoef(v: int, j: nat, prec: int): int {
    if prec < 0 then 0 else if j == 0 then DcApprox(v, prec) else Approx(v, prec)
  }

  /** A legal scan finds what it needs and advances what is known by exactly its band. */
  lemma ScanAdvances(scan: Scan, prec: Precision, b: Block)
    requires LegalScan(scan, prec)
    ensures Prior(scan, Seen(b, prec), b)
    ensures Target(scan, Seen(b, prec), b) == Seen(b, NextPrecision(scan, prec))
  {
    hide Approx, DcApprox;
    assert Target(scan, Seen(b, prec), b) == Seen(b, NextPrecision(scan, prec));
  }

  lemma FullPrecision(b: Block, prec: Precision)
    requires Complete(prec)
    ensures Seen(b, prec) == b
  {
    assert Pow2(0) == 1;
    forall j | 0 <= j < 64 ensures Seen(b, prec)[j] == b[j] {
      assert Seen(b, prec)[j] == SeenCoef(b[j], j, 0);
    }
  }

  // ---------------------------------------------------------------------------
  // Scripts
  // ---------------------------------------------------------------------------

  /** Which blocks of the image each MCU of a scan takes. */
  type Layout = seq<seq<nat>>

  /** A scan of a script, of one component or several interleaved ones. */
  datatype Part = Part(scan: Scan, layout: Layout)

  predicate Takes(layout: Layout, b: nat) {
    exists m | 0 <= m < |layout| :: b in layout[m]
  }

  /** No block is taken twice. */
  ghost predicate Distinct(layout: Layout) {
    forall m, i, n, k ::
      0 <= m < |layout| && 0 <= i < |layout[m]| && 0 <= n < |layout| && 0 <= k < |layout[n]| ==>
        layout[m][i] == layout[n][k] ==> m == n && i == k
  }

  ghost predicate Fit(layout: Layout, scan: Scan, blocks: nat) {
    && (forall m :: 0 <= m < |layout| ==> |layout[m]| == |scan.membership|)
    && (forall m, i :: 0 <= m < |layout| && 0 <= i < |layout[m]| ==> layout[m][i] < blocks)
  }

  /** The scan is legal for every block that it takes. */
  ghost predicate LegalPart(part: Part, precs: seq<Precision>) {
    && ValidScan(part.scan) && Distinct(part.layout) && Fit(part.layout, part.scan, |precs|)
    && forall m, i :: 0 <= m < |part.layout| && 0 <= i < |part.layout[m]| ==>
         LegalScan(part.scan, precs[part.layout[m][i]])
  }

  function NextPrecisions(part: Part, precs: seq<Precision>): (r: seq<Precision>)
    ensures |r| == |precs|
  {
    seq(|precs|, b requires 0 <= b < |precs| =>
      if Takes(part.layout, b) then NextPrecision(part.scan, precs[b]) else precs[b])
  }

  ghost predicate LegalScript(parts: seq<Part>, precs: seq<Precision>) {
    parts == [] || (LegalPart(parts[0], precs) && LegalScript(parts[1..], NextPrecisions(parts[0], precs)))
  }

  function FinalPrecisions(parts: seq<Part>, precs: seq<Precision>): (r: seq<Precision>)
    ensures |r| == |precs|
  {
    if parts == [] then precs else FinalPrecisions(parts[1..], NextPrecisions(parts[0], precs))
  }

  /** The blocks of the scan's MCUs. */
  function Gather(blocks: seq<Block>, layout: Layout): (r: seq<seq<Block>>)
    requires forall m, i :: 0 <= m < |layout| && 0 <= i < |layout[m]| ==> layout[m][i] < |blocks|
    ensures |r| == |layout| && forall m :: 0 <= m < |layout| ==> |r[m]| == |layout[m]|
    ensures forall m, i :: 0 <= m < |layout| && 0 <= i < |layout[m]| ==> r[m][i] == blocks[layout[m][i]]
  {
    seq(|layout|, m requires 0 <= m < |layout| =>
      seq(|layout[m]|, i requires 0 <= i < |layout[m]| => blocks[layout[m][i]]))
  }

  function Place(blocks: seq<Block>, ids: seq<nat>, mcu: seq<Block>): (r: seq<Block>)
    requires |mcu| == |ids| && forall i :: 0 <= i < |ids| ==> ids[i] < |blocks|
    ensures |r| == |blocks|
    decreases |ids|
  {
    if ids == [] then blocks else Place(blocks[ids[0] := mcu[0]], ids[1..], mcu[1..])
  }

  /** The blocks after each MCU has been put where it belongs. */
  function Scatter(blocks: seq<Block>, layout: Layout, mcus: seq<seq<Block>>): (r: seq<Block>)
    requires |mcus| == |layout| && forall m :: 0 <= m < |layout| ==> |mcus[m]| == |layout[m]|
    requires forall m, i :: 0 <= m < |layout| && 0 <= i < |layout[m]| ==> layout[m][i] < |blocks|
    ensures |r| == |blocks|
    decreases |layout|
  {
    if layout == [] then blocks else Scatter(Place(blocks, layout[0], mcus[0]), layout[1..], mcus[1..])
  }

  lemma {:induction false} PlaceImage(blocks: seq<Block>, ids: seq<nat>, mcu: seq<Block>, image: seq<Block>, b: nat)
    requires |image| == |blocks| && |mcu| == |ids| && b < |blocks|
    requires forall i :: 0 <= i < |ids| ==> ids[i] < |blocks| && mcu[i] == image[ids[i]]
    ensures Place(blocks, ids, mcu)[b] == if b in ids then image[b] else blocks[b]
    decreases |ids|
  {
    if ids != [] {
      PlaceImage(blocks[ids[0] := mcu[0]], ids[1..], mcu[1..], image, b);
      assert b in ids <==> b == ids[0] || b in ids[1..];
    }
  }

  /** Putting the blocks of an image where they belong. */
  lemma {:induction false} ScatterImage(blocks: seq<Block>, layout: Layout, mcus: seq<seq<Block>>, image: seq<Block>, b: nat)
    requires |image| == |blocks| && |mcus| == |layout| && b < |blocks|
    requires forall m :: 0 <= m < |layout| ==> |mcus[m]| == |layout[m]|
    requires forall m, i :: 0 <= m < |layout| && 0 <= i < |layout[m]| ==>
      layout[m][i] < |blocks| && mcus[m][i] == image[layout[m][i]]
    ensures Scatter(blocks, layout, mcus)[b] == if Takes(layout, b) then image[b] else blocks[b]
    decreases |layout|
  {
    if layout != [] {
      PlaceImage(blocks, layout[0], mcus[0], image, b);
      ScatterImage(Place(blocks, layout[0], mcus[0]), layout[1..], mcus[1..], image, b);
      assert Takes(layout[1..], b) ==> Takes(layout, b) by {
        if Takes(layout[1..], b) {
          var m :| 0 <= m < |layout[1..]| && b in layout[1..][m];
          assert b in layout[m + 1];
        }
      }
      assert b in layout[0] ==> Takes(layout, b);
      forall m | 0 <= m < |layout| && b in layout[m] ensures m == 0 || b in layout[1..][m - 1] {
      }
    }
  }

  function SeenAll(image: seq<Block>, precs: seq<Precision>): (r: seq<Block>)
    requires |precs| == |image|
    ensures |r| == |image| && forall b :: 0 <= b < |image| ==> r[b] == Seen(image[b], precs[b])
  {
    seq(|image|, b requires 0 <= b < |image| => Seen(image[b], precs[b]))
  }

  ghost predicate ValidImage(image: seq<Block>) {
    forall b :: 0 <= b < |image| ==> IsBlock(image[b])
  }

  /** A place in a file that holds `bytes` as entropy-coded data, up to a marker. */
  datatype Source = Source(data: seq<Byte>, pos: nat)

  ghost predicate Carries(source: Source, bytes: seq<Byte>) {
    source.pos <= |source.data| &&
    exists marker: Byte, tail ::
      marker != 0 && marker != 0xFF && source.data == source.data[..source.pos] + bytes + [0xFF, marker] + tail
  }

  /** What the encoder sends for each scan of the script, over statistics `bins` and predictions `p`. */
  function ScriptOutputs(parts: seq<Part>, precs: seq<Precision>, bins: seq<Byte>, p: Pred, image: seq<Block>): (r: seq<seq<Byte>>)
    requires |precs| == |image| && LegalScript(parts, precs)
    requires |bins| == STAT_BINS && ValidBins(bins) && ValidPred(p) && ValidImage(image)
    ensures |r| == |parts|
    decreases |parts|
  {
    if parts == [] then [] else
      PartValid(parts[0], precs, image);
      var scan := parts[0].scan;
      var mcus := Gather(image, parts[0].layout);
      var g := StartPass(scan, bins, p);
      var end := Passed(scan, g, mcus);
      [Output(scan, g, mcus)]
      + ScriptOutputs(parts[1..], NextPrecisions(parts[0], precs), CurrentBins(scan, end), end.pred, image)
  }

  /** Every DC difference of every scan is one the decoder accepts. */
  ghost predicate ScriptFits(parts: seq<Part>, precs: seq<Precision>, bins: seq<Byte>, p: Pred, image: seq<Block>)
    requires |precs| == |image| && LegalScript(parts, precs)
    requires |bins| == STAT_BINS && ValidBins(bins) && ValidPred(p) && ValidImage(image)
    decreases |parts|
  {
    parts == [] ||
      (PartValid(parts[0], precs, image);
       var scan := parts[0].scan;
       var mcus := Gather(image, parts[0].layout);
       var g := StartPass(scan, bins, p);
       var end := Passed(scan, g, mcus);
       && AllFit(scan, g, mcus)
       && ScriptFits(parts[1..], NextPrecisions(parts[0], precs), CurrentBins(scan, end), end.pred, image))
  }

  /** Each source holds what was sent for one scan. */
  ghost predicate Sent(sources: seq<Source>, outs: seq<seq<Byte>>) {
    |sources| == |outs| && forall k :: 0 <= k < |outs| ==> Carries(sources[k], outs[k])
  }

  /** A legal scan finds in all its blocks what it needs. */
  lemma PartValid(part: Part, precs: seq<Precision>, image: seq<Block>)
    requires |precs| == |image| && LegalPart(part, precs) && ValidImage(image)
    ensures forall m :: 0 <= m < |part.layout| ==> ValidMcu(part.scan, Gather(image, part.layout)[m])
    ensures AllValid(part.scan, Gather(SeenAll(image, precs), part.layout), Gather(image, part.layout))
  {
    hide Prior, Seen, ValidScan;
    forall m, i | 0 <= m < |part.layout| && 0 <= i < |part.layout[m]|
      ensures Prior(part.scan, Gather(SeenAll(image, precs), part.layout)[m][i], Gather(image, part.layout)[m][i])
    {
      var b := part.layout[m][i];
      ScanAdvances(part.scan, precs[b], image[b]);
    }
  }

  datatype Rebuilt = Blocks(blocks: seq<Block>) | Failed

  /** Decoding the scans of a script one after the other, each in place of what the earlier ones gave. */
  function DecodeScript(parts: seq<Part>, sources: seq<Source>, bins: seq<Byte>, q: Pred, blocks: seq<Block>): Rebuilt
    requires |sources| == |parts| && |bins| == STAT_BINS && ValidBins(bins) && ValidDecPred(q)
    requires forall k :: 0 <= k < |parts| ==> ValidScan(parts[k].scan) && Fit(parts[k].layout, parts[k].scan, |blocks|)
  {
    if parts == [] then Blocks(blocks) else
      var scan, layout := parts[0].scan, parts[0].layout;
      var src := sources[0];
      assert Fit(layout, scan, |blocks|);
      if !Terminated(src.data, src.pos) then Failed else
        match DecodeScan(scan, src.data, DecStart(scan, src.data, src.pos, bins, q), Gather(blocks, layout))
        case Damaged => Failed
        case Mcus(mcus, bins1, q1) =>
          DecodeScript(parts[1..], sources[1..], bins1, q1, Scatter(blocks, layout, mcus))
  }

  /** The scan's targets, put where they belong, are what is seen after the scan. */
  lemma PartAdvances(part: Part, precs: seq<Precision>, image: seq<Block>)
    requires |precs| == |image| && LegalPart(part, precs) && ValidImage(image)
    ensures var now := SeenAll(image, precs);
      var mcus := AllTargets(part.scan, Gather(now, part.layout), Gather(image, part.layout));
      && |mcus| == |part.layout| && (forall m :: 0 <= m < |mcus| ==> |mcus[m]| == |part.layout[m]|)
      && Scatter(now, part.layout, mcus) == SeenAll(image, NextPrecisions(part, precs))
  {
    hide Target, Seen, Takes, ValidScan, Scatter;
    var now, next := SeenAll(image, precs), SeenAll(image, NextPrecisions(part, precs));
    var mcus := AllTargets(part.scan, Gather(now, part.layout), Gather(image, part.layout));
    forall m, i | 0 <= m < |part.layout| && 0 <= i < |part.layout[m]|
      ensures mcus[m][i] == next[part.layout[m][i]]
    {
      var b := part.layout[m][i];
      ScanAdvances(part.scan, precs[b], image[b]);
      TakenOne(part.layout, m, i);
    }
    forall b | 0 <= b < |image| ensures Scatter(now, part.layout, mcus)[b] == next[b] {
      ScatterImage(now, part.layout, mcus, next, b);
    }
  }

  lemma TakenOne(layout: Layout, m: nat, i: nat)
    requires m < |layout| && i < |layout[m]|
    ensures Takes(layout, layout[m][i])
  {
  }

  lemma {:induction false} ScriptValid(parts: seq<Part>, precs: seq<Precision>)
    requires LegalScript(parts, precs)
    ensures forall k :: 0 <= k < |parts| ==> ValidScan(parts[k].scan) && Fit(parts[k].layout, parts[k].scan, |precs|)
  {
    hide ValidScan, Fit, Distinct, LegalScan;
    if parts != [] {
      ScriptValid(parts[1..], NextPrecisions(parts[0], precs));
      forall k | 0 <= k < |parts| ensures ValidScan(parts[k].scan) && Fit(parts[k].layout, parts[k].scan, |precs|) {
        assert k > 0 ==> parts[k] == parts[1..][k - 1];
      }
    }
  }

  /** Decoding a script from any point: the blocks at their new precisions, exactly if all DC differences fit. */
  lemma {:induction false} ScriptDecoded(parts: seq<Part>, precs: seq<Precision>, sources: seq<Source>, bins: seq<Byte>,
                                         p: Pred, q: Pred, image: seq<Block>)
    requires |precs| == |image| && LegalScript(parts, precs)
    requires |bins| == STAT_BINS && ValidBins(bins) && Same(p, q) && ValidImage(image)
    requires Sent(sources, ScriptOutputs(parts, precs, bins, p, image))
    ensures forall k :: 0 <= k < |parts| ==> ValidScan(parts[k].scan) && Fit(parts[k].layout, parts[k].scan, |image|)
    ensures DecodeScript(parts, sources, bins, q, SeenAll(image, precs))
         == if ScriptFits(parts, precs, bins, p, image) then Blocks(SeenAll(image, FinalPrecisions(parts, precs))) else Failed
    decreases |parts|
  {
    hide DecodeScan, Output, Unstuff, Terminated, AllFit, Passed, ResetPred, ResetBins, Seen, Scatter, ValidScan, Distinct, LegalScan;
    ScriptValid(parts, precs);
    if parts != [] {
      var scan, layout := parts[0].scan, parts[0].layout;
      var src := sources[0];
      var now := Gather(SeenAll(image, precs), layout);
      var mcus := Gather(image, layout);
      var next := NextPrecisions(parts[0], precs);
      PartValid(parts[0], precs, image);
      var g := StartPass(scan, bins, p);
      var end := Passed(scan, g, mcus);
      var outs := ScriptOutputs(parts, precs, bins, p, image);
      var rest := ScriptOutputs(parts[1..], next, CurrentBins(scan, end), end.pred, image);
      assert outs == [Output(scan, g, mcus)] + rest;
      assert Carries(src, outs[0]);
      var marker: Byte, tail :|
        && marker != 0 && marker != 0xFF
        && src.data == src.data[..src.pos] + Output(scan, g, mcus) + [0xFF, marker] + tail;
      ScanRoundTrip(scan, src.data[..src.pos], bins, p, q, now, mcus, marker, tail);
      if AllFit(scan, g, mcus) {
        PartAdvances(parts[0], precs, image);
        ReducedSame(end.pred);
        SentRest(sources, outs, rest);
        ScriptDecoded(parts[1..], next, sources[1..], CurrentBins(scan, end), end.pred, Reduced16(end.pred), image);
      }
    }
  }

  lemma SentRest(sources: seq<Source>, outs: seq<seq<Byte>>, rest: seq<seq<Byte>>)
    requires Sent(sources, outs) && outs != [] && outs[1..] == rest
    ensures Sent(sources[1..], rest)
  {
    hide Carries;
    forall k | 0 <= k < |rest| ensures Carries(sources[1..][k], rest[k]) {
      assert Carries(sources[k + 1], outs[k + 1]);
    }
  }

  lemma ReducedSame(p: Pred)
    requires ValidPred(p)
    ensures Same(p, Reduced16(p))
  {
  }

  /**
   * Progressive exactness: decoding what the encoder sends for a legal script, from blocks of zeros, fails if some
   * DC difference does not fit. Otherwise it gives every block to the precision that the scans have taken it to,
   * and exactly where that is bit 0 of all coefficients.
   */
  lemma ProgressiveExact(parts: seq<Part>, sources: seq<Source>, bins: seq<Byte>, p: Pred, q: Pred, image: seq<Block>)
    requires |bins| == STAT_BINS && ValidBins(bins) && Same(p, q) && ValidImage(image)
    requires LegalScript(parts, seq(|image|, _ => Unseen()))
    requires Sent(sources, ScriptOutputs(parts, seq(|image|, _ => Unseen()), bins, p, image))
    ensures forall k :: 0 <= k < |parts| ==> ValidScan(parts[k].scan) && Fit(parts[k].layout, parts[k].scan, |image|)
    ensures var none := seq(|image|, _ => Unseen());
      var final := FinalPrecisions(parts, none);
      var r := DecodeScript(parts, sources, bins, q, seq(|image|, _ => ZeroBlock()));
      if !ScriptFits(parts, none, bins, p, image) then r == Failed
      else
        && r == Blocks(SeenAll(image, final))
        && forall b :: 0 <= b < |image| && Complete(final[b]) ==> r.blocks[b] == image[b]
  {
    hide DecodeScript, LegalScript, FinalPrecisions, ScriptOutputs, ScriptFits;
    var none: seq<Precision> := seq(|image|, _ => Unseen());
    ScriptDecoded(parts, none, sources, bins, p, q, image);
    forall b | 0 <= b < |image| ensures SeenAll(image, none)[b] == ZeroBlock() {
      assert Seen(image[b], none[b]) == ZeroBlock();
    }
    assert SeenAll(image, none) == seq(|image|, _ => ZeroBlock());
    var final := FinalPrecisions(parts, none);
    forall b | 0 <= b < |image| && Complete(final[b]) ensures SeenAll(image, final)[b] == image[b] {
      FullPrecision(image[b], final[b]);
    }
  }

  /** One block a MCU. */
  function Alone(n: nat): (layout: Layout)
    ensures |layout| == n && forall b :: 0 <= b < n ==> layout[b] == [b]
  {
    seq(n, b => [b])
  }

  function Band(base: Scan, ss: nat, se: nat, ah: nat, al: nat): Scan {
    base.(ss := ss, se := se, ah := ah, al := al)
  }

  /** DC and AC to bit 1, then the last bit of each. */
  function Usual(base: Scan, n: nat): seq<Part> {
    [Part(Band(base, 0, 0, 0, 1), Alone(n)), Part(Band(base, 1, 63, 0, 1), Alone(n)),
     Part(Band(base, 0, 0, 1, 0), Alone(n)), Part(Band(base, 1, 63, 1, 0), Alone(n))]
  }

  /** What is known of every block after `dc` bits of DC and `ac` bits of AC are left. */
  function Levels(n: nat, dc: int, ac: int): (precs: seq<Precision>)
    ensures |precs| == n
  {
    var level: Precision := [dc] + seq(63, _ => ac);
    seq(n, _ => level)
  }

  lemma ScriptStep(part: Part, rest: seq<Part>, precs: seq<Precision>, next: seq<Precision>)
    requires LegalPart(part, precs) && NextPrecisions(part, precs) == next && LegalScript(rest, next)
    ensures LegalScript([part] + rest, precs)
    ensures FinalPrecisions([part] + rest, precs) == FinalPrecisions(rest, next)
  {
    assert ([part] + rest)[1..] == rest;
  }

  lemma UsualStep(base: Scan, n: nat, dc: int, ac: int, scan: Scan)
    requires ValidScan(scan) && scan.progressive && scan.membership == [0]
    requires (scan.ss == scan.se == 0 && dc == if scan.ah == 0 then -1 else scan.ah)
          || (scan.ss == 1 && scan.se == 63 && ac == if scan.ah == 0 then -1 else scan.ah)
    ensures LegalPart(Part(scan, Alone(n)), Levels(n, dc, ac))
    ensures NextPrecisions(Part(scan, Alone(n)), Levels(n, dc, ac))
         == if scan.ss == 0 then Levels(n, scan.al, ac) else Levels(n, dc, scan.al)
  {
    hide ValidScan;
    var r := NextPrecisions(Part(scan, Alone(n)), Levels(n, dc, ac));
    var t := if scan.ss == 0 then Levels(n, scan.al, ac) else Levels(n, dc, scan.al);
    forall b | 0 <= b < n ensures r[b] == t[b] {
      TakenOne(Alone(n), b, 0);
    }
  }

  /** A script as encoders use it is legal, and takes every block to bit 0. */
  lemma UsualScript(base: Scan, n: nat)
    requires ValidScan(base) && base.progressive && |base.comps| == 1 && base.membership == [0]
    ensures LegalScript(Usual(base, n), seq(n, _ => Unseen()))
    ensures var final := FinalPrecisions(Usual(base, n), seq(n, _ => Unseen()));
      forall b :: 0 <= b < n ==> Complete(final[b])
  {
    hide LegalPart, NextPrecisions, ValidScan;
    var parts := Usual(base, n);
    forall b | 0 <= b < n ensures Unseen() == Levels(n, -1, -1)[b] {
    }
    assert seq(n, _ => Unseen()) == Levels(n, -1, -1);
    BandsValid(base);
    UsualStep(base, n, -1, -1, parts[0].scan);
    UsualStep(base, n, 1, -1, parts[1].scan);
    UsualStep(base, n, 1, 1, parts[2].scan);
    UsualStep(base, n, 0, 1, parts[3].scan);
    ScriptStep(parts[3], [], Levels(n, 0, 1), Levels(n, 0, 0));
    ScriptStep(parts[2], [parts[3]], Levels(n, 1, 1), Levels(n, 0, 1));
    ScriptStep(parts[1], [parts[2], parts[3]], Levels(n, 1, -1), Levels(n, 1, 1));
    ScriptStep(parts[0], [parts[1], parts[2], parts[3]], Levels(n, -1, -1), Levels(n, 1, -1));
    hide LegalScript, FinalPrecisions;
    assert [parts[2]] + [parts[3]] == [parts[2], parts[3]];
    assert [parts[1]] + [parts[2], parts[3]] == [parts[1], parts[2], parts[3]];
    assert [parts[0]] + [parts[1], parts[2], parts[3]] == parts;
    assert [parts[3]] + [] == [parts[3]];
  }

  lemma BandsValid(base: Scan)
    requires ValidScan(base) && base.progressive && |base.comps| == 1 && base.membership == [0]
    ensures ValidScan(Band(base, 0, 0, 0, 1)) && ValidScan(Band(base, 1, 63, 0, 1))
    ensures ValidScan(Band(base, 0, 0, 1, 0)) && ValidScan(Band(base, 1, 63, 1, 0))
  {
  }

  lemma HalvedRange(v: int, u: nat)
    requires u >= 2 && IsCoef(v)
    ensures -0x4000 <= v / u < 0x4000
  {
    var q := v / u;
    assert q * u <= v < q * u + u;
    assert (q + 1) * u == q * u + u;
    assert q >= 0x4000 ==> q * u >= 0x4000 * u;
    assert q + 1 <= -0x4000 ==> (q + 1) * u <= (-0x4000) * u;
  }

  /** With a point transform, or with DC values within 15 bits, every DC difference fits. */
  lemma DcFits(scan: Scan, p: Pred, i: nat, b: Block)
    requires ValidScan(scan) && ValidPred(p) && i < |scan.membership| && IsBlock(b)
    requires -0x4000 <= p.last[scan.membership[i]] <= 0x4000
    requires scan.al >= 1 || -0x4000 <= b[0] <= 0x4000
    ensures Fits(scan, p, i, b)
  {
    assert IsCoef(b[0]);
    if scan.al >= 1 {
      assert Pow2(scan.al) >= 2;
      HalvedRange(b[0], Pow2(scan.al));
    } else {
      assert Pow2(scan.al) == 1;
    }
  }

  /** Predictions within 15 bits. */
  ghost predicate Moderate(p: Pred) {
    |p.last| == MAX_COMPS_IN_SCAN && forall c :: 0 <= c < MAX_COMPS_IN_SCAN ==> -0x4000 <= p.last[c] <= 0x4000
  }

  ghost predicate ModerateMcu(scan: Scan, mcu: seq<Block>) {
    forall i :: 0 <= i < |mcu| ==> scan.al >= 1 || -0x4000 <= mcu[i][0] <= 0x4000
  }

  lemma BlockModerate(scan: Scan, p: Pred, i: nat, b: Block)
    requires ValidScan(scan) && ValidPred(p) && i < |scan.membership| && IsBlock(b) && Moderate(p)
    requires scan.al >= 1 || -0x4000 <= b[0] <= 0x4000
    ensures Fits(scan, p, i, b) && Moderate(BlockPred(scan, p, i, b))
  {
    DcFits(scan, p, i, b);
    assert IsCoef(b[0]);
    if scan.al >= 1 {
      assert Pow2(scan.al) >= 2;
      HalvedRange(b[0], Pow2(scan.al));
    } else {
      assert Pow2(scan.al) == 1;
    }
  }

  lemma {:induction false} McuModerate(scan: Scan, p: Pred, mcu: seq<Block>, i: nat)
    requires ValidScan(scan) && ValidPred(p) && ValidMcu(scan, mcu) && i <= |mcu|
    requires Moderate(p) && ModerateMcu(scan, mcu)
    ensures McuFits(scan, p, mcu, i) && Moderate(McuPred(scan, p, mcu, i))
    decreases |mcu| - i
  {
    hide ValidScan, BlockPred, Fits, Moderate;
    if i < |mcu| {
      BlockModerate(scan, p, i, mcu[i]);
      McuModerate(scan, BlockPred(scan, p, i, mcu[i]), mcu, i + 1);
    }
  }

  /** DC values within 15 bits, or a point transform, keep every scan within the decoder's range. */
  lemma {:induction false} ScanFits(scan: Scan, g: Pass, mcus: seq<seq<Block>>)
    requires ValidPass(scan, g) && Moderate(g.pred)
    requires forall m :: 0 <= m < |mcus| ==> ValidMcu(scan, mcus[m]) && ModerateMcu(scan, mcus[m])
    ensures AllFit(scan, g, mcus) && Moderate(Passed(scan, g, mcus).pred)
    decreases |mcus|, if RestartDue(scan, g.toGo) then 1 else 0
  {
    hide McuFits, McuPred, McuDecisions, ValidScan;
    if mcus != [] {
      if RestartDue(scan, g.toGo) {
        ScanFits(scan, Restarted(scan, g), mcus);
      } else {
        McuModerate(scan, g.pred, mcus[0], 0);
        ScanFits(scan, Coded(scan, g, mcus[0]), mcus[1..]);
      }
    }
  }

  /** So an image with DC values within 15 bits comes back from every legal script. */
  lemma {:induction false} ScriptInRange(parts: seq<Part>, precs: seq<Precision>, bins: seq<Byte>, p: Pred, image: seq<Block>)
    requires |precs| == |image| && LegalScript(parts, precs)
    requires |bins| == STAT_BINS && ValidBins(bins) && ValidPred(p) && ValidImage(image) && Moderate(p)
    requires forall b :: 0 <= b < |image| ==> -0x4000 <= image[b][0] <= 0x4000
    ensures ScriptFits(parts, precs, bins, p, image)
    decreases |parts|
  {
    hide AllFit, Passed, Moderate, ResetBins, ValidScan, Distinct, LegalScan;
    if parts != [] {
      var scan := parts[0].scan;
      var mcus := Gather(image, parts[0].layout);
      PartValid(parts[0], precs, image);
      ResetModerate(scan, p);
      var g := StartPass(scan, bins, p);
      ScanFits(scan, g, mcus);
      var end := Passed(scan, g, mcus);
      ScriptInRange(parts[1..], NextPrecisions(parts[0], precs), CurrentBins(scan, end), end.pred, image);
    }
  }

  lemma ResetModerate(scan: Scan, p: Pred)
    requires ValidScan(scan) && ValidPred(p) && Moderate(p)
    ensures Moderate(ResetPred(scan, p))
  {
  }
}
