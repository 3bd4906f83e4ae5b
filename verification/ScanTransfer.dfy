/** A scan through the encoder's and the decoder's registers. */
module ScanTransfer {
  import opened Coefficients
  import opened Bytes
  import opened ArithDecoder
  import opened ScanModel
  import opened ScanCodec
  import opened StatAreas
  import opened ScanEncoder
  import opened ScanDecoder

  /** The blocks of a whole image: arrays of 64, none of them twice. */
  ghost predicate Image(scan: Scan, image: seq<seq<array<int>>>) {
    && (forall m :: 0 <= m < |image| ==> |image[m]| == |scan.membership|)
    && (forall m, i :: 0 <= m < |image| && 0 <= i < |image[m]| ==> image[m][i].Length == 64)
    && (forall m, i, j :: 0 <= m < |image| && 0 <= i < j < |image[m]| ==> image[m][i] != image[m][j])
    && forall m, n, i, j :: 0 <= m < n < |image| && 0 <= i < |image[m]| && 0 <= j < |image[n]| ==> image[m][i] != image[n][j]
  }

  /** The first pass of an encoder. */
  function FirstPass(scan: Scan): (g: Pass)
    requires ValidScan(scan)
    ensures ValidPass(scan, g)
  {
    InitialValid();
    StartPass(scan, InitialBins(), InitialPred())
  }

  /** The first pass of a decoder. */
  function FirstDecPass(scan: Scan, data: seq<Byte>): (g: DecPass)
    requires ValidScan(scan) && Terminated(data, 0)
    ensures ValidDecPass(scan, data, g)
  {
    InitialValid();
    DecStart(scan, data, 0, InitialBins(), InitialPred())
  }

  method SendScan(scan: Scan, mcus: seq<seq<Block>>) returns (e: EntropyEncoder)
    requires ValidScan(scan) && forall i :: 0 <= i < |mcus| ==> ValidMcu(scan, mcus[i])
    ensures fresh(e) && e.coder.out == Output(scan, FirstPass(scan), mcus)
    ensures var g := Passed(scan, FirstPass(scan), mcus);
      e.coder.stats[..] == CurrentBins(scan, g) && e.Predictions() == g.pred
  {
    hide Output, StartPass, Passed, InitialBins, InitialPred, ValidScan, ValidMcu, FixedSet;
    InitialValid();
    e := new EntropyEncoder(scan);
    e.EncodeScan(scan, mcus);
  }

  method ReceiveScan(scan: Scan, data: seq<Byte>, image: seq<seq<array<int>>>) returns (ok: bool, d: EntropyDecoder)
    requires ValidScan(scan) && Terminated(data, 0) && Image(scan, image)
    modifies set m, b | m in image && b in m :: b
    ensures DecodeScan(scan, data, FirstDecPass(scan, data), old(AllCoefs(image)))
      == if ok then Mcus(AllCoefs(image), d.coder.stats[..], d.Predictions()) else Damaged
  {
    hide Terminated, AllCoefs, DecodeScan, InitialBins, InitialPred, ValidScan;
    InitialValid();
    d := new EntropyDecoder(data, 0, scan);
    d.StartPass(scan, 0);
    ok := d.DecodeScan(image);
  }

  /** What happens to the MCUs of a scan. */
  ghost predicate Arrived(scan: Scan, befores: seq<seq<Block>>, mcus: seq<seq<Block>>, ok: bool, afters: seq<seq<Block>>)
    requires ValidScan(scan) && AllValid(scan, befores, mcus)
  {
    && (ok <==> AllFit(scan, FirstPass(scan), mcus))
    && (ok ==> afters == AllTargets(scan, befores, mcus))
  }

  /** MCUs sent before a marker arrive in the blocks of `image` if and only if all their DC differences fit. */
  method SendAndReceiveScan(scan: Scan, mcus: seq<seq<Block>>, image: seq<seq<array<int>>>, marker: Byte, tail: seq<Byte>)
      returns (ok: bool, e: EntropyEncoder, d: EntropyDecoder)
    requires ValidScan(scan) && marker != 0 && marker != 0xFF
    requires Image(scan, image) && AllValid(scan, AllCoefs(image), mcus)
    modifies set m, b | m in image && b in m :: b
    ensures Arrived(scan, old(AllCoefs(image)), mcus, ok, AllCoefs(image))
    ensures ok ==> d.coder.stats[..] == e.coder.stats[..] && |e.Predictions().last| == |e.Predictions().ctx| == MAX_COMPS_IN_SCAN
    ensures ok ==> d.Predictions() == Reduced16(e.Predictions())
  {
    hide Output, AllFit, StartPass, Terminated, Passed, AllCoefs, AllTargets, DecodeScan, DecStart, InitialBins, InitialPred;
    InitialValid();
    e := SendScan(scan, mcus);
    ghost var befores := AllCoefs(image);
    ScanRoundTrip(scan, [], InitialBins(), InitialPred(), InitialPred(), befores, mcus, marker, tail);
    assert [] + e.coder.out == e.coder.out;
    ok, d := ReceiveScan(scan, e.coder.out + [0xFF, marker] + tail, image);
  }
}
