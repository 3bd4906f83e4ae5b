/** A whole script of scans, written one after the other by one entropy encoder. */
module ScriptEncoder {
  import opened Coefficients
  import opened Bytes
  import opened QmInterval
  import opened ScanModel
  import opened ScanCodec
  import opened ScanEncoder
  import opened Progressive

  function Joined(outs: seq<seq<Byte>>): seq<Byte> {
    if outs == [] then [] else Joined(outs[..|outs| - 1]) + outs[|outs| - 1]
  }

  lemma JoinedSnoc(outs: seq<seq<Byte>>, out: seq<Byte>)
    ensures Joined(outs + [out]) == Joined(outs) + out
  {
    assert (outs + [out])[..|outs|] == outs;
  }

  /** Where the script stands: what is still to be sent, over the encoder's statistics and predictions. */
  ghost predicate OnScript(e: EntropyEncoder, parts: seq<Part>, precs: seq<Precision>, image: seq<Block>, rest: seq<seq<Byte>>)
    reads e, e.coder, e.coder.stats, e.lastDcVal, e.dcContext
  {
    && e.Idle() && |precs| == |image| && LegalScript(parts, precs) && ValidImage(image)
    && rest == ScriptOutputs(parts, precs, e.coder.stats[..], e.Predictions(), image)
  }

  /** One scan of it. */
  method EncodePart(e: EntropyEncoder, parts: seq<Part>, ghost precs: seq<Precision>, image: seq<Block>, ghost rest: seq<seq<Byte>>)
    requires parts != [] && OnScript(e, parts, precs, image, rest)
    modifies e, e.coder, e.coder.stats, e.lastDcVal, e.dcContext
    ensures rest != [] && e.coder.out == old(e.coder.out) + rest[0]
    ensures OnScript(e, parts[1..], NextPrecisions(parts[0], precs), image, rest[1..])
    ensures old(FixedSet(e.coder.stats[..])) ==> FixedSet(e.coder.stats[..])
  {
    hide Passed, StartPass, Output, LegalPart, NextPrecisions, FixedSet, ValidMcu, ValidScan;
    PartValid(parts[0], precs, image);
    assert ValidScan(parts[0].scan) && Fit(parts[0].layout, parts[0].scan, |precs|) by {
      ScriptValid(parts, precs);
    }
    e.EncodeScan(parts[0].scan, Gather(image, parts[0].layout));
  }

  /** Scan `k` of it. */
  method EncodeNth(e: EntropyEncoder, parts: seq<Part>, k: nat, ghost now: seq<Precision>, image: seq<Block>, ghost all: seq<seq<Byte>>)
    returns (out: seq<Byte>)
    requires k < |parts| == |all| && OnScript(e, parts[k..], now, image, all[k..])
    modifies e, e.coder, e.coder.stats, e.lastDcVal, e.dcContext
    ensures out == all[k] && e.coder.out == old(e.coder.out) + out
    ensures OnScript(e, parts[k + 1..], NextPrecisions(parts[k], now), image, all[k + 1..])
    ensures old(FixedSet(e.coder.stats[..])) ==> FixedSet(e.coder.stats[..])
  {
    hide OnScript, FixedSet, NextPrecisions;
    var written := |e.coder.out|;
    EncodePart(e, parts[k..], now, image, all[k..]);
    Steps(parts, k);
    Steps(all, k);
    out := e.coder.out[written..];
  }

  /** The bytes of each scan are those of the model, so `ProgressiveExact` tells what a decoder makes of them. */
  method EncodeScript(e: EntropyEncoder, parts: seq<Part>, ghost precs: seq<Precision>, image: seq<Block>)
    returns (outs: seq<seq<Byte>>)
    requires e.Idle() && |precs| == |image| && LegalScript(parts, precs) && ValidImage(image)
    modifies e, e.coder, e.coder.stats, e.lastDcVal, e.dcContext
    ensures e.Idle() && old(ValidBins(e.coder.stats[..])) && old(ValidPred(e.Predictions()))
    ensures outs == ScriptOutputs(parts, precs, old(e.coder.stats[..]), old(e.Predictions()), image)
    ensures e.coder.out == old(e.coder.out) + Joined(outs)
    ensures old(FixedSet(e.coder.stats[..])) ==> FixedSet(e.coder.stats[..])
  {
    ghost var all := ScriptOutputs(parts, precs, e.coder.stats[..], e.Predictions(), image);
    StartScript(e, parts, precs, image);
    outs := EncodeAll(e, parts, precs, image, all);
  }

  method EncodeAll(e: EntropyEncoder, parts: seq<Part>, ghost precs: seq<Precision>, image: seq<Block>, ghost all: seq<seq<Byte>>)
    returns (outs: seq<seq<Byte>>)
    requires OnScript(e, parts, precs, image, all) && |all| == |parts|
    modifies e, e.coder, e.coder.stats, e.lastDcVal, e.dcContext
    ensures e.Idle() && outs == all && e.coder.out == old(e.coder.out) + Joined(outs)
    ensures old(FixedSet(e.coder.stats[..])) ==> FixedSet(e.coder.stats[..])
  {
    hide OnScript, FixedSet, Joined, EntropyEncoder.Idle, NextPrecisions;
    ghost var now := precs;
    assert parts[0..] == parts && all[0..] == all && all[..0] == [];
    outs := [];
    NothingJoined(e.coder.out);
    for k := 0 to |parts|
      invariant outs == all[..k]
      invariant OnScript(e, parts[k..], now, image, all[k..])
      invariant e.coder.out == old(e.coder.out) + Joined(outs)
      invariant old(FixedSet(e.coder.stats[..])) ==> FixedSet(e.coder.stats[..])
    {
      var out := EncodeNth(e, parts, k, now, image, all);
      now := NextPrecisions(parts[k], now);
      Steps(all, k);
      JoinedSnoc(outs, out);
      outs := outs + [out];
    }
    StillIdle(e, parts[|parts|..], now, image, all[|parts|..]);
    assert all[..|parts|] == all;
  }

  lemma StartScript(e: EntropyEncoder, parts: seq<Part>, precs: seq<Precision>, image: seq<Block>)
    requires e.Idle() && |precs| == |image| && LegalScript(parts, precs) && ValidImage(image)
    ensures OnScript(e, parts, precs, image, ScriptOutputs(parts, precs, e.coder.stats[..], e.Predictions(), image))
  {
  }

  lemma NothingJoined(out: seq<Byte>)
    ensures out + Joined([]) == out
  {
  }

  lemma Steps<T>(s: seq<T>, k: nat)
    requires k < |s|
    ensures s[k..][1..] == s[k + 1..] && s[k..][0] == s[k] && s[..k + 1] == s[..k] + [s[k]]
  {
  }

  lemma StillIdle(e: EntropyEncoder, parts: seq<Part>, precs: seq<Precision>, image: seq<Block>, rest: seq<seq<Byte>>)
    requires OnScript(e, parts, precs, image, rest)
    ensures e.Idle()
  {
  }
}
