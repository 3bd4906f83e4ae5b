/** The decoder of Annex D of T.81 as a function, and the round trip through the coder. */
module QmRoundTrip {
  import opened Bytes
  import opened QmInterval
  import opened QmTermination
  import opened ArithEncoder
  import opened ArithDecoder

  /** A decoder: the interval it has followed so far and the code string it reads. */
  datatype Dec = Dec(k: Coder, code: seq<Byte>)

  function Bit(d: Dec, bin: nat): (val: nat)
    requires Valid(d.k) && bin < |d.k.bins|
    ensures val <= 1
  {
    NextBit(d.k, d.code, bin)
  }

  function Advance(d: Dec, bin: nat): (r: Dec)
    requires Valid(d.k) && bin < |d.k.bins|
    ensures Valid(r.k) && |r.k.bins| == |d.k.bins|
  {
    StepValid(d.k, Decision(bin, Bit(d, bin)));
    d.(k := Step(d.k, Decision(bin, Bit(d, bin))))
  }

  /** The code string of `d` holds the decisions `ds` next. */
  ghost predicate Follows(d: Dec, ds: seq<Decision>) {
    Valid(d.k) && Codable(d.k.bins, ds) && Contained(Run(d.k, ds), d.code)
  }

  lemma FollowOne(d: Dec, x: Decision, rest: seq<Decision>)
    requires Follows(d, [x] + rest)
    ensures Bit(d, x.bin) == x.val
    ensures Follows(Advance(d, x.bin), rest)
    ensures Advance(d, x.bin).k == Step(d.k, x)
  {
    var ds := [x] + rest;
    assert ds[0] == x && ds[1..] == rest;
    StepValid(d.k, x);
    RunNested(d.k, ds, d.code);
    RunNested(Step(d.k, x), rest, d.code);
    NextBitExact(d.k, d.code, x);
  }

  /** What the encoder sends for decisions `log + ds` is followed by a decoder that has read `log`. */
  lemma SegmentFollows(bins: seq<Byte>, log: seq<Decision>, ds: seq<Decision>)
    requires ValidBins(bins) && Codable(bins, log) && Codable(bins, ds)
    ensures Valid(Start(bins)) && Codable(bins, log + ds)
    ensures Follows(Dec(Run(Start(bins), log), Payload(Run(Start(bins), log + ds))), ds)
  {
    StartValid(bins);
    RunConcat(Start(bins), log, ds);
    PayloadContained(Run(Start(bins), log + ds));
  }

  // ---------------------------------------------------------------------------
  // Decisions under an adaptive choice of bins
  // ---------------------------------------------------------------------------

  /** The decisions for `vals`, the bin of each chosen by `rule` from the values before it. */
  function Adaptive(rule: seq<nat> -> nat, past: seq<nat>, vals: seq<nat>): (ds: seq<Decision>)
    ensures |ds| == |vals|
    decreases |vals|
  {
    if vals == [] then [] else
      [Decision(rule(past), vals[0])] + Adaptive(rule, past + [vals[0]], vals[1..])
  }

  /** Decoding `n` values under the same rule. */
  function DecodeAdaptive(d: Dec, rule: seq<nat> -> nat, past: seq<nat>, n: nat): (r: (seq<nat>, Dec))
    requires Valid(d.k) && forall p :: rule(p) < |d.k.bins|
    decreases n
  {
    if n == 0 then ([], d) else
      var b := Bit(d, rule(past));
      var r := DecodeAdaptive(Advance(d, rule(past)), rule, past + [b], n - 1);
      ([b] + r.0, r.1)
  }

  lemma {:induction false} AdaptiveFollowed(d: Dec, rule: seq<nat> -> nat, past: seq<nat>, vals: seq<nat>)
    requires Valid(d.k) && forall p :: rule(p) < |d.k.bins|
    requires Follows(d, Adaptive(rule, past, vals))
    ensures DecodeAdaptive(d, rule, past, |vals|) == (vals, d.(k := Run(d.k, Adaptive(rule, past, vals))))
    decreases |vals|
  {
    hide Follows, NextBit, Step, Bit;
    var ds := Adaptive(rule, past, vals);
    if vals != [] {
      var rest := Adaptive(rule, past + [vals[0]], vals[1..]);
      assert ds == [ds[0]] + rest && ds[1..] == rest;
      FollowOne(d, ds[0], rest);
      AdaptiveFollowed(Advance(d, ds[0].bin), rule, past + [vals[0]], vals[1..]);
      assert vals == [vals[0]] + vals[1..];
    }
  }

  /**
   * The round trip: whatever was written before, whatever marker follows, and however
   * the bins depend on past values, the decoder started on the bytes of the coder
   * returns exactly the values and ends with the coder's interval and bins.
   */
  lemma CoderRoundTrip(pre: seq<Byte>, bins: seq<Byte>, rule: seq<nat> -> nat, vals: seq<nat>,
                       marker: Byte, tail: seq<Byte>)
    requires ValidBins(bins) && forall p :: rule(p) < |bins|
    requires forall i :: 0 <= i < |vals| ==> vals[i] <= 1
    requires marker != 0 && marker != 0xFF
    ensures Codable(bins, Adaptive(rule, [], vals)) && Valid(Start(bins))
    ensures var ds := Adaptive(rule, [], vals);
      var data := pre + Segment(bins, ds) + [0xFF, marker] + tail;
      && Terminated(data, |pre|)
      && DecodeAdaptive(Dec(Start(bins), Unstuff(data, |pre|)), rule, [], |vals|)
         == (vals, Dec(Run(Start(bins), ds), Unstuff(data, |pre|)))
  {
    var ds := Adaptive(rule, [], vals);
    AdaptiveCodable(bins, rule, [], vals);
    SegmentFollows(bins, [], ds);
    assert [] + ds == ds;
    UnstuffStuff(pre, Payload(Run(Start(bins), ds)), marker, tail);
    AdaptiveFollowed(Dec(Start(bins), Payload(Run(Start(bins), ds))), rule, [], vals);
  }

  lemma {:induction false} AdaptiveCodable(bins: seq<Byte>, rule: seq<nat> -> nat, past: seq<nat>, vals: seq<nat>)
    requires forall p :: rule(p) < |bins|
    requires forall i :: 0 <= i < |vals| ==> vals[i] <= 1
    ensures Codable(bins, Adaptive(rule, past, vals))
    decreases |vals|
  {
    if vals != [] {
      AdaptiveCodable(bins, rule, past + [vals[0]], vals[1..]);
    }
  }

  // ---------------------------------------------------------------------------
  // The two register-level coders end to end
  // ---------------------------------------------------------------------------

  lemma {:induction false} AdaptiveSnoc(rule: seq<nat> -> nat, past: seq<nat>, vals: seq<nat>, v: nat)
    ensures Adaptive(rule, past, vals + [v]) == Adaptive(rule, past, vals) + [Decision(rule(past + vals), v)]
    decreases |vals|
  {
    if vals == [] {
      assert past + [] == past && [v][1..] == [];
    } else {
      AdaptiveSnoc(rule, past + [vals[0]], vals[1..], v);
      assert (vals + [v])[1..] == vals[1..] + [v];
      assert past + [vals[0]] + vals[1..] == past + vals;
    }
  }

  method Send(stats: array<Byte>, rule: seq<nat> -> nat, vals: seq<nat>) returns (sent: seq<Byte>)
    requires ValidBins(stats[..]) && forall p :: rule(p) < stats.Length
    requires forall i :: 0 <= i < |vals| ==> vals[i] <= 1
    modifies stats
    ensures Codable(old(stats[..]), Adaptive(rule, [], vals))
    ensures sent == Segment(old(stats[..]), Adaptive(rule, [], vals))
    ensures Valid(Start(old(stats[..]))) && stats[..] == Run(Start(old(stats[..])), Adaptive(rule, [], vals)).bins
  {
    hide Encoder.Valid, Segment;
    var e := new Encoder(stats);
    ghost var bins := stats[..];
    AdaptiveCodable(bins, rule, [], vals);
    for i := 0 to |vals|
      invariant e.Valid() && e.bins0 == bins && e.prior == [] && e.stats == stats
      invariant e.log == Adaptive(rule, [], vals[..i])
    {
      AdaptiveSnoc(rule, [], vals[..i], vals[i]);
      assert vals[..i + 1] == vals[..i] + [vals[i]] && [] + vals[..i] == vals[..i];
      e.Encode(rule(vals[..i]), vals[i]);
    }
    assert vals[..|vals|] == vals;
    StatsSent(e);
    e.FinishPass();
    sent := e.out;
  }

  lemma StatsSent(e: Encoder)
    requires e.Valid()
    ensures ValidBins(e.bins0) && Codable(e.bins0, e.log) && Valid(Start(e.bins0))
    ensures e.stats[..] == Run(Start(e.bins0), e.log).bins
  {
  }

  /** The decisions `ds` lie ahead of the decoder and lead to `end`. */
  ghost predicate Ahead(d: Dec, ds: seq<Decision>, end: Coder) {
    Follows(d, ds) && Run(d.k, ds) == end
  }

  /** The decoder's values are those that the segment at `pos` was made of. */
  method Receive(data: seq<Byte>, pos: nat, stats: array<Byte>, rule: seq<nat> -> nat, n: nat,
                 ghost vals: seq<nat>, ghost end: Coder) returns (got: seq<nat>)
    requires ValidBins(stats[..]) && (forall p :: rule(p) < stats.Length) && Terminated(data, pos)
    requires n == |vals| && Ahead(Dec(Start(stats[..]), Unstuff(data, pos)), Adaptive(rule, [], vals), end)
    modifies stats
    ensures got == vals && stats[..] == end.bins
  {
    hide Decoder.Valid, Ahead, Unstuff, Terminated, Adaptive, Step, NextBit;
    ghost var code := Unstuff(data, pos);
    var d := new Decoder(data, pos, stats);
    got := [];
    EmptyPrefix(rule, vals);
    for i := 0 to n
      invariant got == vals[..i] && d.Valid() && d.code == code && d.stats == stats
      invariant QmInterval.Valid(d.interval) && |d.interval.bins| == stats.Length
      invariant Ahead(Dec(d.interval, code), Adaptive(rule, vals[..i], vals[i..]), end)
    {
      NextAhead(Dec(d.interval, code), rule, vals, i, end);
      var v := d.Decode(rule(got));
      got := got + [v];
      assert vals[..i + 1] == vals[..i] + [vals[i]];
    }
    AllReceived(Dec(d.interval, code), rule, vals, end);
    StatsOf(d);
  }

  lemma StatsOf(d: Decoder)
    requires d.Valid()
    ensures d.stats[..] == d.interval.bins
  {
  }

  lemma AllReceived(d: Dec, rule: seq<nat> -> nat, vals: seq<nat>, end: Coder)
    requires Ahead(d, Adaptive(rule, vals[..|vals|], vals[|vals|..]), end)
    ensures vals[..|vals|] == vals && d.k == end
  {
  }

  lemma EmptyPrefix(rule: seq<nat> -> nat, vals: seq<nat>)
    ensures Adaptive(rule, vals[..0], vals[0..]) == Adaptive(rule, [], vals)
  {
    assert vals[..0] == [] && vals[0..] == vals;
  }

  lemma NextAhead(d: Dec, rule: seq<nat> -> nat, vals: seq<nat>, i: nat, end: Coder)
    requires i < |vals| && Valid(d.k) && rule(vals[..i]) < |d.k.bins|
    requires Ahead(d, Adaptive(rule, vals[..i], vals[i..]), end)
    ensures NextBit(d.k, d.code, rule(vals[..i])) == vals[i]
    ensures var k := Step(d.k, Decision(rule(vals[..i]), vals[i]));
      && Valid(k) && |k.bins| == |d.k.bins|
      && Ahead(Dec(k, d.code), Adaptive(rule, vals[..i + 1], vals[i + 1..]), end)
  {
    var x := Decision(rule(vals[..i]), vals[i]);
    var rest := Adaptive(rule, vals[..i + 1], vals[i + 1..]);
    assert vals[i..][0] == vals[i] && vals[i..][1..] == vals[i + 1..] && vals[..i] + [vals[i]] == vals[..i + 1];
    assert Adaptive(rule, vals[..i], vals[i..]) == [x] + rest;
    FollowOne(d, x, rest);
    StepValid(d.k, x);
  }

  /** What was sent before a marker lies ahead of a decoder that starts there. */
  lemma SentAhead(bins: seq<Byte>, ds: seq<Decision>, marker: Byte)
    requires ValidBins(bins) && Codable(bins, ds) && marker != 0 && marker != 0xFF
    ensures var data := Segment(bins, ds) + [0xFF, marker];
      && Terminated(data, 0) && Valid(Start(bins))
      && Ahead(Dec(Start(bins), Unstuff(data, 0)), ds, Run(Start(bins), ds))
  {
    StartValid(bins);
    SegmentFollows(bins, [], ds);
    assert [] + ds == ds;
    UnstuffStuff([], Payload(Run(Start(bins), ds)), marker, []);
    assert [] + Segment(bins, ds) + [0xFF, marker] + [] == Segment(bins, ds) + [0xFF, marker];
  }

  /** What the encoder sends before a marker, the decoder receives, and their statistics end up the same. */
  method SendAndReceive(bins: seq<Byte>, rule: seq<nat> -> nat, vals: seq<nat>, marker: Byte)
    returns (got: seq<nat>, mine: array<Byte>, theirs: array<Byte>)
    requires ValidBins(bins) && forall p :: rule(p) < |bins|
    requires forall i :: 0 <= i < |vals| ==> vals[i] <= 1
    requires marker != 0 && marker != 0xFF
    ensures got == vals && mine[..] == theirs[..]
  {
    hide Segment, Run, Unstuff, Terminated, Ahead;
    mine := new Byte[|bins|](i requires 0 <= i < |bins| => bins[i]);
    theirs := new Byte[|bins|](i requires 0 <= i < |bins| => bins[i]);
    assert mine[..] == bins && theirs[..] == bins;
    var sent := Send(mine, rule, vals);
    ghost var ds := Adaptive(rule, [], vals);
    SentAhead(bins, ds, marker);
    got := Receive(sent + [0xFF, marker], 0, theirs, rule, |vals|, vals, Run(Start(bins), ds));
  }
}
