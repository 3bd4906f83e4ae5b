/**
 * The adaptive binary interval coder of Annex D of T.81 on unbounded integers: a
 * coder that never outputs a byte. The register-level coders refine it.
 */
module QmInterval {
  import opened Arith
  import opened Bytes
  import opened QmTable

  /** One binary decision `val`, coded with the statistics bin `bin`. */
  datatype Decision = Decision(bin: nat, val: nat)

  /**
   * The coding interval [low, low + width) after `shifts` renormalization shifts, a
   * subinterval of [0, 2^(16 + shifts)), and the statistics bins.
   */
  datatype Coder = Coder(low: nat, width: nat, shifts: nat, bins: seq<Byte>)

  ghost predicate ValidBins(bins: seq<Byte>) {
    forall i :: 0 <= i < |bins| ==> ValidBin(bins[i])
  }

  ghost predicate Valid(k: Coder) {
    && 0x8000 <= k.width <= 0x10000
    && k.low + k.width <= Pow2(16 + k.shifts)
    && ValidBins(k.bins)
  }

  /** Decisions a coder with these bins can code. */
  ghost predicate Codable(bins: seq<Byte>, ds: seq<Decision>) {
    forall i :: 0 <= i < |ds| ==> ds[i].bin < |bins| && ds[i].val <= 1
  }

  function Start(bins: seq<Byte>): Coder {
    Coder(0, 0x10000, 0, bins)
  }

  /** The width left for the lower subinterval. */
  function Rest(k: Coder, bin: nat): (rest: nat)
    requires Valid(k) && bin < |k.bins|
    ensures 0x24EE <= rest < k.width && rest == k.width - Qe(k.bins[bin])
  {
    TableClosed(k.bins[bin]);
    k.width - Qe(k.bins[bin])
  }

  /** The more probable symbol has the lower subinterval unless that one is narrower. */
  predicate Exchanged(k: Coder, bin: nat)
    requires Valid(k) && bin < |k.bins|
  {
    Rest(k, bin) < Qe(k.bins[bin])
  }

  /** The subinterval of the lower or of the upper part, before renormalization. */
  function Cut(k: Coder, bin: nat, upper: bool): (r: Coder)
    requires Valid(k) && bin < |k.bins|
    ensures 0 < r.width && r.shifts == k.shifts
    ensures k.low <= r.low && r.low + r.width <= k.low + k.width
  {
    var rest := Rest(k, bin);
    TableClosed(k.bins[bin]);
    if upper then k.(low := k.low + rest, width := k.width - rest) else k.(width := rest)
  }

  /** Probability estimation: only a symbol that forces renormalization moves a bin. */
  function Estimate(k: Coder, bin: nat, val: nat): Byte
    requires Valid(k) && bin < |k.bins|
  {
    var sv := k.bins[bin];
    if val != Mps(sv) then AfterLps(sv)
    else if Rest(k, bin) >= 0x8000 then sv
    else AfterMps(sv)
  }

  /** Coding one decision, before renormalization. */
  function Narrow(k: Coder, d: Decision): (r: Coder)
    requires Valid(k) && d.bin < |k.bins|
    ensures 0 < r.width && r.shifts == k.shifts && |r.bins| == |k.bins|
    ensures k.low <= r.low && r.low + r.width <= k.low + k.width
  {
    var upper := (d.val == Mps(k.bins[d.bin])) == Exchanged(k, d.bin);
    Cut(k, d.bin, upper).(bins := k.bins[d.bin := Estimate(k, d.bin, d.val)])
  }

  /**
   * The two symbols share the interval: the more probable one has the wider part, and that is the lower part unless
   * Qe is more than half of the width (section D.1.4 of T.81, with conditional exchange).
   */
  lemma SymbolParts(k: Coder, bin: nat)
    requires Valid(k) && bin < |k.bins|
    ensures var mps := Mps(k.bins[bin]); var qe := Qe(k.bins[bin]);
      var m, l := Narrow(k, Decision(bin, mps)), Narrow(k, Decision(bin, 1 - mps));
      && m.width >= l.width > 0 && m.width + l.width == k.width && (m.width == qe || l.width == qe)
      && (if k.width - qe >= qe then m.low == k.low && l.low == k.low + m.width
          else l.low == k.low && m.low == k.low + l.width)
  {
    hide Qe, AfterLps, AfterMps;
    TableClosed(k.bins[bin]);
  }

  /** The estimate moves after each less probable symbol, and after a more probable one if the width falls below 0x8000. */
  lemma EstimateRows(k: Coder, bin: nat, val: nat)
    requires Valid(k) && bin < |k.bins| && val <= 1
    ensures var sv := k.bins[bin]; var row := RowOf(sv); var mps := sv / 0x80;
      var after := Narrow(k, Decision(bin, val)).bins;
      && Qe(sv) == row.qe && Mps(sv) == mps
      && after == k.bins[bin := after[bin]]
      && after[bin]
         == if val != mps then (if row.switchMps == 1 then 1 - mps else mps) * 0x80 + row.nextLps
            else if k.width - row.qe >= 0x8000 then sv
            else mps * 0x80 + row.nextMps
  {
    hide RowOf, AfterLps, AfterMps, Qe;
    RowFields(k.bins[bin]);
  }

  /** Doubling until the width is at least 0x8000. */
  function Renorm(k: Coder): (r: Coder)
    requires k.width > 0
    ensures r.width >= 0x8000 && r.bins == k.bins && r.shifts >= k.shifts
    ensures k.width <= 0x10000 ==> r.width <= 0x10000
    decreases 0x8000 - k.width
  {
    if k.width >= 0x8000 then k
    else Renorm(k.(low := 2 * k.low, width := 2 * k.width, shifts := k.shifts + 1))
  }

  /** As often as needed, and no more. */
  lemma {:induction false} RenormLeast(k: Coder) returns (n: nat)
    requires k.width > 0
    ensures Renorm(k) == k.(low := k.low * Pow2(n), width := k.width * Pow2(n), shifts := k.shifts + n)
    ensures k.width * Pow2(n) >= 0x8000 && (n > 0 ==> k.width * Pow2(n - 1) < 0x8000)
    decreases 0x8000 - k.width
  {
    if k.width >= 0x8000 {
      n := 0;
      assert Pow2(0) == 1;
    } else {
      var m := RenormLeast(k.(low := 2 * k.low, width := 2 * k.width, shifts := k.shifts + 1));
      n := m + 1;
      MulAssoc(k.low, 2, Pow2(m));
      MulAssoc(k.width, 2, Pow2(m));
      if m > 0 {
        MulAssoc(k.width, 2, Pow2(m - 1));
      } else {
        assert Pow2(0) == 1;
      }
    }
  }

  function Step(k: Coder, d: Decision): Coder
    requires Valid(k) && d.bin < |k.bins|
  {
    Renorm(Narrow(k, d))
  }

  lemma {:induction false} RenormFits(k: Coder)
    requires k.width > 0 && k.low + k.width <= Pow2(16 + k.shifts)
    ensures Renorm(k).low + Renorm(k).width <= Pow2(16 + Renorm(k).shifts)
    decreases 0x8000 - k.width
  {
    if k.width < 0x8000 {
      RenormFits(k.(low := 2 * k.low, width := 2 * k.width, shifts := k.shifts + 1));
    }
  }

  lemma StepValid(k: Coder, d: Decision)
    requires Valid(k) && d.bin < |k.bins|
    ensures Valid(Step(k, d)) && |Step(k, d).bins| == |k.bins|
  {
    TableClosed(k.bins[d.bin]);
    RenormFits(Narrow(k, d));
  }

  /** Renormalization stops within `n` shifts when the width is at least 2^(15-n). */
  lemma {:induction false} RenormShifts(k: Coder, n: nat)
    requires k.width > 0 && k.width * Pow2(n) >= 0x8000
    ensures Renorm(k).shifts <= k.shifts + n
    decreases n
  {
    if k.width < 0x8000 {
      assert n > 0 by { assert Pow2(0) == 1; }
      assert (2 * k.width) * Pow2(n - 1) == k.width * Pow2(n);
      RenormShifts(k.(low := 2 * k.low, width := 2 * k.width, shifts := k.shifts + 1), n - 1);
    }
  }

  /** One decision costs at most 15 shifts, since Qe is never 0. */
  lemma StepShifts(k: Coder, d: Decision)
    requires Valid(k) && d.bin < |k.bins|
    ensures k.shifts <= Step(k, d).shifts <= k.shifts + 15
  {
    Pow2Table();
    RenormShifts(Narrow(k, d), 15);
  }

  /** Coding a sequence of decisions. */
  function Run(k: Coder, ds: seq<Decision>): (r: Coder)
    requires Valid(k) && Codable(k.bins, ds)
    ensures Valid(r) && |r.bins| == |k.bins| && r.shifts >= k.shifts
    decreases |ds|
  {
    if ds == [] then k else
      StepValid(k, ds[0]);
      Run(Step(k, ds[0]), ds[1..])
  }

  /** A bin in the fixed entry 113 stays there, whatever is coded. */
  lemma StepFixed(k: Coder, d: Decision, bin: nat)
    requires Valid(k) && d.bin < |k.bins| && bin < |k.bins| && k.bins[bin] % 0x80 == 113
    ensures bin < |Step(k, d).bins| && Step(k, d).bins[bin] == k.bins[bin]
  {
    hide Qe, AfterLps, AfterMps;
    TableClosed(k.bins[d.bin]);
    RenormBins(Narrow(k, d));
  }

  lemma {:induction false} RenormBins(k: Coder)
    requires k.width > 0
    ensures Renorm(k).bins == k.bins
    decreases 0x8000 - k.width
  {
    if k.width < 0x8000 {
      RenormBins(k.(low := 2 * k.low, width := 2 * k.width, shifts := k.shifts + 1));
    }
  }

  lemma {:induction false} RunFixed(k: Coder, ds: seq<Decision>, bin: nat)
    requires Valid(k) && Codable(k.bins, ds) && bin < |k.bins| && k.bins[bin] % 0x80 == 113
    ensures Run(k, ds).bins[bin] == k.bins[bin]
    decreases |ds|
  {
    hide Step;
    if ds != [] {
      StepValid(k, ds[0]);
      StepFixed(k, ds[0], bin);
      RunFixed(Step(k, ds[0]), ds[1..], bin);
    }
  }

  lemma {:induction false} RunConcat(k: Coder, a: seq<Decision>, b: seq<Decision>)
    requires Valid(k) && Codable(k.bins, a) && Codable(k.bins, b)
    ensures Codable(k.bins, a + b)
    ensures Run(k, a + b) == Run(Run(k, a), b)
    decreases |a|
  {
    if a == [] {
      assert a + b == b;
    } else {
      StepValid(k, a[0]);
      assert (a + b)[1..] == a[1..] + b;
      RunConcat(Step(k, a[0]), a[1..], b);
    }
  }

  lemma RunSnoc(k: Coder, ds: seq<Decision>, d: Decision)
    requires Valid(k) && Codable(k.bins, ds) && d.bin < |k.bins| && d.val <= 1
    ensures Codable(k.bins, ds + [d])
    ensures Run(k, ds + [d]) == Step(Run(k, ds), d)
  {
    RunConcat(k, ds, [d]);
    StepValid(Run(k, ds), d);
    assert [d][1..] == [];
  }

  // ---------------------------------------------------------------------------
  // Code strings inside an interval
  // ---------------------------------------------------------------------------

  /** The fewest bytes that hold all the bits the interval has been shifted by. */
  function BytesFor(shifts: nat): (m: nat)
    ensures 16 + shifts <= 8 * m < 24 + shifts
  {
    (16 + shifts + 7) / 8
  }

  /** The weight of one unit of `low` in the number written by `m` bytes. */
  function Unit(shifts: nat, m: nat): (u: nat)
    requires 16 + shifts <= 8 * m
    ensures u > 0
  {
    Pow2(8 * m - 16 - shifts)
  }

  /** The zero-extended code string `s`, cut after `m` bytes, lies in the interval. */
  predicate ContainedAt(k: Coder, s: seq<Byte>, m: nat)
    requires 16 + k.shifts <= 8 * m
  {
    k.low * Unit(k.shifts, m) <= Prefix(s, m) < (k.low + k.width) * Unit(k.shifts, m)
  }

  /** The zero-extended code string `s`, as a binary fraction, lies in the interval. */
  predicate Contained(k: Coder, s: seq<Byte>) {
    ContainedAt(k, s, BytesFor(k.shifts))
  }

  /** One more base-256 digit on both sides. */
  lemma NextDigit(a: nat, u: nat, p: nat, b: Byte)
    ensures a * u <= p <==> a * (256 * u) <= 256 * p + b
    ensures p < a * u <==> 256 * p + b < a * (256 * u)
  {
    MulSwap(a, 256, u);
  }

  lemma UnitNext(shifts: nat, m: nat)
    requires 16 + shifts <= 8 * m
    ensures Unit(shifts, m + 1) == 256 * Unit(shifts, m)
  {
    Pow2Add(8 * m - 16 - shifts, 8);
    assert Pow2(8) == 0x100;
  }

  lemma ContainedNext(k: Coder, s: seq<Byte>, m: nat)
    requires 16 + k.shifts <= 8 * m
    ensures ContainedAt(k, s, m + 1) <==> ContainedAt(k, s, m)
  {
    assert Prefix(s, m + 1) == 256 * Prefix(s, m) + At(s, m);
    UnitNext(k.shifts, m);
    hide Prefix, Unit, At;
    var u := Unit(k.shifts, m);
    NextDigit(k.low, u, Prefix(s, m), At(s, m));
    NextDigit(k.low + k.width, u, Prefix(s, m), At(s, m));
  }

  /** Looking at more bytes changes nothing: the interval's ends have no further digits. */
  lemma {:induction false} ContainedFurther(k: Coder, s: seq<Byte>, m: nat)
    requires 16 + k.shifts <= 8 * m
    ensures Contained(k, s) <==> ContainedAt(k, s, m)
    decreases m
  {
    hide ContainedAt;
    if m > BytesFor(k.shifts) {
      ContainedFurther(k, s, m - 1);
      ContainedNext(k, s, m - 1);
    }
  }

  lemma ScaleTwice(a: nat, u: nat)
    ensures a * (2 * u) == (2 * a) * u
  {
  }

  /** A renormalization shift keeps exactly the same code strings. */
  lemma {:induction false} ContainedRenorm(k: Coder, s: seq<Byte>)
    requires k.width > 0
    ensures Contained(Renorm(k), s) <==> Contained(k, s)
    decreases 0x8000 - k.width
  {
    hide Pow2, Prefix;
    if k.width < 0x8000 {
      var k2 := k.(low := 2 * k.low, width := 2 * k.width, shifts := k.shifts + 1);
      ContainedRenorm(k2, s);
      var m := BytesFor(k2.shifts);
      ContainedFurther(k, s, m);
      Pow2Double(8 * m - 16 - k.shifts);
      ScaleTwice(k.low, Unit(k2.shifts, m));
      ScaleTwice(k.low + k.width, Unit(k2.shifts, m));
    }
  }

  lemma ContainedSub(k: Coder, r: Coder, s: seq<Byte>)
    requires r.shifts == k.shifts && k.low <= r.low && r.low + r.width <= k.low + k.width
    requires Contained(r, s)
    ensures Contained(k, s)
  {
    var u := Unit(k.shifts, BytesFor(k.shifts));
    MulMono(k.low, r.low, u);
    MulMono(r.low + r.width, k.low + k.width, u);
  }

  /** A code string for a run is a code string for each of its prefixes. */
  lemma {:induction false} RunNested(k: Coder, ds: seq<Decision>, s: seq<Byte>)
    requires Valid(k) && Codable(k.bins, ds)
    requires Contained(Run(k, ds), s)
    ensures Contained(k, s)
    decreases |ds|
  {
    if ds != [] {
      StepValid(k, ds[0]);
      RunNested(Step(k, ds[0]), ds[1..], s);
      ContainedRenorm(Narrow(k, ds[0]), s);
      ContainedSub(k, Narrow(k, ds[0]), s);
    }
  }

  // ---------------------------------------------------------------------------
  // Decoding (section D.2 of T.81) on unbounded integers
  // ---------------------------------------------------------------------------

  /** Does the code string lie in the upper subinterval? */
  predicate InUpper(k: Coder, s: seq<Byte>, bin: nat)
    requires Valid(k) && bin < |k.bins|
  {
    var m := BytesFor(k.shifts);
    Prefix(s, m) >= (k.low + Rest(k, bin)) * Unit(k.shifts, m)
  }

  /** The decision the code string `s` holds next for bin `bin`. */
  function NextBit(k: Coder, s: seq<Byte>, bin: nat): (val: nat)
    requires Valid(k) && bin < |k.bins|
    ensures val <= 1
  {
    var mps := Mps(k.bins[bin]);
    if InUpper(k, s, bin) == Exchanged(k, bin) then mps else 1 - mps
  }

  /** The code strings of an interval are split between its two parts. */
  lemma CutExact(k: Coder, s: seq<Byte>, bin: nat)
    requires Valid(k) && bin < |k.bins|
    requires Contained(k, s)
    ensures Contained(Cut(k, bin, true), s) <==> InUpper(k, s, bin)
    ensures Contained(Cut(k, bin, false), s) <==> !InUpper(k, s, bin)
  {
    hide Qe, Pow2, Prefix, Unit;
    var u := Unit(k.shifts, BytesFor(k.shifts));
    var rest := Rest(k, bin);
    assert Cut(k, bin, true).low + Cut(k, bin, true).width == k.low + k.width;
    MulMono(k.low, k.low + rest, u);
    MulMono(k.low + rest, k.low + k.width, u);
  }

  /** The bins do not matter for that. */
  lemma ContainedSame(k: Coder, r: Coder, s: seq<Byte>)
    requires k.low == r.low && k.width == r.width && k.shifts == r.shifts
    ensures Contained(k, s) <==> Contained(r, s)
  {
    hide Unit, Prefix;
    assert k == r.(bins := k.bins);
  }

  /** Decoding picks exactly the decision whose subinterval holds the code string. */
  lemma NextBitExact(k: Coder, s: seq<Byte>, d: Decision)
    requires Valid(k) && d.bin < |k.bins| && d.val <= 1
    requires Contained(k, s)
    ensures Contained(Step(k, d), s) <==> NextBit(k, s, d.bin) == d.val
  {
    hide Qe, Contained, Renorm, InUpper, Cut, Estimate, Rest;
    var upper := (d.val == Mps(k.bins[d.bin])) == Exchanged(k, d.bin);
    CutExact(k, s, d.bin);
    ContainedRenorm(Narrow(k, d), s);
    ContainedSame(Narrow(k, d), Cut(k, d.bin, upper), s);
  }
}
