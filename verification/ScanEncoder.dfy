/** The MCU encoding routines of jcarith.c, on top of the arithmetic encoder's registers. */
module ScanEncoder {
  import opened Coefficients
  import opened Arith
  import opened QmInterval
  import opened QmTermination
  import opened DctDecisions
  import opened DctBands
  import opened DctRefine
  import opened ScanModel
  import opened ScanCodec
  import opened ArithEncoder
  import opened StatAreas

  /** `(m & v) ? 1 : 0`, for a power of two `m`. */
  function TestBit(v: nat, m: nat): (bit: nat)
    requires m > 0
    ensures bit <= 1
  {
    v / m % 2
  }

  lemma Log2Half(w: nat)
    requires w > 0
    ensures w / 2 == 0 ==> Log2(w) == 0
    ensures w / 2 > 0 ==> Log2(w) == 1 + Log2(w / 2)
  {
  }

  lemma TransformedZero(b: Block)
    ensures Transformed(b, 0) == b
    ensures forall se | 0 <= se < 64 :: EndOfBlockAt(b, se, 0) == EndOfBlock(b, se)
  {
    assert Pow2(0) == 1;
    forall se | 0 <= se < 64 ensures EndOfBlockAt(b, se, 0) == EndOfBlock(b, se) {
      EndsZero(b, se);
    }
    assert forall j :: 0 <= j < 64 ==> Transformed(b, 0)[j] == b[j];
  }

  lemma EndsZero(b: Block, se: nat)
    requires se < 64
    ensures EndOfBlockAt(b, se, 0) == EndOfBlock(b, se)
  {
    assert Pow2(0) == 1;
  }

  class EntropyEncoder {
    const coder: Encoder
    const lastDcVal: array<int>   // last DC coefficient of each component
    const dcContext: array<nat>   // DC conditioning category of each component
    var restartsToGo: nat         // MCUs left in this restart interval
    var nextRestartNum: nat       // next restart number to write (0-7)
    var scan: Scan

    /** `jinit_arith_encoder`: only the fixed bin is initialized, the tables are cleared by each pass. */
    constructor (scan: Scan)
      requires ValidScan(scan)
      ensures Valid() && Idle() && fresh(coder) && fresh(coder.stats) && fresh(lastDcVal) && fresh(dcContext)
      ensures this.scan == scan && coder.out == []
      ensures coder.stats[..] == InitialBins() && Predictions() == InitialPred() && coder.stats[FIXED_BIN] == 113
    {
      hide Encoder.Valid, InitialBins, InitialPred, ValidScan;
      var stats, last, ctx := InitAreas();
      InitialValid();
      coder := new Encoder(stats);
      lastDcVal, dcContext := last, ctx;
      restartsToGo, nextRestartNum := 0, 0;
      this.scan := scan;
    }

    ghost predicate Shape()
      reads this
    {
      && Areas(coder.stats, lastDcVal, dcContext)
      && ValidScan(scan) && nextRestartNum < 8
    }

    ghost function Predictions(): Pred
      reads this, lastDcVal, dcContext
    {
      Pred(lastDcVal[..], dcContext[..])
    }

    ghost predicate Valid()
      reads this, coder, coder.stats, lastDcVal, dcContext
    {
      Shape() && coder.Valid() && ValidPred(Predictions())
    }

    /** Between passes: the registers are as the last pass left them, statistics and predictions are valid. */
    ghost predicate Idle()
      reads this, coder, coder.stats, lastDcVal, dcContext
    {
      Shape() && ValidBins(coder.stats[..]) && ValidPred(Predictions())
    }

    /** The abstract state of the pass. */
    ghost function State(): Pass
      reads this, coder, lastDcVal, dcContext
    {
      Pass(coder.bins0, coder.log, Predictions(), restartsToGo, nextRestartNum)
    }

    /** Only the coder has moved, by the decisions `ds`. */
    twostate predicate Sent(ds: seq<Decision>)
      reads this, coder, coder.stats
    {
      && coder.Valid() && coder.log == old(coder.log) + ds
      && coder.bins0 == old(coder.bins0) && coder.prior == old(coder.prior)
    }

    method Code(bin: nat, val: nat)
      requires Shape() && coder.Valid() && bin < STAT_BINS && val <= 1
      modifies coder, coder.stats
      ensures Sent([Decision(bin, val)])
    {
      coder.Encode(bin, val);
    }

    /** `while (w >>= 1)`: category decisions in ascending bins, doubling `m`. */
    method CodeOnes(st0: nat, w0: nat, m0: nat, ghost e: nat) returns (st: nat, m: nat)
      requires Shape() && coder.Valid() && w0 > 0 && st0 + Log2(w0) < STAT_BINS
      requires m0 == Pow2(e)
      modifies coder, coder.stats
      ensures Sent(Ones(Log2(w0), st0))
      ensures st == st0 + Log2(w0) && m == Pow2(e + Log2(w0))
    {
      hide Encoder.Valid, Ones, Log2, Pow2, ValidScan;
      st, m := st0, m0;
      var w: nat := w0 / 2;
      ghost var i: nat := 0;
      Log2Half(w0);
      while w != 0
        invariant coder.Valid() && coder.bins0 == old(coder.bins0) && coder.prior == old(coder.prior)
        invariant st == st0 + i && m == Pow2(e + i)
        invariant i + (if w == 0 then 0 else 1 + Log2(w)) == Log2(w0)
        invariant coder.log + Ones(Log2(w0) - i, st) == old(coder.log) + Ones(Log2(w0), st0)
        decreases w
      {
        OnesStep(Log2(w0) - i, st);
        Pow2Double(e + i + 1);
        Code(st, 1);
        Log2Half(w);
        m := 2 * m;
        st := st + 1;
        w := w / 2;
        i := i + 1;
      }
      EmptyParts(st, w0);
    }

    lemma OnesStep(n: nat, st: nat)
      requires n > 0
      ensures Ones(n, st) == [Decision(st, 1)] + Ones(n - 1, st + 1)
    {
    }

    /** `while (m >>= 1)`: the magnitude bits of `v` below 2^n. */
    method CodeLowBits(st: nat, m0: nat, v: nat, ghost n0: nat)
      requires Shape() && coder.Valid() && st < STAT_BINS
      requires m0 == Pow2(n0) || (m0 == 0 && n0 == 0)
      modifies coder, coder.stats
      ensures Sent(LowBits(n0, st, v))
    {
      hide Encoder.Valid, ValidScan, LowBits, Pow2, TestBit;
      LowBitsStep(n0, st, v);
      var m := m0 / 2;
      ghost var n := n0;
      while m != 0
        invariant coder.Valid() && coder.bins0 == old(coder.bins0) && coder.prior == old(coder.prior)
        invariant 0 <= n <= n0 && m == (if n == 0 then 0 else Pow2(n - 1))
        invariant coder.log + LowBits(n, st, v) == old(coder.log) + LowBits(n0, st, v)
        decreases m
      {
        LowBitsStep(n, st, v);
        LowBitsStep(n - 1, st, v);
        Code(st, TestBit(v, m));
        m := m / 2;
        n := n - 1;
      }
      EmptyParts(st, v);
    }

    /** The highest of the bits below 2^n, and the power of two that selects it. */
    lemma LowBitsStep(n: nat, st: nat, v: nat)
      ensures n == 0 ==> Pow2(n) / 2 == 0
      ensures n > 0 ==> Pow2(n) / 2 == Pow2(n - 1)
      ensures n > 0 ==> LowBits(n, st, v) == [Decision(st, TestBit(v, Pow2(n - 1)))] + LowBits(n - 1, st, v)
    {
    }

    /** Section F.1.4.4.1.2: the conditioning category after a nonzero difference. */
    method Recondition(ci: nat, tbl: nat, m: nat, ghost sign: nat)
      requires Shape() && ci < MAX_COMPS_IN_SCAN && tbl < NUM_ARITH_TBLS && sign <= 1
      requires dcContext[ci] == 4 + 4 * sign
      modifies dcContext
      ensures dcContext[..] == old(dcContext[..])[ci := ContextOf(m, sign, scan.dcL[tbl], scan.dcU[tbl])]
    {
      if m < Pow2(scan.dcL[tbl]) / 2 {
        dcContext[ci] := 0;
      } else if m > Pow2(scan.dcU[tbl]) / 2 {
        dcContext[ci] := dcContext[ci] + 8;
      }
    }

    /** Figures F.6 to F.9: codes a nonzero DC difference, after the zero decision in bin `s`. */
    method EncodeNonzeroDc(ci: nat, tbl: nat, s: nat, diff: int)
      requires Shape() && coder.Valid() && ci < MAX_COMPS_IN_SCAN && tbl < NUM_ARITH_TBLS && s + 20 < STAT_BINS
      requires 0 < Abs(diff) <= 0x10000
      modifies coder, coder.stats, dcContext
      ensures Sent([Decision(s + 1, Sign(diff))] + DcMagnitude(Abs(diff) - 1, s + 2 + Sign(diff), DcBin(tbl, 20)))
      ensures dcContext[..] == old(dcContext[..])[ci := DcContext(diff, scan.dcL[tbl], scan.dcU[tbl])]
    {
      hide Encoder.Valid, Pow2, DcMagnitude, TopBit, ContextOf, ValidScan;
      var v := diff;
      var st := s;
      if v > 0 {
        Code(st + 1, 0);
        st := st + 2;
        dcContext[ci] := 4;
      } else {
        v := -v;
        Code(st + 1, 1);
        st := st + 3;
        dcContext[ci] := 8;
      }
      v := v - 1;
      var m := CodeDcMagnitude(v, st, DcBin(tbl, 20));
      Recondition(ci, tbl, m, Sign(diff));
    }

    /** Figure F.4: codes the DC value `target` of component `ci` as a difference. */
    method EncodeDc(ci: nat, tbl: nat, target: int)
      requires Valid() && ci < MAX_COMPS_IN_SCAN && tbl < NUM_ARITH_TBLS
      requires IsCoef(target)
      modifies coder, coder.stats, lastDcVal, dcContext
      ensures Valid()
      ensures Sent(DcDecisions(tbl, old(dcContext[ci]), target - old(lastDcVal[ci])))
      ensures lastDcVal[..] == old(lastDcVal[..])[ci := target]
      ensures dcContext[..] == old(dcContext[..])[ci := DcContext(target - old(lastDcVal[ci]), scan.dcL[tbl], scan.dcU[tbl])]
    {
      hide Encoder.Valid, DcDecisions, DcContext;
      ghost var p := Predictions();
      assert p.ctx[ci] <= 16 && IsCoef(p.last[ci]);
      EncodeDifference(ci, tbl, target);
      PredMoved(p, ci, target, DcContext(target - p.last[ci], scan.dcL[tbl], scan.dcU[tbl]));
      assert Predictions() == Pred(lastDcVal[..], dcContext[..]);
    }

    lemma PredMoved(p: Pred, ci: nat, dc: int, ctx: nat)
      requires ValidPred(p) && ci < MAX_COMPS_IN_SCAN && IsCoef(dc) && ctx <= 16
      ensures ValidPred(Pred(p.last[ci := dc], p.ctx[ci := ctx]))
    {
    }

    method EncodeDifference(ci: nat, tbl: nat, target: int)
      requires Shape() && coder.Valid() && ci < MAX_COMPS_IN_SCAN && tbl < NUM_ARITH_TBLS
      requires IsCoef(target) && IsCoef(lastDcVal[ci]) && dcContext[ci] <= 16
      modifies coder, coder.stats, lastDcVal, dcContext
      ensures Sent(DcDecisions(tbl, old(dcContext[ci]), target - old(lastDcVal[ci])))
      ensures lastDcVal[..] == old(lastDcVal[..])[ci := target]
      ensures dcContext[..] == old(dcContext[..])[ci := DcContext(target - old(lastDcVal[ci]), scan.dcL[tbl], scan.dcU[tbl])]
    {
      hide Encoder.Valid, DcMagnitude, ContextOf, TopBit, ValidScan, Short, Pow2, Log2;
      var st := DcBin(tbl, dcContext[ci]);
      var v := target - lastDcVal[ci];
      if v == 0 {
        Code(st, 0);
        dcContext[ci] := 0;
      } else {
        lastDcVal[ci] := target;
        Assoc(coder.log, [Decision(st, 1)],
              [Decision(st + 1, Sign(v))] + DcMagnitude(Abs(v) - 1, st + 2 + Sign(v), DcBin(tbl, 20)));
        Code(st, 1);
        EncodeNonzeroDc(ci, tbl, st, v);
      }
    }

    /** Figures F.8 and F.9 for a DC magnitude less one. */
    method CodeDcMagnitude(v: nat, st0: nat, x1: nat) returns (category: nat)
      requires Shape() && coder.Valid() && v < 0x10000 && st0 + 14 < STAT_BINS && x1 + 29 < STAT_BINS
      modifies coder, coder.stats
      ensures Sent(DcMagnitude(v, st0, x1)) && category == TopBit(v)
    {
      hide Encoder.Valid, Ones, LowBits, Log2, Pow2, ValidScan, DcMagnitude;
      var st, m := st0, 0;
      ghost var n := 0;
      assert Pow2(0) == 1 && Pow2(15) == 0x8000 by { Pow2Table(); }
      DcMagnitudeParts(v, st0, x1, coder.log);
      if v != 0 {
        Code(st, 1);
        m := 1;
        Log2Small(v, 15);
        st, m := CodeOnes(x1, v, m, 0);
        n := Log2(v);
      }
      Code(st, 0);
      category := m;
      CodeLowBits(st + 14, m, v, n);
    }

    lemma DcMagnitudeParts(v: nat, st: nat, x1: nat, log: seq<Decision>)
      ensures v == 0 ==> log + DcMagnitude(v, st, x1) == log + [Decision(st, 0)] + LowBits(0, st + 14, v)
      ensures v != 0 ==> var n := Log2(v);
        log + DcMagnitude(v, st, x1)
        == log + [Decision(st, 1)] + Ones(n, x1) + [Decision(x1 + n, 0)] + LowBits(n, x1 + n + 14, v)
    {
      hide Log2, LowBits, Ones;
      if v == 0 {
        EmptyParts(st, 0);
        EmptyParts(st + 14, 0);
        assert DcMagnitude(v, st, x1) == [Decision(st, 0)];
        assert LowBits(0, st + 14, v) == [];
      } else {
        var n := Log2(v);
        var ones, end, low := Ones(n, x1), [Decision(x1 + n, 0)], LowBits(n, x1 + n + 14, v);
        Assoc(log, [Decision(st, 1)], ones + end + low);
        Assoc(log + [Decision(st, 1)], ones, end);
        Assoc(log + [Decision(st, 1)], ones + end, low);
      }
    }

    lemma EmptyParts(st: nat, u: nat)
      ensures Ones(0, st) == [] && LowBits(0, st, u) == []
    {
    }

    /** Figures F.8 and F.9 for an AC magnitude less one. */
    method CodeAcMagnitude(v: nat, st0: nat, x2: nat)
      requires Shape() && coder.Valid() && v < 0x8000 && st0 + 14 < STAT_BINS && x2 + 27 < STAT_BINS
      modifies coder, coder.stats
      ensures Sent(AcMagnitude(v, st0, x2))
    {
      hide Encoder.Valid, LowBits, Log2, Pow2, ValidScan, AcCategory, AcMagnitude;
      ghost var log0 := coder.log;
      ghost var (ds, bin, bits) := AcCategory(v, st0, x2);
      AcMagnitudeParts(v, st0, x2);
      Assoc(log0, ds, [Decision(bin, 0)]);
      Assoc(log0, ds + [Decision(bin, 0)], LowBits(bits, bin + 14, v));
      ghost var n;
      var st, m;
      st, m, n := CodeAcCategory(v, st0, x2);
      Code(st, 0);
      CodeLowBits(st + 14, m, v, n);
    }

    /** The magnitude category of an AC coefficient, without its end. */
    method CodeAcCategory(v: nat, st0: nat, x2: nat) returns (st: nat, m: nat, ghost n: nat)
      requires Shape() && coder.Valid() && v < 0x8000 && st0 + 14 < STAT_BINS && x2 + 27 < STAT_BINS
      modifies coder, coder.stats
      ensures Sent(AcCategory(v, st0, x2).0)
      ensures st == AcCategory(v, st0, x2).1 && st + 14 < STAT_BINS
      ensures n == AcCategory(v, st0, x2).2 && (m == Pow2(n) || (m == 0 && n == 0))
    {
      hide Encoder.Valid, Ones, LowBits, Log2, Pow2, ValidScan;
      st, m, n := st0, 0, 0;
      Pow2Table();
      if v != 0 {
        Code(st, 1);
        m := 1;
        Log2Half(v);
        if v / 2 != 0 {
          Code(st, 1);
          m := 2;
          Log2Small(v, 14);
          st, m := CodeOnes(x2, v / 2, m, 1);
          n := Log2(v);
        }
      }
    }

    /** Its decisions, the bin that ends it, and the number of magnitude bits to come. */
    ghost function AcCategory(v: nat, st0: nat, x2: nat): (seq<Decision>, nat, nat) {
      if v == 0 then ([], st0, 0)
      else if v == 1 then ([Decision(st0, 1)], st0, 0)
      else ([Decision(st0, 1)] + [Decision(st0, 1)] + Ones(Log2(v) - 1, x2), x2 + (Log2(v) - 1), Log2(v))
    }

    lemma AcMagnitudeParts(v: nat, st0: nat, x2: nat)
      ensures var (ds, st, n) := AcCategory(v, st0, x2);
        AcMagnitude(v, st0, x2) == ds + [Decision(st, 0)] + LowBits(n, st + 14, v)
    {
      hide Ones, LowBits, Log2, Pow2;
      EmptyParts(st0, v);
      EmptyParts(st0 + 14, v);
      EmptyParts(st0 + 14, 0);
    }

    /** The loop that finds the end of the block after the point transform. */
    method FindEob(block: Block, se: nat, al: nat) returns (ke: nat)
      requires se <= 63
      ensures ke == EndOfBlockAt(block, se, al)
    {
      ke := se;
      while ke > 0 && Mag(block[ke], al) == 0
        invariant ke <= se && EndOfBlockAt(block, se, al) == EndOfBlockAt(block, ke, al)
      {
        ke := ke - 1;
      }
    }

    /** A nonzero coefficient: flag, sign in the fixed bin, magnitude. */
    method EncodeAcCoef(tbl: nat, k: nat, kx: nat, v: int)
      requires Shape() && coder.Valid() && tbl < NUM_ARITH_TBLS && 1 <= k <= 63 && 0 < Abs(v) <= 0x8000
      modifies coder, coder.stats
      ensures Sent(AcCoef(tbl, k, kx, v))
    {
      hide Encoder.Valid, AcMagnitude, ValidScan;
      var st := AcEob(tbl, k);
      Code(st + 1, 1);
      if v > 0 {
        Code(FIXED_BIN, 0);
        CodeAcMagnitude(v - 1, st + 2, AcX2(tbl, k, kx));
      } else {
        Code(FIXED_BIN, 1);
        CodeAcMagnitude(-v - 1, st + 2, AcX2(tbl, k, kx));
      }
    }

    /** The zero coefficients from `k0` on, up to the next nonzero one. */
    method EncodeZeroRun(block: Block, k0: nat, ke: nat, se: nat, tbl: nat, kx: nat, al: nat) returns (k: nat)
      requires Shape() && coder.Valid() && tbl < NUM_ARITH_TBLS && 1 <= k0 <= ke
      requires Band(Transformed(block, al), ke, se)
      modifies coder, coder.stats
      ensures coder.Valid() && coder.bins0 == old(coder.bins0) && coder.prior == old(coder.prior)
      ensures k0 <= k <= ke && PointTransform(block[k], al) != 0
      ensures var z := Transformed(block, al);
        coder.log + AcRun(z, k, ke, se, tbl, kx) == old(coder.log) + AcRun(z, k0, ke, se, tbl, kx)
    {
      hide Encoder.Valid, AcCoef, ValidScan, PointTransform, AcBand;
      ghost var z := Transformed(block, al);
      k := k0;
      while PointTransform(block[k], al) == 0
        invariant coder.Valid() && coder.bins0 == old(coder.bins0) && coder.prior == old(coder.prior)
        invariant k0 <= k <= ke
        invariant coder.log + AcRun(z, k, ke, se, tbl, kx) == old(coder.log) + AcRun(z, k0, ke, se, tbl, kx)
        decreases ke - k
      {
        Code(AcEob(tbl, k) + 1, 0);
        k := k + 1;
      }
    }

    /** One turn of that figure's loop: more to come, zeros, and the nonzero coefficient after them. */
    method EncodeRunAndCoef(block: Block, k0: nat, ke: nat, se: nat, tbl: nat, kx: nat, al: nat) returns (k: nat)
      requires Shape() && coder.Valid() && tbl < NUM_ARITH_TBLS && 1 <= k0 <= ke
      requires Band(Transformed(block, al), ke, se)
      modifies coder, coder.stats
      ensures coder.Valid() && coder.bins0 == old(coder.bins0) && coder.prior == old(coder.prior)
      ensures k0 < k <= ke + 1
      ensures var z := Transformed(block, al);
        coder.log + AcBand(z, k, ke, se, tbl, kx) == old(coder.log) + AcBand(z, k0, ke, se, tbl, kx)
    {
      hide Encoder.Valid, AcCoef, ValidScan, PointTransform, Transformed, AcBand, AcRun;
      ghost var z := Transformed(block, al);
      AcBandMore(z, k0, ke, se, tbl, kx);
      Assoc(coder.log, [Decision(AcEob(tbl, k0), 0)], AcRun(z, k0, ke, se, tbl, kx));
      Code(AcEob(tbl, k0), 0);
      k := EncodeZeroRun(block, k0, ke, se, tbl, kx, al);
      AcRunCoef(z, k, ke, se, tbl, kx);
      Assoc(coder.log, AcCoef(tbl, k, kx, z[k]), AcBand(z, k + 1, ke, se, tbl, kx));
      EncodeAcCoef(tbl, k, kx, PointTransform(block[k], al));
      k := k + 1;
    }

    lemma Assoc(a: seq<Decision>, b: seq<Decision>, c: seq<Decision>)
      ensures a + b + c == a + (b + c)
    {
    }

    lemma AcBandMore(z: seq<int>, k: nat, ke: nat, se: nat, tbl: nat, kx: nat)
      requires Band(z, ke, se) && tbl < NUM_ARITH_TBLS && 1 <= k <= ke
      ensures AcBand(z, k, ke, se, tbl, kx) == [Decision(AcEob(tbl, k), 0)] + AcRun(z, k, ke, se, tbl, kx)
    {
    }

    lemma AcRunCoef(z: seq<int>, k: nat, ke: nat, se: nat, tbl: nat, kx: nat)
      requires Band(z, ke, se) && tbl < NUM_ARITH_TBLS && 1 <= k <= ke && z[k] != 0
      ensures AcRun(z, k, ke, se, tbl, kx) == AcCoef(tbl, k, kx, z[k]) + AcBand(z, k + 1, ke, se, tbl, kx)
    {
    }

    /** Figure F.5: the coefficients ss..ke after the point transform, then the end of the block. */
    method EncodeAcBand(block: Block, ss: nat, ke: nat, se: nat, tbl: nat, kx: nat, al: nat)
      requires Shape() && coder.Valid() && tbl < NUM_ARITH_TBLS && 1 <= ss
      requires Band(Transformed(block, al), ke, se)
      modifies coder, coder.stats
      ensures Sent(AcBand(Transformed(block, al), ss, ke, se, tbl, kx))
    {
      hide Encoder.Valid, AcCoef, ValidScan, PointTransform, Transformed;
      ghost var z := Transformed(block, al);
      var k := ss;
      while k <= ke
        invariant coder.Valid() && coder.bins0 == old(coder.bins0) && coder.prior == old(coder.prior)
        invariant ss <= k && (ss <= ke + 1 ==> k <= ke + 1) && (ss > ke + 1 ==> k == ss)
        invariant coder.log + AcBand(z, k, ke, se, tbl, kx) == old(coder.log) + AcBand(z, ss, ke, se, tbl, kx)
      {
        k := EncodeRunAndCoef(block, k, ke, se, tbl, kx, al);
      }
      if k <= se {
        Code(AcEob(tbl, k), 1);
      }
    }

    /** A coefficient nonzero at this stage: its next bit, or flag and sign if it was zero so far. */
    method EncodeRefineCoef(tbl: nat, k: nat, v: int, al: nat)
      requires Shape() && coder.Valid() && tbl < NUM_ARITH_TBLS && 1 <= k <= 63 && Mag(v, al) != 0
      modifies coder, coder.stats
      ensures Sent(RefineCoef(tbl, k, v, al))
    {
      hide Encoder.Valid, ValidScan, Mag;
      var st := AcEob(tbl, k);
      var m := Mag(v, al);
      if m / 2 != 0 {
        Code(st + 2, m % 2);
      } else {
        Code(st + 1, 1);
        Code(FIXED_BIN, if v >= 0 then 0 else 1);
      }
    }

    /** The coefficients from `k0` on that are zero at this stage, up to the next one that is not. */
    method SkipZeros(block: Block, k0: nat, ke: nat, kex: nat, se: nat, tbl: nat, al: nat) returns (k: nat)
      requires Shape() && coder.Valid() && tbl < NUM_ARITH_TBLS && 1 <= k0 <= ke <= se <= 63
      requires Mag(block[ke], al) != 0
      modifies coder, coder.stats
      ensures coder.Valid() && coder.bins0 == old(coder.bins0) && coder.prior == old(coder.prior)
      ensures k0 <= k <= ke && Mag(block[k], al) != 0
      ensures coder.log + RefineRun(block, k, ke, kex, se, tbl, al) == old(coder.log) + RefineRun(block, k0, ke, kex, se, tbl, al)
    {
      hide Encoder.Valid, RefineCoef, ValidScan, Mag, RefineBand, RefineRun;
      k := k0;
      while Mag(block[k], al) == 0
        invariant coder.Valid() && coder.bins0 == old(coder.bins0) && coder.prior == old(coder.prior)
        invariant k0 <= k <= ke
        invariant coder.log + RefineRun(block, k, ke, kex, se, tbl, al) == old(coder.log) + RefineRun(block, k0, ke, kex, se, tbl, al)
        decreases ke - k
      {
        RefineRunStep(block, k, ke, kex, se, tbl, al);
        Code(AcEob(tbl, k) + 1, 0);
        k := k + 1;
      }
    }

    lemma RefineRunStep(b: Block, k: nat, ke: nat, kex: nat, se: nat, tbl: nat, al: nat)
      requires tbl < NUM_ARITH_TBLS && 1 <= k <= ke <= se <= 63 && Mag(b[ke], al) != 0
      ensures Mag(b[k], al) == 0 ==> k < ke
      ensures RefineRun(b, k, ke, kex, se, tbl, al)
           == if Mag(b[k], al) == 0 then [Decision(AcEob(tbl, k) + 1, 0)] + RefineRun(b, k + 1, ke, kex, se, tbl, al)
              else RefineCoef(tbl, k, b[k], al) + RefineBand(b, k + 1, ke, kex, se, tbl, al)
    {
    }

    /** One turn of figure G.10's loop. */
    method RefineRunAndCoef(block: Block, k0: nat, ke: nat, kex: nat, se: nat, tbl: nat, al: nat) returns (k: nat)
      requires Shape() && coder.Valid() && tbl < NUM_ARITH_TBLS && 1 <= k0 <= ke <= se <= 63
      requires Mag(block[ke], al) != 0
      modifies coder, coder.stats
      ensures coder.Valid() && coder.bins0 == old(coder.bins0) && coder.prior == old(coder.prior)
      ensures k0 < k <= ke + 1
      ensures coder.log + RefineBand(block, k, ke, kex, se, tbl, al) == old(coder.log) + RefineBand(block, k0, ke, kex, se, tbl, al)
    {
      hide Encoder.Valid, RefineCoef, ValidScan, Mag, RefineRun;
      ghost var band := RefineBand(block, k0, ke, kex, se, tbl, al);
      ghost var run := RefineRun(block, k0, ke, kex, se, tbl, al);
      assert band == (if k0 > kex then [Decision(AcEob(tbl, k0), 0)] else []) + run;
      hide RefineBand;
      if k0 > kex {
        Assoc(coder.log, [Decision(AcEob(tbl, k0), 0)], run);
        Code(AcEob(tbl, k0), 0);
      }
      assert coder.log + run == old(coder.log) + band;
      k := SkipZeros(block, k0, ke, kex, se, tbl, al);
      RefineRunStep(block, k, ke, kex, se, tbl, al);
      Assoc(coder.log, RefineCoef(tbl, k, block[k], al), RefineBand(block, k + 1, ke, kex, se, tbl, al));
      EncodeRefineCoef(tbl, k, block[k], al);
      k := k + 1;
    }

    /** Figure G.10: the refinement of the coefficients ss..ke, then the end of the block. */
    method EncodeRefineBand(block: Block, ss: nat, ke: nat, kex: nat, se: nat, tbl: nat, al: nat)
      requires Shape() && coder.Valid() && tbl < NUM_ARITH_TBLS && 1 <= ss && ke <= se <= 63
      requires ke > 0 ==> Mag(block[ke], al) != 0
      modifies coder, coder.stats
      ensures Sent(RefineBand(block, ss, ke, kex, se, tbl, al))
    {
      hide Encoder.Valid, RefineCoef, ValidScan, Mag;
      var k := ss;
      while k <= ke
        invariant coder.Valid() && coder.bins0 == old(coder.bins0) && coder.prior == old(coder.prior)
        invariant ss <= k && (ss <= ke + 1 ==> k <= ke + 1) && (ss > ke + 1 ==> k == ss)
        invariant coder.log + RefineBand(block, k, ke, kex, se, tbl, al) == old(coder.log) + RefineBand(block, ss, ke, kex, se, tbl, al)
      {
        k := RefineRunAndCoef(block, k, ke, kex, se, tbl, al);
      }
      if k <= se {
        Code(AcEob(tbl, k), 1);
      }
    }

    // -------------------------------------------------------------------------
    // Passes and restarts
    // -------------------------------------------------------------------------

    /** `start_pass`. */
    method StartPass(scan: Scan)
      requires Idle() && ValidScan(scan)
      modifies this, coder, coder.stats, lastDcVal, dcContext
      ensures Valid() && this.scan == scan
      ensures State() == ScanCodec.StartPass(scan, old(coder.stats[..]), old(Predictions()))
      ensures coder.prior == old(coder.out)
    {
      hide Encoder.Valid, ResetBins, ResetPred, ValidScan;
      ghost var bins, p := coder.stats[..], Predictions();
      this.scan := scan;
      ClearAreas(scan, coder.stats, lastDcVal, dcContext);
      coder.Reset();
      restartsToGo := scan.restartInterval;
      nextRestartNum := 0;
      assert ValidPred(ResetPred(scan, p));
    }

    lemma StatsValid()
      requires Valid()
      ensures Idle()
      ensures coder.stats[..] == Run(Start(coder.bins0), coder.log).bins
      ensures ValidPass(scan, State())
    {
    }

    /** The segment ends, and the restart marker follows. */
    method EmitMarker()
      requires Valid()
      modifies coder
      ensures coder.out == old(coder.prior) + Segment(old(coder.bins0), old(coder.log)) + [0xFF, Rst(nextRestartNum)]
    {
      hide Encoder.Valid, Segment, ValidScan;
      coder.FinishPass();
      coder.EmitByte(0xFF);
      coder.EmitByte(Rst(nextRestartNum));
    }

    /** `emit_restart`. */
    method EmitRestart()
      requires Valid()
      modifies this, coder, coder.stats, lastDcVal, dcContext
      ensures Valid() && scan == old(scan)
      ensures old(ValidPass(scan, State()))
      ensures State() == Restarted(scan, old(State()))
      ensures coder.prior == old(coder.prior) + Segment(old(coder.bins0), old(coder.log)) + [0xFF, Rst(old(nextRestartNum))]
    {
      hide Encoder.Valid, ResetBins, ResetPred, ValidScan, Segment;
      ghost var g := State();
      StatsValid();
      assert coder.stats[..] == CurrentBins(scan, g);
      EmitMarker();
      ClearAreas(scan, coder.stats, lastDcVal, dcContext);
      coder.Reset();
      restartsToGo := scan.restartInterval;
      nextRestartNum := (nextRestartNum + 1) % 8;
      assert ValidPred(ResetPred(scan, g.pred));
    }

    /** The start of every MCU routine: emit a restart marker if needed. */
    method CheckRestart()
      requires Valid()
      modifies this, coder, coder.stats, lastDcVal, dcContext
      ensures Valid() && scan == old(scan)
      ensures old(ValidPass(scan, State()))
      ensures var g := BeforeMcu(scan, old(State()));
        State() == g.(toGo := if scan.restartInterval > 0 then g.toGo - 1 else g.toGo)
      ensures coder.prior == old(coder.prior) + Flushed(scan, old(State()))
    {
      hide Encoder.Valid, ResetBins, ResetPred, ValidScan, Segment;
      StatsValid();
      if scan.restartInterval > 0 {
        if restartsToGo == 0 {
          EmitRestart();
        }
        restartsToGo := restartsToGo - 1;
      }
    }

    /** Only the coder and the DC predictions have moved, as block `i` asks for. */
    twostate predicate BlockSent(i: nat, b: Block)
      requires old(Valid()) && ValidScan(scan) && scan == old(scan) && i < |scan.membership| && IsBlock(b)
      reads this, coder, coder.stats, lastDcVal, dcContext
    {
      && Valid()
      && Sent(BlockDecisions(scan, old(Predictions()), i, b))
      && Predictions() == BlockPred(scan, old(Predictions()), i, b)
    }

    /** A block in a sequential scan. */
    method EncodeBlock(i: nat, b: Block)
      requires Valid() && ModeOf(scan) == Sequential && i < |scan.membership| && IsBlock(b)
      modifies coder, coder.stats, lastDcVal, dcContext
      ensures BlockSent(i, b)
    {
      hide Encoder.Valid, DcDecisions, DcContext, AcBand, PointTransform;
      ghost var p := Predictions();
      var ci := scan.membership[i];
      assert DcTransform(b[0], 0) == b[0] by { assert Pow2(0) == 1; }
      assert IsCoef(b[0]);
      EncodeDc(ci, DcTbl(scan, i), b[0]);
      var ke := FindEob(b, 63, 0);
      TransformedZero(b);
      TransformedBand(b, 63, 0);
      EncodeAcBand(b, 1, ke, 63, AcTbl(scan, i), scan.acK[AcTbl(scan, i)], 0);
    }

    /** A block in a DC initial scan. */
    method EncodeBlockDcFirst(i: nat, b: Block)
      requires Valid() && ModeOf(scan) == DcFirst && i < |scan.membership| && IsBlock(b)
      modifies coder, coder.stats, lastDcVal, dcContext
      ensures BlockSent(i, b)
    {
      hide Encoder.Valid, DcDecisions, DcContext, DcTransform;
      assert IsCoef(b[0]);
      DcTransformCoef(b[0], scan.al);
      EncodeDc(scan.membership[i], DcTbl(scan, i), DcTransform(b[0], scan.al));
    }

    /** The block in an AC initial scan. */
    method EncodeBlockAcFirst(i: nat, b: Block)
      requires Valid() && ModeOf(scan) == AcFirst && i < |scan.membership| && IsBlock(b)
      modifies coder, coder.stats
      ensures BlockSent(i, b)
    {
      hide Encoder.Valid, AcBand, PointTransform, Mag;
      var ke := FindEob(b, scan.se, scan.al);
      TransformedBand(b, scan.se, scan.al);
      EncodeAcBand(b, scan.ss, ke, scan.se, AcTbl(scan, i), scan.acK[AcTbl(scan, i)], scan.al);
    }

    /** A block in a DC refinement scan. */
    method EncodeBlockDcRefine(i: nat, b: Block)
      requires Valid() && ModeOf(scan) == DcRefine && i < |scan.membership| && IsBlock(b)
      modifies coder, coder.stats
      ensures BlockSent(i, b)
    {
      hide Encoder.Valid;
      Code(FIXED_BIN, DcTransform(b[0], scan.al) % 2);
    }

    /** The block in an AC refinement scan. */
    method EncodeBlockAcRefine(i: nat, b: Block)
      requires Valid() && ModeOf(scan) == AcRefine && i < |scan.membership| && IsBlock(b)
      modifies coder, coder.stats
      ensures BlockSent(i, b)
    {
      hide Encoder.Valid, RefineBand, Mag;
      var ke := FindEob(b, scan.se, scan.al);
      var kex := FindEob(b, ke, scan.ah);
      EncodeRefineBand(b, scan.ss, ke, kex, scan.se, AcTbl(scan, i), scan.al);
    }

    /** The routine that `start_pass` selected, on one block. */
    method EncodeAnyBlock(i: nat, b: Block)
      requires Valid() && i < |scan.membership| && IsBlock(b)
      modifies coder, coder.stats, lastDcVal, dcContext
      ensures BlockSent(i, b)
    {
      hide Encoder.Valid, BlockDecisions, BlockPred, ValidScan;
      match ModeOf(scan)
      case Sequential => EncodeBlock(i, b);
      case DcFirst => EncodeBlockDcFirst(i, b);
      case AcFirst => EncodeBlockAcFirst(i, b);
      case DcRefine => EncodeBlockDcRefine(i, b);
      case AcRefine => EncodeBlockAcRefine(i, b);
    }

    /** `encode_mcu` and its progressive variants: restart if due, then all blocks of the MCU. */
    method EncodeMcu(mcu: seq<Block>)
      requires Valid() && ValidMcu(scan, mcu)
      modifies this, coder, coder.stats, lastDcVal, dcContext
      ensures Valid() && scan == old(scan)
      ensures old(ValidPass(scan, State()))
      ensures State() == Coded(scan, BeforeMcu(scan, old(State())), mcu)
      ensures coder.prior == old(coder.prior) + Flushed(scan, old(State()))
    {
      hide Encoder.Valid, BlockDecisions, BlockPred, ValidScan, Restarted, Segment;
      CheckRestart();
      label Checked:
      for i := 0 to |mcu|
        invariant Valid() && scan == old(scan) && |mcu| == |scan.membership|
        invariant restartsToGo == old@Checked(restartsToGo) && nextRestartNum == old@Checked(nextRestartNum)
        invariant coder.bins0 == old@Checked(coder.bins0) && coder.prior == old@Checked(coder.prior)
        invariant coder.log + McuDecisions(scan, Predictions(), mcu, i)
               == old@Checked(coder.log) + McuDecisions(scan, old@Checked(Predictions()), mcu, 0)
        invariant McuPred(scan, Predictions(), mcu, i) == McuPred(scan, old@Checked(Predictions()), mcu, 0)
      {
        EncodeAnyBlock(i, mcu[i]);
      }
    }

    /** `finish_pass` at the end of a scan. */
    method FinishScan()
      requires Valid()
      modifies coder
      ensures Idle() && Predictions() == old(Predictions()) && coder.stats[..] == old(coder.stats[..])
      ensures coder.out == old(coder.prior) + Segment(old(coder.bins0), old(coder.log))
    {
      hide Segment;
      StatsValid();
      coder.FinishPass();
    }

    /** The MCUs of a scan, one after the other: every byte the scan will hold is accounted for. */
    method EncodeMcus(mcus: seq<seq<Block>>)
      requires Valid() && forall i :: 0 <= i < |mcus| ==> ValidMcu(scan, mcus[i])
      modifies this, coder, coder.stats, lastDcVal, dcContext
      ensures Valid() && scan == old(scan)
      ensures old(ValidPass(scan, State())) && ValidPass(scan, State())
      ensures coder.prior + Output(scan, State(), []) == old(coder.prior) + Output(scan, old(State()), mcus)
      ensures State() == Passed(scan, old(State()), mcus)
    {
      hide Valid, ValidPass, Restarted, Segment, Coded, ValidScan, ValidMcu, Output, Flushed;
      StatsValid();
      for i := 0 to |mcus|
        invariant Valid() && scan == old(scan) && ValidPass(scan, State())
        invariant coder.prior + Output(scan, State(), mcus[i..]) == old(coder.prior) + Output(scan, old(State()), mcus)
        invariant Passed(scan, State(), mcus[i..]) == Passed(scan, old(State()), mcus)
      {
        ghost var g := State();
        EncodeMcu(mcus[i]);
        StatsValid();
        OutputStep(scan, g, mcus[i..]);
        assert mcus[i..][1..] == mcus[i + 1..];
      }
      assert mcus[|mcus|..] == [];
    }

    /** A whole scan: what the encoder writes, and what it leaves for the next one, is what the model says. */
    method EncodeScan(scan: Scan, mcus: seq<seq<Block>>)
      requires Idle() && ValidScan(scan) && forall i :: 0 <= i < |mcus| ==> ValidMcu(scan, mcus[i])
      modifies this, coder, coder.stats, lastDcVal, dcContext
      ensures Idle() && this.scan == scan
      ensures var g := ScanCodec.StartPass(scan, old(coder.stats[..]), old(Predictions()));
        && coder.out == old(coder.out) + Output(scan, g, mcus)
        && coder.stats[..] == CurrentBins(scan, Passed(scan, g, mcus))
        && Predictions() == Passed(scan, g, mcus).pred
      ensures old(FixedSet(coder.stats[..])) ==> FixedSet(coder.stats[..])
    {
      hide Restarted, Segment, Coded, ScanCodec.StartPass, ValidScan, ValidMcu, Output, Flushed, Encoder.Valid, Passed, FixedSet;
      ghost var g := ScanCodec.StartPass(scan, coder.stats[..], Predictions());
      if FixedSet(coder.stats[..]) {
        StartFixed(scan, coder.stats[..], Predictions());
        PassedFixed(scan, g, mcus);
      }
      StartPass(scan);
      EncodeMcus(mcus);
      StatsValid();
      OutputEnd(scan, State());
      FinishScan();
    }
  }

  lemma OutputEnd(scan: Scan, g: Pass)
    requires ValidPass(scan, g)
    ensures Output(scan, g, []) == Segment(g.bins0, g.log)
  {
  }

  /** Coding one MCU splits the output into what a restart flushed and what is still to come. */
  lemma OutputStep(scan: Scan, g: Pass, mcus: seq<seq<Block>>)
    requires ValidPass(scan, g) && mcus != [] && forall i :: 0 <= i < |mcus| ==> ValidMcu(scan, mcus[i])
    ensures Output(scan, g, mcus) == Flushed(scan, g) + Output(scan, Coded(scan, BeforeMcu(scan, g), mcus[0]), mcus[1..])
  {
    hide Restarted, Segment, Coded;
  }
}
