/** The MCU decoding routines of jdarith.c, on top of the arithmetic decoder's registers. */
module ScanDecoder {
  import opened Coefficients
  import opened Arith
  import opened Bytes
  import opened QmInterval
  import opened ArithDecoder
  import opened QmRoundTrip
  import opened DctDecisions
  import opened DctBands
  import opened DctRefine
  import opened ScanModel
  import opened ScanCodec
  import opened StatAreas

  /** `(m <<= 1) == 0x8000`. */
  lemma Overflows(n: nat)
    requires n <= 14
    ensures 2 * Pow2(n) == Pow2(n + 1)
    ensures Pow2(n + 1) == 0x8000 <==> n == 14
  {
    assert Pow2(14) == 0x4000 && Pow2(15) == 0x8000 by { Pow2Table(); }
    if n < 14 {
      Pow2Up(n + 1, 14);
    }
  }

  /** The coefficients of a block, which is an array of 64. */
  ghost function Coefs(block: array<int>): Block
    reads block
  {
    if block.Length == 64 then block[..] else ZeroBlock()
  }

  class EntropyDecoder {
    const coder: Decoder
    const lastDcVal: array<int>   // last DC coefficient of each component, modulo 2^16
    const dcContext: array<nat>   // DC conditioning category of each component
    var restartsToGo: nat         // MCUs left in this restart interval
    var nextRestartNum: nat       // next restart number expected (0-7)
    var scan: Scan
    ghost var seg: nat            // where the open segment starts

    /** `jinit_arith_decoder`: only the fixed bin is initialized, the tables are cleared by each pass. */
    constructor (data: seq<Byte>, pos: nat, scan: Scan)
      requires Terminated(data, pos) && ValidScan(scan)
      ensures Idle() && fresh(coder) && fresh(coder.stats) && fresh(lastDcVal) && fresh(dcContext)
      ensures this.scan == scan && coder.data == data
      ensures coder.stats[..] == InitialBins() && Predictions() == InitialPred()
    {
      var stats, last, ctx := InitAreas();
      InitialValid();
      coder := new Decoder(data, pos, stats);
      lastDcVal, dcContext := last, ctx;
      restartsToGo, nextRestartNum, seg := 0, 0, pos;
      this.scan := scan;
      hide Decoder.Valid, InitialBins, InitialPred;
    }

    /** The decoder that the registers stand for. */
    ghost function D(): Dec
      reads coder
    {
      Dec(coder.interval, coder.code)
    }

    ghost function Predictions(): Pred
      reads lastDcVal, dcContext
    {
      Pred(lastDcVal[..], dcContext[..])
    }

    ghost predicate Shape()
      reads this
    {
      Areas(coder.stats, lastDcVal, dcContext) && ValidScan(scan) && nextRestartNum < 8
    }

    /** Between passes. */
    ghost predicate Idle()
      reads this, coder, coder.stats, lastDcVal, dcContext
    {
      Shape() && ValidBins(coder.stats[..]) && ValidDecPred(Predictions())
    }

    /** Within a segment. */
    ghost predicate Reading()
      reads this, coder, coder.stats
    {
      Shape() && coder.Valid() && Ready(D())
    }

    /** Only the coder has moved, within its segment. */
    twostate predicate Moved()
      reads this, coder, coder.stats
    {
      Reading() && coder.code == old(coder.code) && coder.past == old(coder.past)
    }

    method ReadBit(bin: nat) returns (val: nat)
      requires Reading() && bin < STAT_BINS
      modifies coder, coder.stats
      ensures Moved() && val == Bit(old(D()), bin) && D() == Advance(old(D()), bin)
    {
      val := coder.Decode(bin);
    }

    /** `while (arith_decode(st))`: the category, doubling `m`; 0x8000 is an overflow. */
    method ReadOnes(st0: nat, m0: nat, ghost n0: nat) returns (ok: bool, st: nat, m: nat, ghost n: nat)
      requires Reading() && n0 <= 14 && st0 + 14 - n0 < STAT_BINS - 14 && m0 == Pow2(n0)
      modifies coder, coder.stats
      ensures Moved() && (ok ==> st < STAT_BINS - 14 && m == Pow2(n))
      ensures DecodeOnes(old(D()), st0, n0) == if ok then Got((n, st), D()) else Bad
    {
      hide Decoder.Valid, Pow2, ValidScan, Bit, Advance;
      ok, st, m, n := true, st0, m0, n0;
      var more := ReadBit(st);
      while more != 0
        invariant Moved() && ok && n <= 14 && st + 14 - n < STAT_BINS - 14 && m == Pow2(n) && more <= 1
        invariant DecodeOnes(old(D()), st0, n0)
          == if more == 0 then Got((n, st), D()) else if n + 1 == 15 then Bad else DecodeOnes(D(), st + 1, n + 1)
        decreases 14 - n, more
      {
        Overflows(n);
        m := 2 * m;
        if m == 0x8000 {
          ok := false;
          return;
        }
        st := st + 1;
        n := n + 1;
        more := ReadBit(st);
      }
    }

    /** `while (m >>= 1)`: the magnitude bits below the top one. */
    method ReadBits(st: nat, m0: nat, ghost n0: nat) returns (v: nat)
      requires Reading() && st < STAT_BINS && (m0 == Pow2(n0) || (m0 == 0 && n0 == 0))
      modifies coder, coder.stats
      ensures Moved() && (v, D()) == DecodeBits(old(D()), st, n0, m0)
    {
      hide Decoder.Valid, ValidScan, Bit, Advance;
      v := m0;
      var m := m0 / 2;
      ghost var n := n0;
      while m != 0
        invariant Moved() && 0 <= n <= n0 && m == if n == 0 then 0 else Pow2(n - 1)
        invariant DecodeBits(D(), st, n, v) == DecodeBits(old(D()), st, n0, m0)
        decreases m
      {
        var bit := ReadBit(st);
        if bit == 1 {
          v := v + m;
        }
        m := m / 2;
        n := n - 1;
      }
    }

    /** Figures F.23 and F.24 for a DC magnitude less one, with its category. */
    method ReadDcMagnitude(st0: nat, x1: nat) returns (ok: bool, v: nat, m: nat)
      requires Reading() && st0 + 14 < STAT_BINS && x1 + 28 < STAT_BINS
      modifies coder, coder.stats
      ensures Moved()
      ensures DecodeDcMagnitude(old(D()), st0, x1) == if ok then Got((v, m), D()) else Bad
    {
      hide Decoder.Valid, ValidScan, Bit, Advance, DecodeOnes, DecodeBits;
      assert Pow2(0) == 1;
      var st := st0;
      ghost var n := 0;
      ok, v := true, 0;
      m := ReadBit(st);
      if m != 0 {
        ok, st, m, n := ReadOnes(x1, m, 0);
        if !ok {
          return;
        }
      }
      NoBits(D(), st + 14);
      v := ReadBits(st + 14, m, n);
    }

    lemma NoBits(d: Dec, st: nat)
      requires Ready(d) && st < STAT_BINS
      ensures DecodeBits(d, st, 0, 0) == (0, d) && DecodeBits(d, st, 0, 1) == (1, d)
    {
    }

    /** Figures F.23 and F.24 for an AC magnitude less one. */
    method ReadAcMagnitude(st0: nat, x2: nat) returns (ok: bool, v: nat)
      requires Reading() && st0 + 14 < STAT_BINS && x2 + 27 < STAT_BINS
      modifies coder, coder.stats
      ensures Moved()
      ensures DecodeAcMagnitude(old(D()), st0, x2) == if ok then Got(v, D()) else Bad
    {
      hide Decoder.Valid, ValidScan, Bit, Advance, DecodeOnes, DecodeBits;
      assert Pow2(0) == 1 && Pow2(1) == 2;
      var st := st0;
      ghost var n := 0;
      ok, v := true, 0;
      var m := ReadBit(st);
      if m != 0 {
        var more := ReadBit(st);
        if more != 0 {
          m := 2 * m;
          ok, st, m, n := ReadOnes(x2, m, 1);
          if !ok {
            return;
          }
        }
      }
      NoBits(D(), st + 14);
      v := ReadBits(st + 14, m, n);
    }

    /** Figures F.19 and F.21: a DC difference, added to the prediction. */
    method ReadDc(ci: nat, tbl: nat) returns (ok: bool)
      requires Reading() && ValidDecPred(Predictions()) && ci < MAX_COMPS_IN_SCAN && tbl < NUM_ARITH_TBLS
      modifies coder, coder.stats, lastDcVal, dcContext
      ensures Moved() && old(dcContext[ci]) <= 16 && 0 <= old(lastDcVal[ci]) < 0x10000
      ensures var r := DecodeDc(old(D()), tbl, old(dcContext[ci]), scan.dcL[tbl], scan.dcU[tbl]);
        && (ok <==> r.Got?)
        && (ok ==>
              && D() == r.d && dcContext[..] == old(dcContext[..])[ci := r.value.1]
              && lastDcVal[..] == old(lastDcVal[..])[ci := NextLast(old(lastDcVal[ci]), r.value.0)])
    {
      hide Decoder.Valid, Bit, Advance, DecodeDcMagnitude, Pow2;
      assert Predictions().ctx[ci] <= 16 && 0 <= Predictions().last[ci] < 0x10000;
      hide ValidDecPred, ValidScan;
      ok := true;
      var st := DcBin(tbl, dcContext[ci]);
      var nonzero := ReadBit(st);
      if nonzero == 0 {
        dcContext[ci] := 0;
      } else {
        var sign := ReadBit(st + 1);
        st := st + 2 + sign;
        var v: int, m;
        ok, v, m := ReadDcMagnitude(st, DcBin(tbl, 20));
        if !ok {
          return;
        }
        if m < Pow2(scan.dcL[tbl]) / 2 {
          dcContext[ci] := 0;
        } else if m > Pow2(scan.dcU[tbl]) / 2 {
          dcContext[ci] := 12 + 4 * sign;
        } else {
          dcContext[ci] := 4 + 4 * sign;
        }
        v := v + 1;
        if sign == 1 {
          v := -v;
        }
        lastDcVal[ci] := (lastDcVal[ci] + v) % 0x10000;
      }
    }

    /** A block that is none of the decoder's own arrays. */
    ghost predicate Apart(block: array<int>) {
      block.Length == 64 && Foreign(block)
    }

    ghost predicate Foreign(block: array<int>) {
      block as object != coder.stats as object && block != lastDcVal && block as object != dcContext as object
    }

    // -------------------------------------------------------------------------
    // Bands
    // -------------------------------------------------------------------------

    /** `while (arith_decode(st + 1) == 0)`: zeros from index `k0` on; past the band's end they are an overflow. */
    method ReadZeroRun(k0: nat, se: nat, tbl: nat, ghost kx: nat, ghost al: nat, ghost block: seq<int>)
        returns (ok: bool, k: nat)
      requires Reading() && tbl < NUM_ARITH_TBLS && 1 <= k0 <= se <= 63 && |block| == 64
      modifies coder, coder.stats
      ensures Moved() && (ok ==> k0 <= k <= se)
      ensures DecodeAcRun(old(D()), k0, se, tbl, kx, al, block)
        == if ok then DecodeAcRest(D(), k, se, tbl, kx, al, block) else Bad
    {
      hide Decoder.Valid, ValidScan, Bit, Advance, DecodeAcRest;
      ok, k := true, k0;
      var st := AcEob(tbl, k);
      var flag := ReadBit(st + 1);
      while flag == 0
        invariant Moved() && k0 <= k <= se && st == AcEob(tbl, k) && flag <= 1
        invariant DecodeAcRun(old(D()), k0, se, tbl, kx, al, block)
          == if flag == 1 then DecodeAcRest(D(), k, se, tbl, kx, al, block)
             else if k + 1 > se then Bad else DecodeAcRun(D(), k + 1, se, tbl, kx, al, block)
        decreases se - k, 1 - flag
      {
        st := st + 3;
        k := k + 1;
        if k > se {
          ok := false;
          return;
        }
        flag := ReadBit(st + 1);
      }
    }

    /** The sign and magnitude of a nonzero coefficient. */
    method ReadAcCoef(k: nat, tbl: nat, kx: nat) returns (ok: bool, v: int)
      requires Reading() && tbl < NUM_ARITH_TBLS && 1 <= k <= 63
      modifies coder, coder.stats
      ensures Moved()
      ensures DecodeAcCoef(old(D()), k, tbl, kx) == if ok then Got(v, D()) else Bad
    {
      hide Decoder.Valid, ValidScan, Bit, Advance, DecodeAcMagnitude;
      var sign := ReadBit(FIXED_BIN);
      ok, v := ReadAcMagnitude(AcEob(tbl, k) + 2, AcX2(tbl, k, kx));
      v := v + 1;
      if sign == 1 {
        v := -v;
      }
    }

    /** Figure F.20: the AC coefficients k0..se of a block, scaled by 2^al. */
    method ReadAcBand(block: array<int>, k0: nat, se: nat, tbl: nat, kx: nat, al: nat) returns (ok: bool)
      requires Reading() && Apart(block) && tbl < NUM_ARITH_TBLS && 1 <= k0 && se <= 63
      modifies coder, coder.stats, block
      ensures Moved()
      ensures DecodeAcBand(old(D()), k0, se, tbl, kx, al, old(Coefs(block))) == if ok then Got(Coefs(block), D()) else Bad
    {
      hide Decoder.Valid, ValidScan, Bit, Advance, DecodeAcRun, DecodeAcCoef, Short, Pow2;
      ok := true;
      var k := k0;
      while k <= se
        invariant Moved() && ok && k >= 1
        invariant DecodeAcBand(D(), k, se, tbl, kx, al, Coefs(block))
          == DecodeAcBand(old(D()), k0, se, tbl, kx, al, old(Coefs(block)))
        decreases 64 - k
      {
        ghost var was := Coefs(block);
        var end := ReadBit(AcEob(tbl, k));
        if end != 0 {
          return;
        }
        ok, k := ReadZeroRun(k, se, tbl, kx, al, was);
        if !ok {
          return;
        }
        var v;
        ok, v := ReadAcCoef(k, tbl, kx);
        if !ok {
          return;
        }
        block[k] := Short(v * Pow2(al));
        assert Coefs(block) == was[k := Short(v * Pow2(al))];
        k := k + 1;
      }
    }

    /** From index `k0` on up to the next coefficient that is or becomes nonzero; past the band's end is an overflow. */
    method ReadRefineRun(block: array<int>, k0: nat, kex: nat, se: nat, tbl: nat, al: nat) returns (ok: bool, k: nat)
      requires Reading() && Apart(block) && tbl < NUM_ARITH_TBLS && 1 <= k0 <= se <= 63
      modifies coder, coder.stats, block
      ensures Moved() && (ok ==> k0 <= k <= se)
      ensures DecodeRefineRun(old(D()), k0, kex, se, tbl, al, old(Coefs(block)))
        == if ok then DecodeRefineBand(D(), k + 1, kex, se, tbl, al, Coefs(block)) else Bad
    {
      hide Decoder.Valid, ValidScan, Bit, Advance, DecodeRefineBand, Short, Pow2;
      ok, k := true, k0;
      var st := AcEob(tbl, k);
      ghost var was := Coefs(block);
      while true
        invariant Moved() && k0 <= k <= se && st == AcEob(tbl, k) && ok && Coefs(block) == was
        invariant DecodeRefineRun(D(), k, kex, se, tbl, al, was) == DecodeRefineRun(old(D()), k0, kex, se, tbl, al, was)
        decreases se - k
      {
        var coef := block[k];
        if coef != 0 {
          var next := ReadBit(st + 2);
          block[k] := Short(coef + if next == 0 then 0 else WithSign(coef < 0, Pow2(al)));
          assert Coefs(block) == was[k := block[k]];
          return;
        }
        var flag := ReadBit(st + 1);
        if flag != 0 {
          var sign := ReadBit(FIXED_BIN);
          block[k] := Short(WithSign(sign == 1, Pow2(al)));
          assert Coefs(block) == was[k := block[k]];
          return;
        }
        st := st + 3;
        k := k + 1;
        if k > se {
          ok := false;
          return;
        }
      }
    }

    /** The refinement of the AC coefficients k0..se of a block to bit al. */
    method ReadRefineBand(block: array<int>, k0: nat, kex: nat, se: nat, tbl: nat, al: nat) returns (ok: bool)
      requires Reading() && Apart(block) && tbl < NUM_ARITH_TBLS && 1 <= k0 && se <= 63
      modifies coder, coder.stats, block
      ensures Moved()
      ensures DecodeRefineBand(old(D()), k0, kex, se, tbl, al, old(Coefs(block)))
        == if ok then Got(Coefs(block), D()) else Bad
    {
      hide Decoder.Valid, ValidScan, Bit, Advance, DecodeRefineRun;
      ok := true;
      var k := k0;
      while k <= se
        invariant Moved() && ok && k >= 1
        invariant DecodeRefineBand(D(), k, kex, se, tbl, al, Coefs(block))
          == DecodeRefineBand(old(D()), k0, kex, se, tbl, al, old(Coefs(block)))
        decreases 64 - k
      {
        if k > kex {
          var end := ReadBit(AcEob(tbl, k));
          if end != 0 {
            return;
          }
        }
        ok, k := ReadRefineRun(block, k, kex, se, tbl, al);
        if !ok {
          return;
        }
        k := k + 1;
      }
    }

    // -------------------------------------------------------------------------
    // Blocks, in the five modes
    // -------------------------------------------------------------------------

    /** Between the blocks of a segment. */
    ghost predicate AtBlock()
      reads this, coder, coder.stats, lastDcVal, dcContext
    {
      Reading() && ValidDecPred(Predictions())
    }

    /** Figure F.19 and the DC coefficient of block `i`, scaled by 2^al. */
    method ReadDcBlock(block: array<int>, i: nat) returns (ok: bool)
      requires AtBlock() && Apart(block) && i < |scan.membership|
      modifies coder, coder.stats, lastDcVal, dcContext, block
      ensures Moved()
      ensures DecodeDcBlock(scan, old(Predictions()), old(D()), i, old(Coefs(block)))
        == if ok then Got((Coefs(block), Predictions()), D()) else Bad
    {
      hide Decoder.Valid, DecodeDc, NextLast, Short, Pow2;
      var ci := scan.membership[i];
      ghost var was := Coefs(block);
      ok := ReadDc(ci, DcTbl(scan, i));
      if ok {
        block[0] := Short(lastDcVal[ci] * Pow2(scan.al));
        assert Coefs(block) == was[0 := block[0]];
      }
    }

    /** The end of the block at the previous stage: the last index in 1..se with a nonzero coefficient, or 0. */
    method FindEnd(block: array<int>, se: nat) returns (kex: nat)
      requires block.Length == 64 && se <= 63
      ensures kex == EndOfBlock(block[..], se)
    {
      kex := se;
      while kex > 0 && block[kex] == 0
        invariant kex <= se && EndOfBlock(block[..], kex) == EndOfBlock(block[..], se)
      {
        kex := kex - 1;
      }
    }

    /** One block, in place: `decode_mcu` and its four progressive forms. */
    method DecodeBlock(block: array<int>, i: nat) returns (ok: bool)
      requires AtBlock() && Apart(block) && i < |scan.membership|
      modifies coder, coder.stats, lastDcVal, dcContext, block
      ensures Moved()
      ensures ScanModel.DecodeBlock(scan, old(Predictions()), old(D()), i, old(Coefs(block)))
        == if ok then Got((Coefs(block), Predictions()), D()) else Bad
    {
      hide Decoder.Valid, DecodeDcBlock, DecodeAcBand, DecodeRefineBand, Bit, Advance, OrBit;
      var tbl := AcTbl(scan, i);
      match ModeOf(scan) {
        case Sequential =>
          ok := ReadDcBlock(block, i);
          if ok {
            ok := ReadAcBand(block, 1, 63, tbl, scan.acK[tbl], 0);
          }
        case DcFirst =>
          ok := ReadDcBlock(block, i);
        case AcFirst =>
          ok := ReadAcBand(block, scan.ss, scan.se, tbl, scan.acK[tbl], scan.al);
        case DcRefine =>
          ok := RefineDcBlock(block);
        case AcRefine =>
          var kex := FindEnd(block, scan.se);
          ok := ReadRefineBand(block, scan.ss, kex, scan.se, tbl, scan.al);
      }
    }

    /** The next bit of the DC coefficient. */
    method RefineDcBlock(block: array<int>) returns (ok: bool)
      requires Reading() && Apart(block)
      modifies coder, coder.stats, block
      ensures Moved() && ok && D() == Advance(old(D()), FIXED_BIN)
      ensures var was := old(Coefs(block));
        Coefs(block) == was[0 := if Bit(old(D()), FIXED_BIN) == 1 then OrBit(was[0], scan.al) else was[0]]
    {
      hide Decoder.Valid, Bit, Advance, OrBit;
      ghost var was := Coefs(block);
      ok := true;
      var bit := ReadBit(FIXED_BIN);
      if bit == 1 {
        block[0] := OrBit(block[0], scan.al);
      }
      assert Coefs(block) == was[0 := block[0]];
    }

    // -------------------------------------------------------------------------
    // MCUs
    // -------------------------------------------------------------------------

    /** The blocks of an MCU, none of them twice. */
    ghost predicate Separate(mcu: seq<array<int>>) {
      && (forall i :: 0 <= i < |mcu| ==> Apart(mcu[i]))
      && forall i, j :: 0 <= i < j < |mcu| ==> mcu[i] != mcu[j]
    }

    /** Block `i` of an MCU; the others are left alone. */
    method DecodeBlockAt(mcu: seq<array<int>>, i: nat) returns (ok: bool)
      requires AtBlock() && Separate(mcu) && i < |mcu| == |scan.membership|
      modifies coder, coder.stats, lastDcVal, dcContext, mcu[i]
      ensures Moved() && (ok ==> AtBlock())
      ensures ScanModel.DecodeBlock(scan, old(Predictions()), old(D()), i, old(McuCoefs(mcu))[i])
        == if ok then Got((McuCoefs(mcu)[i], Predictions()), D()) else Bad
      ensures McuCoefs(mcu) == old(McuCoefs(mcu))[i := McuCoefs(mcu)[i]]
    {
      hide Decoder.Valid, ScanModel.DecodeBlock, EntropyDecoder.Reading, ValidDecPred, McuCoefs, ValidScan;
      ok := DecodeBlock(mcu[i], i);
    }

    /** All blocks of an MCU, in place. */
    method DecodeMcu(mcu: seq<array<int>>) returns (ok: bool)
      requires AtBlock() && Separate(mcu) && |mcu| == |scan.membership|
      modifies coder, coder.stats, lastDcVal, dcContext, set b | b in mcu
      ensures Moved() && (ok ==> AtBlock())
      ensures ScanModel.DecodeMcu(scan, old(Predictions()), old(D()), old(McuCoefs(mcu)), 0)
        == if ok then Got((McuCoefs(mcu), Predictions()), D()) else Bad
    {
      hide Decoder.Valid, ScanModel.DecodeBlock, ValidDecPred, McuCoefs, ValidScan, EntropyDecoder.Separate, Ready;
      ok := true;
      for blkn := 0 to |mcu|
        invariant AtBlock() && Moved()
        invariant ScanModel.DecodeMcu(scan, old(Predictions()), old(D()), old(McuCoefs(mcu)), 0)
          == ScanModel.DecodeMcu(scan, Predictions(), D(), McuCoefs(mcu), blkn)
      {
        ok := DecodeBlockAt(mcu, blkn);
        if !ok {
          return;
        }
      }
    }

    // -------------------------------------------------------------------------
    // Passes and restarts
    // -------------------------------------------------------------------------

    /** Within a pass: the registers read the segment that starts at `seg`. */
    ghost predicate Valid()
      reads this, coder, coder.stats, lastDcVal, dcContext
    {
      && AtBlock() && Terminated(coder.data, seg)
      && coder.code == Unstuff(coder.data, seg) && coder.past == PastMarker(coder.data, seg)
    }

    ghost function State(): DecPass
      reads this, coder, lastDcVal, dcContext
    {
      DecPass(seg, D(), Predictions(), restartsToGo, nextRestartNum)
    }

    /** A segment begins at `pos`, with everything re-initialized: common to `start_pass` and `process_restart`. */
    method Begin(pos: nat)
      requires Idle() && Terminated(coder.data, pos)
      modifies this, coder, coder.stats, lastDcVal, dcContext
      ensures Valid() && scan == old(scan) && restartsToGo == scan.restartInterval
      ensures nextRestartNum == old(nextRestartNum)
      ensures var bins := ResetBins(scan, old(coder.stats[..]), 0);
        State() == DecPass(pos, Dec(Start(bins), Unstuff(coder.data, pos)), ResetPred(scan, old(Predictions())),
                           scan.restartInterval, nextRestartNum)
    {
      hide Decoder.Valid, ResetBins, ResetPred, ValidScan, Terminated, Unstuff, PastMarker;
      ghost var p := Predictions();
      ClearAreas(scan, coder.stats, lastDcVal, dcContext);
      coder.pos := pos;
      coder.Restart();
      restartsToGo := scan.restartInterval;
      seg := pos;
      assert ValidDecPred(ResetPred(scan, p));
    }

    /** `start_pass`, for a scan whose data starts at `pos`. */
    method StartPass(scan: Scan, pos: nat)
      requires Idle() && ValidScan(scan) && Terminated(coder.data, pos)
      modifies this, coder, coder.stats, lastDcVal, dcContext
      ensures Valid() && this.scan == scan
      ensures State() == DecStart(scan, coder.data, pos, old(coder.stats[..]), old(Predictions()))
    {
      hide Decoder.Valid, ResetBins, ResetPred, ValidScan, Terminated, Unstuff, PastMarker;
      this.scan := scan;
      nextRestartNum := 0;
      Begin(pos);
    }

    /** Between two calls the pass could also end. */
    lemma PassValid()
      requires Valid()
      ensures Idle() && ValidDecPass(scan, coder.data, State())
      ensures coder.stats[..] == State().d.k.bins && Predictions() == State().pred
    {
    }

    /** `read_restart_marker`: refuses any marker but the one expected, and one that no other marker follows. */
    method ReadRestartMarker() returns (ok: bool)
      requires Valid()
      modifies coder`pos, coder`unreadMarker
      ensures coder.pos == PastMarker(coder.data, seg)
      ensures ok <==> coder.data[coder.pos - 1] == Rst(nextRestartNum) && Terminated(coder.data, coder.pos)
    {
      hide ValidScan, Terminated, Unstuff, PastMarker;
      if coder.unreadMarker == 0 {
        coder.NextMarker();
      }
      ok := coder.unreadMarker == Rst(nextRestartNum) && Terminated(coder.data, coder.pos);
    }

    /** `process_restart`. */
    method ProcessRestart() returns (ok: bool)
      requires Valid()
      modifies this, coder, coder.stats, lastDcVal, dcContext
      ensures scan == old(scan)
      ensures old(ValidDecPass(scan, coder.data, State()))
      ensures var q := PastMarker(coder.data, old(seg));
        ok <==> coder.data[q - 1] == Rst(old(nextRestartNum)) && Terminated(coder.data, q)
      ensures ok ==> Valid() && State() == DecRestarted(scan, coder.data, old(State()))
      ensures ok ==> restartsToGo == scan.restartInterval
    {
      hide Decoder.Valid, ValidBins, ValidDecPred, ResetBins, ResetPred, ValidScan, Terminated, Unstuff, PastMarker, Ready;
      PassValid();
      ok := ReadRestartMarker();
      if ok {
        nextRestartNum := (nextRestartNum + 1) % 8;
        Begin(coder.pos);
      }
    }

    /** The start of every MCU routine: process a restart marker if needed. */
    method CheckRestart() returns (ok: bool)
      requires Valid()
      modifies this, coder, coder.stats, lastDcVal, dcContext
      ensures scan == old(scan) && old(ValidDecPass(scan, coder.data, State()))
      ensures old(RestartDue(scan, restartsToGo)) ==>
        var q := PastMarker(coder.data, old(seg));
        && (ok <==> coder.data[q - 1] == Rst(old(nextRestartNum)) && Terminated(coder.data, q))
        && (ok ==> Valid() && OneLess(DecRestarted(scan, coder.data, old(State()))))
      ensures !old(RestartDue(scan, restartsToGo)) ==> ok && Valid() && OneLess(old(State()))
    {
      hide Decoder.Valid, ValidScan, Terminated, Unstuff, PastMarker, DecRestarted;
      ok := true;
      if scan.restartInterval > 0 {
        if restartsToGo == 0 {
          ok := ProcessRestart();
          if !ok {
            return;
          }
        }
        restartsToGo := restartsToGo - 1;
      }
    }

    /** The pass stands as in `g`, with an MCU less to go. */
    ghost predicate OneLess(g: DecPass)
      reads this, coder, lastDcVal, dcContext
    {
      State() == g.(toGo := restartsToGo) && (if scan.restartInterval > 0 then g.toGo == restartsToGo + 1 else g.toGo == restartsToGo)
    }

    // -------------------------------------------------------------------------
    // Scans
    // -------------------------------------------------------------------------

    /** The blocks of a whole scan, none of them twice. */
    ghost predicate AllSeparate(image: seq<seq<array<int>>>)
      reads this`scan
    {
      && (forall m :: 0 <= m < |image| ==> |image[m]| == |scan.membership| && Separate(image[m]))
      && forall m, n, i, j :: 0 <= m < n < |image| && 0 <= i < |image[m]| && 0 <= j < |image[n]| ==> image[m][i] != image[n][j]
    }

    /** As many blocks for each MCU as the scan has. */
    ghost predicate Whole(befores: seq<seq<Block>>)
      reads this
    {
      forall m :: 0 <= m < |befores| ==> |befores[m]| == |scan.membership|
    }

    /** What decoding gives from here on, in place of `befores`. */
    ghost function Rest(befores: seq<seq<Block>>): (r: Decoded)
      requires Valid() && Whole(befores)
      reads this, coder, coder.stats, lastDcVal, dcContext
      ensures WellShaped(scan, |befores|, r)
    {
      PassValid();
      ScanCodec.DecodeScan(scan, coder.data, State(), befores)
    }

    /** The next MCU, with a restart before it if one is due. */
    method DecodeNext(mcu: seq<array<int>>, ghost rest: seq<seq<Block>>) returns (ok: bool)
      requires Valid() && Separate(mcu) && |mcu| == |scan.membership| && Whole(rest)
      modifies this, coder, coder.stats, lastDcVal, dcContext, set b | b in mcu
      ensures scan == old(scan) && (ok ==> Valid())
      ensures old(Rest([McuCoefs(mcu)] + rest)) == if ok then Behind(scan, |rest|, [McuCoefs(mcu)], Rest(rest)) else Damaged
    {
      hide Decoder.Valid, ScanModel.DecodeMcu, ValidBins, ValidDecPred, DecRestarted, ValidScan, Terminated, Unstuff, PastMarker, Ready;
      PassValid();
      ghost var g := State();
      ghost var befores := [McuCoefs(mcu)] + rest;
      assert befores[0] == McuCoefs(mcu) && befores[1..] == rest;
      ok := CheckRestart();
      if !ok {
        return;
      }
      PassValid();
      ghost var g1 := if RestartDue(scan, g.toGo) then DecRestarted(scan, coder.data, g) else g;
      assert ScanCodec.DecodeScan(scan, coder.data, g, befores) == ScanCodec.DecodeScan(scan, coder.data, g1, befores);
      ok := DecodeMcu(mcu);
      if ok {
        assert State() == DecCoded(scan, coder.data, g1, D(), Predictions());
      }
    }

    /** The same for MCU `m` of a scan; the others are left alone. */
    method DecodeAt(image: seq<seq<array<int>>>, m: nat, ghost rest: seq<seq<Block>>) returns (ok: bool)
      requires Valid() && m < |image| && Separate(image[m]) && |image[m]| == |scan.membership| && Whole(rest)
      requires forall n, b :: 0 <= n < |image| && n != m && b in image[n] ==> Foreign(b) && b !in image[m]
      modifies this, coder, coder.stats, lastDcVal, dcContext, set b | b in image[m]
      ensures scan == old(scan) && (ok ==> Valid())
      ensures old(Rest([McuCoefs(image[m])] + rest))
        == if ok then Behind(scan, |rest|, [McuCoefs(image[m])], Rest(rest)) else Damaged
      ensures AllCoefs(image) == old(AllCoefs(image))[m := McuCoefs(image[m])]
    {
      hide EntropyDecoder.Valid, EntropyDecoder.Rest, EntropyDecoder.Separate, ValidScan, Behind, McuCoefs, AllCoefs, WellShaped;
      ok := DecodeNext(image[m], rest);
      forall n | 0 <= n < |image| && n != m ensures McuCoefs(image[n]) == old(McuCoefs(image[n])) {
        assert forall b :: b in image[n] ==> Foreign(b) && b !in image[m];
      }
    }

    /** All MCUs of a scan, in place. */
    method DecodeScan(image: seq<seq<array<int>>>) returns (ok: bool)
      requires Valid() && AllSeparate(image)
      modifies this, coder, coder.stats, lastDcVal, dcContext, set m, b | m in image && b in m :: b
      ensures scan == old(scan)
      ensures old(Rest(AllCoefs(image))) == if ok then Mcus(AllCoefs(image), coder.stats[..], Predictions()) else Damaged
    {
      hide EntropyDecoder.Valid, EntropyDecoder.Rest, EntropyDecoder.AllSeparate, EntropyDecoder.Separate;
      hide ValidScan, Behind, McuCoefs, AllCoefs, WellShaped, EntropyDecoder.Foreign;
      ImageShaped(image);
      ok := true;
      ghost var now := AllCoefs(image);
      BehindNothing(scan, |now|, Rest(now));
      assert now[0..] == now && now[..0] == [];
      for m := 0 to |image|
        invariant Valid() && scan == old(scan) && ok
        invariant now == AllCoefs(image) && Whole(now)
        invariant old(Rest(AllCoefs(image))) == Behind(scan, |image| - m, now[..m], Rest(now[m..]))
      {
        OthersApart(image, m);
        assert now[m..] == [now[m]] + now[m + 1..];
        ok := DecodeAt(image, m, now[m + 1..]);
        ghost var was := now;
        now := AllCoefs(image);
        if !ok {
          BehindDamage(scan, |image| - m, was[..m]);
          return;
        }
        Slices(was, now, m);
        BehindBoth(scan, |image| - m - 1, now[..m], [now[m]], Rest(now[m + 1..]));
      }
      assert now[|image|..] == [] && now[..|image|] == now;
      NothingLeft(now);
    }

    lemma Slices(was: seq<seq<Block>>, now: seq<seq<Block>>, m: nat)
      requires m < |was| == |now| && now == was[m := now[m]]
      ensures now[m + 1..] == was[m + 1..] && now[..m] == was[..m] && now[..m + 1] == now[..m] + [now[m]]
    {
    }

    lemma OthersApart(image: seq<seq<array<int>>>, m: nat)
      requires AllSeparate(image) && m < |image|
      ensures Separate(image[m]) && |image[m]| == |scan.membership|
      ensures forall n, b :: 0 <= n < |image| && n != m && b in image[n] ==> Foreign(b) && b !in image[m]
    {
    }

    lemma ImageShaped(image: seq<seq<array<int>>>)
      requires AllSeparate(image)
      ensures Whole(AllCoefs(image))
    {
    }

    lemma NothingLeft(mcus: seq<seq<Block>>)
      requires Valid() && Whole(mcus)
      ensures Behind(scan, 0, mcus, Rest([])) == Mcus(mcus, coder.stats[..], Predictions())
    {
      PassValid();
      assert mcus + [] == mcus;
    }
  }

  lemma BehindNothing(scan: Scan, n: nat, r: Decoded)
    requires WellShaped(scan, n, r)
    ensures Behind(scan, n, [], r) == r
  {
  }

  lemma BehindBoth(scan: Scan, n: nat, a: seq<seq<Block>>, b: seq<seq<Block>>, r: Decoded)
    requires WellShaped(scan, n, r) && forall m :: 0 <= m < |a| ==> |a[m]| == |scan.membership|
    requires forall m :: 0 <= m < |b| ==> |b[m]| == |scan.membership|
    ensures Behind(scan, n + |b|, a, Behind(scan, n, b, r)) == Behind(scan, n, a + b, r)
  {
    if r.Mcus? {
      assert a + (b + r.mcus) == a + b + r.mcus;
    }
  }

  lemma BehindDamage(scan: Scan, n: nat, mcus: seq<seq<Block>>)
    requires forall m :: 0 <= m < |mcus| ==> |mcus[m]| == |scan.membership|
    ensures Behind(scan, n, mcus, Damaged) == Damaged
  {
  }

  /** What the blocks of a whole scan hold. */
  ghost function AllCoefs(image: seq<seq<array<int>>>): (r: seq<seq<Block>>)
    ensures |r| == |image| && forall m :: 0 <= m < |image| ==> r[m] == McuCoefs(image[m])
    reads set m, b | m in image && b in m :: b
  {
    if image == [] then [] else AllCoefs(image[..|image| - 1]) + [McuCoefs(image[|image| - 1])]
  }

  /** What the blocks of an MCU hold. */
  ghost function McuCoefs(mcu: seq<array<int>>): (r: seq<Block>)
    ensures |r| == |mcu| && forall i :: 0 <= i < |mcu| ==> r[i] == Coefs(mcu[i])
    reads set b | b in mcu
  {
    if mcu == [] then [] else McuCoefs(mcu[..|mcu| - 1]) + [Coefs(mcu[|mcu| - 1])]
  }
}
