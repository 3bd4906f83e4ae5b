/** The coefficient buffer controller of jccoefct.c: streaming, buffered, and suspension. */
module CoefController {
  import opened Coefficients
  import opened Arith
  import opened CoefLayout
  import opened CoefDelivery

  /** The entropy encoder as the controller sees it: it may refuse any call, as `verdict` says. */
  class EntropySink {
    const verdict: nat -> bool
    var attempts: nat
    var accepted: seq<seq<Block>>

    /** Attempts `lo` to `hi` were all accepted. */
    ghost predicate Accepted(lo: nat, hi: nat) {
      forall a :: lo <= a < hi ==> verdict(a)
    }

    constructor (verdict: nat -> bool)
      ensures this.verdict == verdict && attempts == 0 && accepted == []
    {
      this.verdict := verdict;
      attempts, accepted := 0, [];
    }

    method EncodeMcu(mcu: seq<Block>) returns (ok: bool)
      modifies this
      ensures ok == verdict(old(attempts)) && attempts == old(attempts) + 1
      ensures accepted == old(accepted) + if ok then [mcu] else []
    {
      ok := verdict(attempts);
      attempts := attempts + 1;
      if ok {
        accepted := accepted + [mcu];
      }
    }
  }

  /** The buffer modes of `start_pass_coef`. */
  datatype PassMode = PassThru | SaveAndPass | CrankDest

  class Controller {
    const job: Job
    const entropy: EntropySink
    var iMcuRowNum: nat
    var mcuCtr: nat
    var mcuVertOffset: nat
    var mcuRowsPerIMcuRow: nat
    const mcuBuffer: array<Block>
    const wholeImage: seq<array2<Block>>  // a padded block array for each component

    ghost predicate Shape()
    {
      && ValidJob(job) && mcuBuffer.Length == MAX_BLOCKS_IN_MCU
      && |wholeImage| == |job.frame.comps|
      && (forall c :: 0 <= c < |wholeImage| ==>
            && wholeImage[c].Length0 == FrameRows(job.frame) * job.frame.comps[c].v
            && wholeImage[c].Length1 == FrameCols(job.frame) * job.frame.comps[c].h)
      && (forall c, e :: 0 <= c < e < |wholeImage| ==> wholeImage[c] != wholeImage[e])
    }

    /** Everything before the current position was accepted exactly once, in raster order, and nothing else. */
    ghost predicate Valid()
      reads this, entropy
    {
      && Shape()
      && iMcuRowNum <= FrameRows(job.frame)
      && mcuRowsPerIMcuRow == McuRows(job, iMcuRowNum)
      && mcuVertOffset < mcuRowsPerIMcuRow && mcuCtr < McusPerRow(job)
      && (iMcuRowNum == FrameRows(job.frame) ==> mcuVertOffset == mcuCtr == 0)
      && entropy.accepted == Raster(job, iMcuRowNum, mcuVertOffset, mcuCtr)
    }

    constructor (job: Job, entropy: EntropySink)
      requires ValidJob(job) && entropy.accepted == []
      ensures Valid() && this.job == job && this.entropy == entropy
      ensures iMcuRowNum == mcuVertOffset == mcuCtr == 0
    {
      hide CeilDiv, LastRowHeight, Mcu;
      this.job, this.entropy := job, entropy;
      var blank := ZeroBlock();
      mcuBuffer := new Block[MAX_BLOCKS_IN_MCU](_ => blank);
      var whole: seq<array2<Block>> := [];
      for c := 0 to |job.frame.comps|
        invariant |whole| == c
        invariant forall e :: 0 <= e < c ==>
          && fresh(whole[e])
          && whole[e].Length0 == FrameRows(job.frame) * job.frame.comps[e].v
          && whole[e].Length1 == FrameCols(job.frame) * job.frame.comps[e].h
        invariant forall d, e :: 0 <= d < e < c ==> whole[d] != whole[e]
      {
        var plane := new Block[FrameRows(job.frame) * job.frame.comps[c].v, FrameCols(job.frame) * job.frame.comps[c].h]((_, _) => blank);
        whole := whole + [plane];
      }
      wholeImage := whole;
      iMcuRowNum := 0;
      mcuCtr, mcuVertOffset := 0, 0;
      mcuRowsPerIMcuRow := McuRows(job, 0);
      SizesPositive(job.frame, job.scan[0]);
    }

    /** `start_iMCU_row`. */
    method StartIMcuRow()
      requires Shape()
      modifies this
      ensures iMcuRowNum == old(iMcuRowNum) && mcuCtr == mcuVertOffset == 0
      ensures mcuRowsPerIMcuRow == McuRows(job, iMcuRowNum)
    {
      if |job.scan| > 1 {
        mcuRowsPerIMcuRow := 1;
      } else if iMcuRowNum < FrameRows(job.frame) - 1 {
        mcuRowsPerIMcuRow := CompOf(job, 0).v;
      } else {
        mcuRowsPerIMcuRow := LastRowHeight(job, 0);
      }
      mcuCtr := 0;
      mcuVertOffset := 0;
    }

    // -------------------------------------------------------------------------
    // Streaming: one MCU at a time
    // -------------------------------------------------------------------------

    /** One block row of component `i` of an MCU, from position `blkn` of the MCU buffer on. */
    method StreamRow(i: nat, off: nat, col: nat, blkn: nat, mw: nat, r: nat, x: nat)
      requires Shape() && InMcu(job, i, iMcuRowNum, off, col)
      requires mw == McuW(job, i) && r == iMcuRowNum * CompOf(job, i).v + off && x == col * mw
      requires blkn + mw <= MAX_BLOCKS_IN_MCU
      requires Interleaved(job) && off > 0 ==>
        blkn > 0 && r > 0 && mcuBuffer[blkn - 1] == Virtual(job, job.scan[i], r - 1, x + mw - 1)
      modifies mcuBuffer
      ensures mcuBuffer[..blkn] == old(mcuBuffer[..blkn])
      ensures mcuBuffer[..][blkn..blkn + mw] == RowBlocks(job, job.scan[i], r, x, mw)
    {
      hide CeilDiv, Virtual, LastGroup, Dummy, WidthInBlocks, HeightInBlocks, RowBlocks, RealThenDummies, AllDummies;
      var c := job.scan[i];
      var blockcnt := if col < McusPerRow(job) - 1 then mw else LastColWidth(job, i);
      if iMcuRowNum < FrameRows(job.frame) - 1 || off < LastRowHeight(job, i) {
        RowReal(job, i, iMcuRowNum, off, col);
        StreamRealRow(c, r, x, blkn, blockcnt, mw);
      } else {
        RowBelow(job, i, iMcuRowNum, off, col);
        StreamDummyRow(c, r, x, blkn, mw);
      }
    }

    /** Real blocks from the image, then dummies up to the MCU width. */
    method StreamRealRow(c: nat, r: nat, x: nat, blkn: nat, n: nat, mw: nat)
      requires Shape() && c < |job.frame.comps| && blkn + mw <= MAX_BLOCKS_IN_MCU
      requires RealThenDummies(job, c, r, x, n, mw)
      modifies mcuBuffer
      ensures mcuBuffer[..blkn] == old(mcuBuffer[..blkn])
      ensures mcuBuffer[..][blkn..blkn + mw] == RowBlocks(job, c, r, x, mw)
    {
      hide Virtual, RowBlocks, Dummy;
      ForwardDct(c, r, x, blkn, n);
      assert mcuBuffer[blkn + n - 1] == job.dct(c, r, x + n - 1);
      ghost var taken := mcuBuffer[..blkn + n];
      DummiesRight(blkn, blkn + n, blkn + mw);
      assert mcuBuffer[..blkn] == taken[..blkn];
      forall k | blkn <= k < blkn + n ensures mcuBuffer[k] == Virtual(job, c, r, x + (k - blkn)) {
        assert mcuBuffer[k] == taken[k];
      }
      RowInBuffer(mcuBuffer[..], c, r, x, blkn, mw);
    }

    /** A row of dummies, with the DC value of the block before it in the MCU. */
    method StreamDummyRow(c: nat, r: nat, x: nat, blkn: nat, mw: nat)
      requires Shape() && c < |job.frame.comps| && 0 < blkn && blkn + mw <= MAX_BLOCKS_IN_MCU
      requires AllDummies(job, c, r, x, mw) && mcuBuffer[blkn - 1] == Virtual(job, c, r - 1, x + mw - 1)
      modifies mcuBuffer
      ensures mcuBuffer[..blkn] == old(mcuBuffer[..blkn])
      ensures mcuBuffer[..][blkn..blkn + mw] == RowBlocks(job, c, r, x, mw)
    {
      hide Virtual, RowBlocks, Dummy;
      DummiesBelow(blkn, mw);
      RowInBuffer(mcuBuffer[..], c, r, x, blkn, mw);
    }

    lemma RowInBuffer(buf: seq<Block>, c: nat, r: nat, x: nat, blkn: nat, n: nat)
      requires Shape() && c < |job.frame.comps| && blkn + n <= |buf|
      requires forall k :: blkn <= k < blkn + n ==> buf[k] == Virtual(job, c, r, x + (k - blkn))
      ensures buf[blkn..blkn + n] == RowBlocks(job, c, r, x, n)
    {
      hide Virtual;
      forall t | 0 <= t < n ensures buf[blkn..blkn + n][t] == RowBlocks(job, c, r, x, n)[t] {
        assert buf[blkn + t] == Virtual(job, c, r, x + t);
      }
    }

    /** Dummy blocks at the right edge, each with the DC value of its left neighbour. */
    method DummiesRight(blkn: nat, lo: nat, hi: nat)
      requires Shape() && blkn < lo <= hi <= MAX_BLOCKS_IN_MCU
      modifies mcuBuffer
      ensures mcuBuffer[..lo] == old(mcuBuffer[..lo])
      ensures forall k :: lo <= k < hi ==> mcuBuffer[k] == Dummy(old(mcuBuffer[lo - 1])[0])
    {
      for bi := lo to hi
        invariant mcuBuffer[..lo] == old(mcuBuffer[..lo])
        invariant mcuBuffer[bi - 1][0] == old(mcuBuffer[lo - 1])[0]
        invariant forall k :: lo <= k < bi ==> mcuBuffer[k] == Dummy(old(mcuBuffer[lo - 1])[0])
      {
        mcuBuffer[bi] := Dummy(mcuBuffer[bi - 1][0]);
      }
    }

    /** A row of dummy blocks at the bottom, with the DC value of the block before them. */
    method DummiesBelow(blkn: nat, n: nat)
      requires Shape() && 0 < blkn && blkn + n <= MAX_BLOCKS_IN_MCU
      modifies mcuBuffer
      ensures mcuBuffer[..blkn] == old(mcuBuffer[..blkn])
      ensures forall k :: blkn <= k < blkn + n ==> mcuBuffer[k] == Dummy(old(mcuBuffer[blkn - 1])[0])
    {
      for bi := 0 to n
        invariant mcuBuffer[..blkn] == old(mcuBuffer[..blkn])
        invariant mcuBuffer[blkn - 1] == old(mcuBuffer[blkn - 1])
        invariant forall k :: blkn <= k < blkn + bi ==> mcuBuffer[k] == Dummy(old(mcuBuffer[blkn - 1])[0])
      {
        mcuBuffer[blkn + bi] := Dummy(mcuBuffer[blkn - 1][0]);
      }
    }

    /** `forward_DCT` of `n` blocks in a row, into the MCU buffer. */
    method ForwardDct(c: nat, r: nat, x: nat, blkn: nat, n: nat)
      requires Shape() && c < |job.frame.comps| && blkn + n <= MAX_BLOCKS_IN_MCU
      requires forall k :: x <= k < x + n ==> Virtual(job, c, r, k) == job.dct(c, r, k)
      modifies mcuBuffer
      ensures mcuBuffer[..blkn] == old(mcuBuffer[..blkn])
      ensures forall k :: blkn <= k < blkn + n ==> mcuBuffer[k] == Virtual(job, c, r, x + (k - blkn))
    {
      hide Virtual;
      for i := 0 to n
        invariant mcuBuffer[..blkn] == old(mcuBuffer[..blkn])
        invariant forall k :: blkn <= k < blkn + i ==> mcuBuffer[k] == Virtual(job, c, r, x + (k - blkn))
      {
        mcuBuffer[blkn + i] := job.dct(c, r, x + i);
      }
    }

    /** One more block row of component `i`, behind `head` and the rows before it. */
    method StreamNextRow(i: nat, yoffset: nat, yindex: nat, col: nat, blkn: nat, mw: nat, r0: nat, x: nat, ghost head: seq<Block>)
      requires Shape() && i < |job.scan| && iMcuRowNum < FrameRows(job.frame)
      requires yoffset < McuRows(job, iMcuRowNum) && yindex < McuH(job, i) && col < McusPerRow(job)
      requires mw == McuW(job, i) && r0 == iMcuRowNum * CompOf(job, i).v + yoffset && x == col * mw
      requires blkn + mw <= MAX_BLOCKS_IN_MCU
      requires mcuBuffer[..blkn] == head + CompRows(job, i, r0, x, yindex)
      modifies mcuBuffer
      ensures mcuBuffer[..blkn + mw] == head + CompRows(job, i, r0, x, yindex + 1)
    {
      hide Virtual, LastRowHeight, CeilDiv, McuSize, CompRows, RowBlocks;
      OffsetInRow(i, yoffset, yindex);
      ghost var before := mcuBuffer[..blkn];
      if yindex > 0 {
        LastOfRows(i, r0, x, yindex);
        assert mcuBuffer[blkn - 1] == before[blkn - 1];
      }
      StreamRow(i, yoffset + yindex, col, blkn, mw, r0 + yindex, x);
      CompRowsStep(job, i, r0, x, yindex);
      assert mcuBuffer[..blkn + mw] == mcuBuffer[..blkn] + mcuBuffer[..][blkn..blkn + mw];
    }

    /** The block rows of component `i` of an MCU. */
    method StreamComponent(i: nat, yoffset: nat, col: nat, blkn0: nat) returns (blkn: nat)
      requires Shape() && i < |job.scan| && iMcuRowNum < FrameRows(job.frame)
      requires yoffset < McuRows(job, iMcuRowNum) && col < McusPerRow(job)
      requires blkn0 == McuSize(job, i) <= MAX_BLOCKS_IN_MCU
      modifies mcuBuffer
      ensures blkn == McuSize(job, i + 1) <= MAX_BLOCKS_IN_MCU
      ensures mcuBuffer[..blkn] == old(mcuBuffer[..blkn0])
        + CompRows(job, i, iMcuRowNum * CompOf(job, i).v + yoffset, col * McuW(job, i), McuH(job, i))
    {
      hide Virtual, LastRowHeight, CeilDiv, McuSize, CompRows, RowBlocks;
      ghost var head := mcuBuffer[..blkn0];
      McuSizeStep(job, i);
      McuSizeGrows(job, i + 1);
      blkn := blkn0;
      var mw := McuW(job, i);
      var r0 := iMcuRowNum * CompOf(job, i).v + yoffset;
      var x := col * mw;
      CompRowsStart(job, i, r0, x);
      for yindex := 0 to McuH(job, i)
        invariant blkn == blkn0 + yindex * mw <= MAX_BLOCKS_IN_MCU
        invariant mcuBuffer[..blkn] == head + CompRows(job, i, r0, x, yindex)
      {
        RoomFor(yindex, McuH(job, i), mw);
        StreamNextRow(i, yoffset, yindex, col, blkn, mw, r0, x, head);
        blkn := blkn + mw;
      }
    }

    lemma RoomFor(y: nat, n: nat, w: nat)
      requires y < n
      ensures y * w + w == (y + 1) * w <= n * w
    {
      MulMono(y + 1, n, w);
    }

    /** The last block of the rows so far is the one above the last block of the next row. */
    lemma LastOfRows(i: nat, r: nat, x: nat, y: nat)
      requires Shape() && i < |job.scan| && 0 < y
      ensures var s := CompRows(job, i, r, x, y); var mw := McuW(job, i);
        |s| > 0 && s[|s| - 1] == Virtual(job, job.scan[i], r + (y - 1), x + mw - 1)
    {
      hide Virtual;
      var mw := McuW(job, i);
      var row := RowBlocks(job, job.scan[i], r + (y - 1), x, mw);
      assert row[mw - 1] == Virtual(job, job.scan[i], r + (y - 1), x + (mw - 1));
    }

    lemma OffsetInRow(i: nat, yoffset: nat, yindex: nat)
      requires Shape() && i < |job.scan| && yoffset < McuRows(job, iMcuRowNum) && yindex < McuH(job, i)
      requires iMcuRowNum < FrameRows(job.frame)
      ensures yoffset + yindex < CompOf(job, i).v
      ensures Interleaved(job) ==> yoffset == 0
      ensures !Interleaved(job) ==> yindex == 0 && (iMcuRowNum == FrameRows(job.frame) - 1 ==> yoffset < LastRowHeight(job, i))
    {
    }

    /** One MCU, with the DCT done block by block. */
    method StreamMcu(yoffset: nat, col: nat) returns (blkn: nat)
      requires Shape() && iMcuRowNum < FrameRows(job.frame)
      requires yoffset < McuRows(job, iMcuRowNum) && col < McusPerRow(job)
      modifies mcuBuffer
      ensures blkn <= MAX_BLOCKS_IN_MCU && mcuBuffer[..blkn] == Mcu(job, iMcuRowNum, yoffset, col)
    {
      hide CompRows, LastRowHeight, Virtual, McuRows, McusPerRow, CeilDiv, Rows;
      blkn := 0;
      for i := 0 to |job.scan|
        invariant blkn == McuSize(job, i) <= MAX_BLOCKS_IN_MCU
        invariant mcuBuffer[..blkn] == McuComps(job, iMcuRowNum, yoffset, col, i)
      {
        blkn := StreamComponent(i, yoffset, col, blkn);
      }
    }

    /** `compress_data`: one iMCU row, straight from the image; false if suspended. */
    method CompressData() returns (done: bool)
      requires Valid() && iMcuRowNum < FrameRows(job.frame)
      modifies this, mcuBuffer, entropy
      ensures Valid()
      ensures done ==> iMcuRowNum == old(iMcuRowNum) + 1 && mcuVertOffset == mcuCtr == 0
      ensures !done ==> iMcuRowNum == old(iMcuRowNum)
      ensures old(entropy.attempts) < entropy.attempts && done == entropy.verdict(entropy.attempts - 1)
      ensures entropy.Accepted(old(entropy.attempts), entropy.attempts - 1)
    {
      hide Raster, Mcu, LastRowHeight;
      for yoffset := mcuVertOffset to mcuRowsPerIMcuRow
        invariant Shape() && iMcuRowNum == old(iMcuRowNum) && mcuRowsPerIMcuRow == McuRows(job, iMcuRowNum)
        invariant mcuCtr == if yoffset == old(mcuVertOffset) then old(mcuCtr) else 0
        invariant entropy.accepted == Raster(job, iMcuRowNum, yoffset, mcuCtr)
        invariant yoffset > old(mcuVertOffset) ==> old(entropy.attempts) < entropy.attempts
        invariant old(entropy.attempts) <= entropy.attempts
        invariant entropy.Accepted(old(entropy.attempts), entropy.attempts)
      {
        for col := mcuCtr to McusPerRow(job)
          invariant Shape() && iMcuRowNum == old(iMcuRowNum) && mcuRowsPerIMcuRow == McuRows(job, iMcuRowNum)
          invariant entropy.accepted == Raster(job, iMcuRowNum, yoffset, col)
          invariant yoffset > old(mcuVertOffset) || col > old(mcuCtr) ==> old(entropy.attempts) < entropy.attempts
          invariant old(entropy.attempts) <= entropy.attempts
          invariant entropy.Accepted(old(entropy.attempts), entropy.attempts)
        {
          var blkn := StreamMcu(yoffset, col);
          RasterNext(job, iMcuRowNum, yoffset, col);
          var ok := entropy.EncodeMcu(mcuBuffer[..blkn]);
          if !ok {
            mcuVertOffset := yoffset;
            mcuCtr := col;
            return false;
          }
        }
        RasterRow(job, iMcuRowNum, yoffset);
        mcuCtr := 0;
      }
      RasterIMcuRow(job, iMcuRowNum);
      SizesPositive(job.frame, job.scan[0]);
      iMcuRowNum := iMcuRowNum + 1;
      StartIMcuRow();
      return true;
    }

    // -------------------------------------------------------------------------
    // Buffered: whole block rows into the virtual arrays, then MCUs out of them
    // -------------------------------------------------------------------------

    /** The rows lo..hi of component `c`'s array are padded as they should be. */
    ghost predicate Rows(c: nat, lo: nat, hi: nat)
      requires Shape() && c < |wholeImage|
      reads wholeImage[c]
    {
      forall r, x :: lo <= r < hi && r < wholeImage[c].Length0 && 0 <= x < wholeImage[c].Length1 ==>
        wholeImage[c][r, x] == Virtual(job, c, r, x)
    }

    /** The arrays hold the current iMCU row of the components before `n`. */
    ghost predicate Loaded(n: nat)
      requires Shape() && n <= |wholeImage|
      reads this`iMcuRowNum, wholeImage
    {
      forall c :: 0 <= c < n ==>
        Rows(c, iMcuRowNum * job.frame.comps[c].v, iMcuRowNum * job.frame.comps[c].v + job.frame.comps[c].v)
    }

    /** The arrays hold the first `n` iMCU rows of every component. */
    ghost predicate AllLoaded(n: nat)
      requires Shape()
      reads wholeImage
    {
      forall c :: 0 <= c < |wholeImage| ==> Rows(c, 0, n * job.frame.comps[c].v)
    }

    lemma LoadedNext()
      requires Shape() && Loaded(|wholeImage|) && AllLoaded(iMcuRowNum)
      ensures AllLoaded(iMcuRowNum + 1)
    {
      hide Virtual, CeilDiv, ValidJob, FrameRows, FrameCols;
      forall c | 0 <= c < |wholeImage| ensures Rows(c, 0, (iMcuRowNum + 1) * job.frame.comps[c].v) {
        var v := job.frame.comps[c].v;
        assert (iMcuRowNum + 1) * v == iMcuRowNum * v + v;
        assert Rows(c, 0, iMcuRowNum * v) && Rows(c, iMcuRowNum * v, iMcuRowNum * v + v);
      }
    }

    /** Real blocks of a row, then dummies at the right margin. */
    method FillRealRow(c: nat, r: nat)
      requires Shape() && c < |wholeImage| && r < wholeImage[c].Length0 && r < HeightInBlocks(job.frame, c)
      modifies wholeImage[c]
      ensures Rows(c, r, r + 1)
      ensures forall s, x :: 0 <= s < wholeImage[c].Length0 && s != r && 0 <= x < wholeImage[c].Length1 ==>
        wholeImage[c][s, x] == old(wholeImage[c][s, x])
    {
      hide Virtual, CeilDiv;
      var plane := wholeImage[c];
      var blocksAcross := WidthInBlocks(job.frame, c);
      PaddedWidth(job.frame, c);
      VirtualReal(job, c, r);
      var ndummy := blocksAcross % job.frame.comps[c].h;
      if ndummy > 0 {
        ndummy := job.frame.comps[c].h - ndummy;
      }
      for x := 0 to blocksAcross
        invariant forall k :: 0 <= k < x ==> plane[r, k] == job.dct(c, r, k)
        invariant forall s, k :: 0 <= s < plane.Length0 && s != r && 0 <= k < plane.Length1 ==> plane[s, k] == old(plane[s, k])
      {
        plane[r, x] := job.dct(c, r, x);
      }
      var lastDc := plane[r, blocksAcross - 1][0];
      for bi := 0 to ndummy
        invariant forall k :: 0 <= k < blocksAcross ==> plane[r, k] == job.dct(c, r, k)
        invariant forall k :: blocksAcross <= k < blocksAcross + bi ==> plane[r, k] == Dummy(lastDc)
        invariant forall s, k :: 0 <= s < plane.Length0 && s != r && 0 <= k < plane.Length1 ==> plane[s, k] == old(plane[s, k])
      {
        plane[r, blocksAcross + bi] := Dummy(lastDc);
      }
    }

    /** A dummy row: in each MCU the DC value of the last block of the row above. */
    method FillDummyRow(c: nat, r: nat)
      requires Shape() && c < |wholeImage| && r < wholeImage[c].Length0 && HeightInBlocks(job.frame, c) <= r
      requires r > 0 && Rows(c, r - 1, r)
      modifies wholeImage[c]
      ensures Rows(c, r, r + 1)
      ensures forall s, x :: 0 <= s < wholeImage[c].Length0 && s != r && 0 <= x < wholeImage[c].Length1 ==>
        wholeImage[c][s, x] == old(wholeImage[c][s, x])
    {
      hide Virtual, HeightInBlocks, WidthInBlocks, RightMargin, FrameCols, ValidFrame, Controller.Shape;
      PaddedCols(c);
      var plane := wholeImage[c];
      var h := job.frame.comps[c].h;
      var mcusAcross := (WidthInBlocks(job.frame, c) + RightMargin(job.frame, c)) / h;
      var x := 0;
      for q := 0 to mcusAcross
        invariant x == q * h
        invariant forall k :: 0 <= k < x ==> plane[r, k] == Virtual(job, c, r, k)
        invariant forall s, k :: 0 <= s < plane.Length0 && s != r && 0 <= k < plane.Length1 ==> plane[s, k] == old(plane[s, k])
      {
        RoomFor(q, mcusAcross, h);
        MulNext(q, h);
        FillDummyMcu(c, r, x, q, h);
        x := x + h;
      }
    }

    /** The padded width in MCUs. */
    lemma PaddedCols(c: nat)
      requires Shape() && c < |wholeImage|
      ensures c < |job.frame.comps| && ValidFrame(job.frame) && job.frame.comps[c].h > 0
      ensures var h := job.frame.comps[c].h;
        (WidthInBlocks(job.frame, c) + RightMargin(job.frame, c)) / h * h == wholeImage[c].Length1
    {
      hide CeilDiv, WidthInBlocks, RightMargin;
      PaddedWidth(job.frame, c);
      Division(FrameCols(job.frame) * job.frame.comps[c].h, job.frame.comps[c].h, FrameCols(job.frame), 0);
    }

    /** The blocks of one MCU in it. */
    method FillDummyMcu(c: nat, r: nat, x: nat, q: nat, h: nat)
      requires Shape() && c < |wholeImage| && r < wholeImage[c].Length0 && HeightInBlocks(job.frame, c) <= r
      requires r > 0 && Rows(c, r - 1, r) && h == job.frame.comps[c].h && x == q * h && x + h <= wholeImage[c].Length1
      modifies wholeImage[c]
      ensures forall k :: x <= k < x + h ==> wholeImage[c][r, k] == Virtual(job, c, r, k)
      ensures forall s, k :: 0 <= s < wholeImage[c].Length0 && 0 <= k < wholeImage[c].Length1 && (s != r || k < x) ==>
        wholeImage[c][s, k] == old(wholeImage[c][s, k])
    {
      hide Virtual, CeilDiv, HeightInBlocks, WidthInBlocks, RightMargin;
      var plane: array2<Block> := wholeImage[c];
      var lastDc := plane[r - 1, x + (h - 1)][0];
      for bi := 0 to h
        invariant forall k :: x <= k < x + bi ==> plane[r, k] == Virtual(job, c, r, k)
        invariant forall s, k :: 0 <= s < plane.Length0 && 0 <= k < plane.Length1 && (s != r || k < x) ==>
          plane[s, k] == old(plane[s, k])
      {
        VirtualBelow(job, c, r, q, bi);
        plane[r, x + bi] := Dummy(lastDc);
      }
    }

    /** The current iMCU row of component `c`: real block rows, then dummy rows at the end of the image. */
    method FillComponent(c: nat)
      requires Shape() && c < |wholeImage| && iMcuRowNum < FrameRows(job.frame)
      modifies wholeImage[c]
      ensures Rows(c, iMcuRowNum * job.frame.comps[c].v, iMcuRowNum * job.frame.comps[c].v + job.frame.comps[c].v)
      ensures forall s, x :: 0 <= s < wholeImage[c].Length0 && s < iMcuRowNum * job.frame.comps[c].v && 0 <= x < wholeImage[c].Length1 ==>
        wholeImage[c][s, x] == old(wholeImage[c][s, x])
    {
      hide Virtual, CeilDiv, HeightInBlocks, WidthInBlocks, BlockRows;
      var v := job.frame.comps[c].v;
      var base := iMcuRowNum * v;
      var blockRows := BlockRows(job.frame, c, iMcuRowNum);
      for blockRow := 0 to blockRows
        invariant Rows(c, base, base + blockRow)
        invariant forall s, x :: 0 <= s < wholeImage[c].Length0 && s < base && 0 <= x < wholeImage[c].Length1 ==>
          wholeImage[c][s, x] == old(wholeImage[c][s, x])
      {
        BlockRowsReal(job.frame, c, iMcuRowNum, blockRow);
        FillRealRow(c, base + blockRow);
      }
      for blockRow := blockRows to v
        invariant Rows(c, base, base + blockRow)
        invariant forall s, x :: 0 <= s < wholeImage[c].Length0 && s < base && 0 <= x < wholeImage[c].Length1 ==>
          wholeImage[c][s, x] == old(wholeImage[c][s, x])
      {
        BlockRowsReal(job.frame, c, iMcuRowNum, blockRow);
        FillDummyRow(c, base + blockRow);
      }
    }

    /** `compress_first_pass`: load the iMCU row of every component, then emit this scan's MCUs. */
    method CompressFirstPass() returns (done: bool)
      requires Valid() && iMcuRowNum < FrameRows(job.frame) && AllLoaded(iMcuRowNum)
      modifies this, mcuBuffer, entropy, wholeImage
      ensures Valid() && AllLoaded(iMcuRowNum)
      ensures done ==> iMcuRowNum == old(iMcuRowNum) + 1 && mcuVertOffset == mcuCtr == 0
      ensures !done ==> iMcuRowNum == old(iMcuRowNum)
      ensures old(entropy.attempts) < entropy.attempts && done == entropy.verdict(entropy.attempts - 1)
      ensures entropy.Accepted(old(entropy.attempts), entropy.attempts - 1)
    {
      hide Virtual, CeilDiv, HeightInBlocks, WidthInBlocks, Raster, Rows, Mcu, Loaded, AllLoaded;
      FillRow();
      done := CompressOutput();
    }

    /** The iMCU row of every component. */
    method FillRow()
      requires Valid() && iMcuRowNum < FrameRows(job.frame) && AllLoaded(iMcuRowNum)
      modifies wholeImage
      ensures Valid() && Loaded(|wholeImage|) && AllLoaded(iMcuRowNum) && AllLoaded(iMcuRowNum + 1)
    {
      hide Virtual, CeilDiv, HeightInBlocks, WidthInBlocks, Raster;
      for c := 0 to |job.frame.comps|
        invariant Valid() && Loaded(c) && AllLoaded(iMcuRowNum)
      {
        FillComponent(c);
      }
      LoadedNext();
    }

    /** The blocks of component `i` of an MCU, fetched from its array. */
    method FetchComponent(i: nat, yoffset: nat, col: nat, blkn0: nat) returns (blkn: nat)
      requires Shape() && i < |job.scan| && iMcuRowNum < FrameRows(job.frame) && Loaded(|wholeImage|)
      requires yoffset < McuRows(job, iMcuRowNum) && col < McusPerRow(job)
      requires blkn0 == McuSize(job, i) <= MAX_BLOCKS_IN_MCU
      modifies mcuBuffer
      ensures blkn == McuSize(job, i + 1) <= MAX_BLOCKS_IN_MCU
      ensures mcuBuffer[..blkn] == old(mcuBuffer[..blkn0])
        + CompRows(job, i, iMcuRowNum * CompOf(job, i).v + yoffset, col * McuW(job, i), McuH(job, i))
    {
      hide Virtual, LastRowHeight, CeilDiv, McuSize, CompRows, RowBlocks;
      ghost var head := mcuBuffer[..blkn0];
      McuSizeStep(job, i);
      McuSizeGrows(job, i + 1);
      blkn := blkn0;
      var mw := McuW(job, i);
      var r0 := iMcuRowNum * CompOf(job, i).v + yoffset;
      var x := col * mw;
      CompRowsStart(job, i, r0, x);
      for yindex := 0 to McuH(job, i)
        invariant blkn == blkn0 + yindex * mw <= MAX_BLOCKS_IN_MCU
        invariant mcuBuffer[..blkn] == head + CompRows(job, i, r0, x, yindex)
      {
        RoomFor(yindex, McuH(job, i), mw);
        FetchNextRow(i, yoffset, yindex, col, blkn, mw, r0, x, head);
        blkn := blkn + mw;
      }
    }

    /** One block row of it. */
    method FetchNextRow(i: nat, yoffset: nat, yindex: nat, col: nat, blkn: nat, mw: nat, r0: nat, x: nat, ghost head: seq<Block>)
      requires Shape() && i < |job.scan| && iMcuRowNum < FrameRows(job.frame) && Loaded(|wholeImage|)
      requires yoffset < McuRows(job, iMcuRowNum) && yindex < McuH(job, i) && col < McusPerRow(job)
      requires mw == McuW(job, i) && r0 == iMcuRowNum * CompOf(job, i).v + yoffset && x == col * mw
      requires blkn + mw <= MAX_BLOCKS_IN_MCU
      requires mcuBuffer[..blkn] == head + CompRows(job, i, r0, x, yindex)
      modifies mcuBuffer
      ensures mcuBuffer[..blkn + mw] == head + CompRows(job, i, r0, x, yindex + 1)
    {
      hide Virtual, LastRowHeight, CeilDiv, McuSize, CompRows, RowBlocks, HeightInBlocks, WidthInBlocks, Rows, Loaded;
      RowFetched(i, yoffset, yindex, col, mw, r0, x);
      ghost var before := mcuBuffer[..blkn];
      FetchRow(job.scan[i], r0 + yindex, x, blkn, mw);
      assert mcuBuffer[..blkn] == before;
      CompRowsStep(job, i, r0, x, yindex);
      assert mcuBuffer[..blkn + mw] == mcuBuffer[..blkn] + mcuBuffer[..][blkn..blkn + mw];
    }

    /** The row is one of those loaded, and as wide as needed. */
    lemma RowFetched(i: nat, yoffset: nat, yindex: nat, col: nat, mw: nat, r0: nat, x: nat)
      requires Shape() && i < |job.scan| && iMcuRowNum < FrameRows(job.frame) && Loaded(|wholeImage|)
      requires yoffset < McuRows(job, iMcuRowNum) && yindex < McuH(job, i) && col < McusPerRow(job)
      requires mw == McuW(job, i) && r0 == iMcuRowNum * CompOf(job, i).v + yoffset && x == col * mw
      ensures r0 + yindex < wholeImage[job.scan[i]].Length0 && x + mw <= wholeImage[job.scan[i]].Length1
      ensures Rows(job.scan[i], r0 + yindex, r0 + yindex + 1)
    {
      hide Virtual, LastRowHeight, CeilDiv, McuSize, HeightInBlocks, WidthInBlocks;
      var c := job.scan[i];
      OffsetInRow(i, yoffset, yindex);
      BlockRowsReal(job.frame, c, iMcuRowNum, yoffset + yindex);
      InPaddedWidth(job, i, col);
      assert Rows(c, iMcuRowNum * job.frame.comps[c].v, iMcuRowNum * job.frame.comps[c].v + job.frame.comps[c].v);
    }

    method FetchRow(c: nat, r: nat, x: nat, blkn: nat, n: nat)
      requires Shape() && c < |wholeImage| && blkn + n <= MAX_BLOCKS_IN_MCU
      requires r < wholeImage[c].Length0 && x + n <= wholeImage[c].Length1 && Rows(c, r, r + 1)
      modifies mcuBuffer
      ensures mcuBuffer[..blkn] == old(mcuBuffer[..blkn])
      ensures mcuBuffer[..][blkn..blkn + n] == RowBlocks(job, c, r, x, n)
    {
      hide Virtual, RowBlocks;
      for xindex := 0 to n
        invariant mcuBuffer[..blkn] == old(mcuBuffer[..blkn])
        invariant forall k :: blkn <= k < blkn + xindex ==> mcuBuffer[k] == Virtual(job, c, r, x + (k - blkn))
      {
        mcuBuffer[blkn + xindex] := wholeImage[c][r, x + xindex];
      }
      RowInBuffer(mcuBuffer[..], c, r, x, blkn, n);
    }

    /** One MCU, fetched from the arrays. */
    method FetchMcu(yoffset: nat, col: nat) returns (blkn: nat)
      requires Shape() && iMcuRowNum < FrameRows(job.frame) && Loaded(|wholeImage|)
      requires yoffset < McuRows(job, iMcuRowNum) && col < McusPerRow(job)
      modifies mcuBuffer
      ensures blkn <= MAX_BLOCKS_IN_MCU && mcuBuffer[..blkn] == Mcu(job, iMcuRowNum, yoffset, col)
    {
      hide CompRows, LastRowHeight, Virtual, McuRows, McusPerRow, CeilDiv, Rows;
      blkn := 0;
      for i := 0 to |job.scan|
        invariant blkn == McuSize(job, i) <= MAX_BLOCKS_IN_MCU
        invariant mcuBuffer[..blkn] == McuComps(job, iMcuRowNum, yoffset, col, i)
      {
        blkn := FetchComponent(i, yoffset, col, blkn);
      }
    }

    /** `compress_output`: one iMCU row, from the virtual arrays; false if suspended. */
    method CompressOutput() returns (done: bool)
      requires Valid() && iMcuRowNum < FrameRows(job.frame) && Loaded(|wholeImage|)
      modifies this, mcuBuffer, entropy
      ensures Valid()
      ensures done ==> iMcuRowNum == old(iMcuRowNum) + 1 && mcuVertOffset == mcuCtr == 0
      ensures !done ==> iMcuRowNum == old(iMcuRowNum)
      ensures old(entropy.attempts) < entropy.attempts && done == entropy.verdict(entropy.attempts - 1)
      ensures entropy.Accepted(old(entropy.attempts), entropy.attempts - 1)
    {
      hide Raster, Mcu, LastRowHeight, Virtual, CeilDiv, Rows;
      for yoffset := mcuVertOffset to mcuRowsPerIMcuRow
        invariant Shape() && iMcuRowNum == old(iMcuRowNum) && mcuRowsPerIMcuRow == McuRows(job, iMcuRowNum)
        invariant mcuCtr == if yoffset == old(mcuVertOffset) then old(mcuCtr) else 0
        invariant entropy.accepted == Raster(job, iMcuRowNum, yoffset, mcuCtr)
        invariant yoffset > old(mcuVertOffset) ==> old(entropy.attempts) < entropy.attempts
        invariant old(entropy.attempts) <= entropy.attempts
        invariant entropy.Accepted(old(entropy.attempts), entropy.attempts)
        invariant Loaded(|wholeImage|)
      {
        for col := mcuCtr to McusPerRow(job)
          invariant Shape() && iMcuRowNum == old(iMcuRowNum) && mcuRowsPerIMcuRow == McuRows(job, iMcuRowNum)
          invariant entropy.accepted == Raster(job, iMcuRowNum, yoffset, col)
          invariant yoffset > old(mcuVertOffset) || col > old(mcuCtr) ==> old(entropy.attempts) < entropy.attempts
          invariant old(entropy.attempts) <= entropy.attempts
          invariant entropy.Accepted(old(entropy.attempts), entropy.attempts)
          invariant Loaded(|wholeImage|)
        {
          var blkn := FetchMcu(yoffset, col);
          RasterNext(job, iMcuRowNum, yoffset, col);
          var ok := entropy.EncodeMcu(mcuBuffer[..blkn]);
          if !ok {
            mcuVertOffset := yoffset;
            mcuCtr := col;
            return false;
          }
        }
        RasterRow(job, iMcuRowNum, yoffset);
        mcuCtr := 0;
      }
      RasterIMcuRow(job, iMcuRowNum);
      SizesPositive(job.frame, job.scan[0]);
      iMcuRowNum := iMcuRowNum + 1;
      StartIMcuRow();
      return true;
    }

    // -------------------------------------------------------------------------
    // Whole passes
    // -------------------------------------------------------------------------

    /** A later pass over the same arrays, for another scan. */
    constructor NextPass(first: Controller, scan: seq<nat>, entropy: EntropySink)
      requires first.Shape() && first.AllLoaded(FrameRows(first.job.frame))
      requires ValidJob(first.job.(scan := scan)) && entropy.accepted == []
      ensures Valid() && this.entropy == entropy && job == first.job.(scan := scan) && wholeImage == first.wholeImage
      ensures iMcuRowNum == mcuVertOffset == mcuCtr == 0
      ensures AllLoaded(FrameRows(job.frame))
    {
      job, this.entropy := first.job.(scan := scan), entropy;
      mcuBuffer, wholeImage := first.mcuBuffer, first.wholeImage;
      iMcuRowNum := 0;
      mcuCtr, mcuVertOffset := 0, 0;
      mcuRowsPerIMcuRow := McuRows(first.job.(scan := scan), 0);
      SizesPositive(first.job.frame, scan[0]);
      new;
      SameArrays(first);
    }

    lemma SameArrays(first: Controller)
      requires first.Shape() && Shape() && job == first.job.(scan := job.scan) && wholeImage == first.wholeImage
      requires first.AllLoaded(FrameRows(first.job.frame))
      ensures AllLoaded(FrameRows(job.frame))
    {
      hide Virtual, CeilDiv;
      forall c, r: nat, x: nat | 0 <= c < |wholeImage| ensures Virtual(job, c, r, x) == Virtual(first.job, c, r, x) {
        VirtualFrame(first.job, job, c, r, x);
      }
      forall c | 0 <= c < |wholeImage| ensures Rows(c, 0, FrameRows(job.frame) * job.frame.comps[c].v) {
        assert first.Rows(c, 0, FrameRows(job.frame) * job.frame.comps[c].v);
      }
    }

    lemma LoadedOne()
      requires Shape() && iMcuRowNum < FrameRows(job.frame) && AllLoaded(FrameRows(job.frame))
      ensures Loaded(|wholeImage|)
    {
      hide Virtual, CeilDiv, FrameRows, FrameCols;
      forall c | 0 <= c < |wholeImage|
        ensures Rows(c, iMcuRowNum * job.frame.comps[c].v, iMcuRowNum * job.frame.comps[c].v + job.frame.comps[c].v)
      {
        RoomFor(iMcuRowNum, FrameRows(job.frame), job.frame.comps[c].v);
        assert Rows(c, 0, FrameRows(job.frame) * job.frame.comps[c].v);
      }
    }

    /**
     * `calls` calls of the pass's routine, some of them suspended: in each mode the pass is over with exactly
     * the MCUs of the scan accepted, in raster order, or all calls were used up.
     */
    method RunPass(mode: PassMode, calls: nat) returns (suspended: nat)
      requires Valid() && iMcuRowNum == mcuVertOffset == mcuCtr == 0
      requires mode == CrankDest ==> AllLoaded(FrameRows(job.frame))
      modifies this, mcuBuffer, entropy, wholeImage
      ensures Valid()
      ensures iMcuRowNum == FrameRows(job.frame) || iMcuRowNum + suspended == calls
      ensures iMcuRowNum == FrameRows(job.frame) ==> entropy.accepted == Raster(job, FrameRows(job.frame), 0, 0)
      ensures iMcuRowNum == FrameRows(job.frame) ==> Delivered(job, entropy.accepted)
      ensures mode == SaveAndPass ==> AllLoaded(iMcuRowNum)
      ensures entropy.Accepted(old(entropy.attempts), entropy.attempts) ==> suspended == 0
    {
      hide Raster, McuRows, McusPerRow, FrameRows, Delivered;
      PassDelivered(job);
      suspended := 0;
      for call := 0 to calls
        invariant Valid() && old(entropy.attempts) <= entropy.attempts
        invariant iMcuRowNum == FrameRows(job.frame) || iMcuRowNum + suspended == call
        invariant mode == CrankDest ==> AllLoaded(FrameRows(job.frame))
        invariant mode == SaveAndPass ==> AllLoaded(iMcuRowNum)
        invariant entropy.Accepted(old(entropy.attempts), entropy.attempts) ==> suspended == 0
      {
        if iMcuRowNum < FrameRows(job.frame) {
          var done := CallOnce(mode);
          suspended := if done then suspended else suspended + 1;
        }
      }
    }

    /** One call of the routine that `start_pass_coef` selects. */
    method CallOnce(mode: PassMode) returns (done: bool)
      requires Valid() && iMcuRowNum < FrameRows(job.frame)
      requires mode == CrankDest ==> AllLoaded(FrameRows(job.frame))
      requires mode == SaveAndPass ==> AllLoaded(iMcuRowNum)
      modifies this, mcuBuffer, entropy, wholeImage
      ensures Valid()
      ensures iMcuRowNum == old(iMcuRowNum) + if done then 1 else 0
      ensures old(entropy.attempts) < entropy.attempts && done == entropy.verdict(entropy.attempts - 1)
      ensures mode == CrankDest ==> AllLoaded(FrameRows(job.frame))
      ensures mode == SaveAndPass ==> AllLoaded(iMcuRowNum)
    {
      hide Raster, McuRows, McusPerRow, FrameRows, Rows;
      match mode
      case PassThru =>
        done := CompressData();
      case SaveAndPass =>
        done := CompressFirstPass();
      case CrankDest =>
        LoadedOne();
        done := CompressOutput();
    }
  }
}
