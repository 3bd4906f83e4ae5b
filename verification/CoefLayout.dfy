/**
 * Image geometry (initial_setup and per_scan_setup of jcmaster.c) and the blocks that a
 * scan hands to the entropy encoder, real and dummy ones.
 */
module CoefLayout {
  import opened Coefficients
  import opened Arith

  /** A component of the frame: its sampling factors. */
  datatype Comp = Comp(h: nat, v: nat)

  /** Image size in samples, the components and the greatest sampling factors. */
  datatype Frame = Frame(width: nat, height: nat, comps: seq<Comp>, maxH: nat, maxV: nat)

  ghost predicate ValidFrame(f: Frame) {
    && 0 < f.width && 0 < f.height && 0 < f.maxH && 0 < f.maxV && f.comps != []
    && forall c :: 0 <= c < |f.comps| ==> 0 < f.comps[c].h <= f.maxH && 0 < f.comps[c].v <= f.maxV
  }

  /** `jdiv_round_up`. */
  function CeilDiv(a: nat, b: nat): (q: nat)
    requires b > 0
    ensures a <= q * b < a + b
  {
    var q := (a + b - 1) / b;
    assert q * b <= a + b - 1 < q * b + b;
    q
  }

  const DCTSIZE: nat := 8

  function WidthInBlocks(f: Frame, c: nat): nat
    requires ValidFrame(f) && c < |f.comps|
  {
    CeilDiv(f.width * f.comps[c].h, f.maxH * DCTSIZE)
  }

  function HeightInBlocks(f: Frame, c: nat): nat
    requires ValidFrame(f) && c < |f.comps|
  {
    CeilDiv(f.height * f.comps[c].v, f.maxV * DCTSIZE)
  }

  /** Columns of interleaved MCUs. */
  function FrameCols(f: Frame): nat
    requires ValidFrame(f)
  {
    CeilDiv(f.width, f.maxH * DCTSIZE)
  }

  /** Rows of interleaved MCUs: `total_iMCU_rows`. */
  function FrameRows(f: Frame): nat
    requires ValidFrame(f)
  {
    CeilDiv(f.height, f.maxV * DCTSIZE)
  }

  /** Rounding up to blocks and then to MCUs is rounding up to MCUs. */
  lemma CeilTwice(w: nat, s: nat, b: nat)
    requires 0 < w && 0 < s && 0 < b
    ensures CeilDiv(w, b) >= 1
    ensures (CeilDiv(w, b) - 1) * s < CeilDiv(w * s, b) <= CeilDiv(w, b) * s
  {
    var n := CeilDiv(w, b);
    var q := CeilDiv(w * s, b);
    assert n >= 1;
    CeilLower(w, s, b, n, q);
    CeilUpper(w, s, b, n, q);
  }

  lemma CeilLower(w: nat, s: nat, b: nat, n: nat, q: nat)
    requires 0 < s && 0 < b && 1 <= n && n * b < w + b && w * s <= q * b
    ensures (n - 1) * s < q
  {
    var k := n - 1;
    assert k * b == n * b - b;
    MulMono(k * b + 1, w, s);
    assert (k * b + 1) * s == (k * b) * s + s;
    assert (k * b) * s == (k * s) * b;
    MulCancelStrict(k * s, q, b);
  }

  lemma CeilUpper(w: nat, s: nat, b: nat, n: nat, q: nat)
    requires 0 < s && 0 < b && w <= n * b && q * b < w * s + b
    ensures q <= n * s
  {
    MulMono(w, n * b, s);
    assert (n * b) * s == (n * s) * b;
    assert (n * s + 1) * b == (n * s) * b + b;
    MulCancelStrict(q, n * s + 1, b);
  }

  /** What is left of `size` in its last group of `unit`. */
  function LastGroup(size: nat, unit: nat): (n: nat)
    requires unit > 0
    ensures 1 <= n <= unit
  {
    if size % unit == 0 then unit else size % unit
  }

  lemma LastGroupFills(size: nat, unit: nat, groups: nat)
    requires unit > 0 && groups >= 1 && (groups - 1) * unit < size <= groups * unit
    ensures (groups - 1) * unit + LastGroup(size, unit) == size
  {
    var r := size - (groups - 1) * unit;
    assert groups * unit == (groups - 1) * unit + unit;
    if r < unit {
      Division(size, unit, groups - 1, r);
    } else {
      Division(size, unit, groups, 0);
    }
  }

  // ---------------------------------------------------------------------------
  // Scans
  // ---------------------------------------------------------------------------

  /** A scan of some components of the frame; `dct` gives the block of a component at a block row and column. */
  datatype Job = Job(frame: Frame, scan: seq<nat>, dct: (nat, nat, nat) -> Block)

  const MAX_BLOCKS_IN_MCU: nat := 10

  ghost predicate ValidJob(j: Job) {
    && ValidFrame(j.frame) && 1 <= |j.scan|
    && (forall i :: 0 <= i < |j.scan| ==> j.scan[i] < |j.frame.comps|)
    && McuSize(j, |j.scan|) <= MAX_BLOCKS_IN_MCU
  }

  /** Blocks of the first `k` components in an MCU. */
  function McuSize(j: Job, k: nat): nat
    requires k <= |j.scan| && ValidFrame(j.frame)
    requires forall i :: 0 <= i < |j.scan| ==> j.scan[i] < |j.frame.comps|
  {
    if k == 0 then 0 else
      McuSize(j, k - 1) + if |j.scan| > 1 then CompOf(j, k - 1).v * CompOf(j, k - 1).h else 1
  }

  function CompOf(j: Job, i: nat): Comp
    requires i < |j.scan| && j.scan[i] < |j.frame.comps|
  {
    j.frame.comps[j.scan[i]]
  }

  predicate Interleaved(j: Job) {
    |j.scan| > 1
  }

  function McuW(j: Job, i: nat): (n: nat)
    requires ValidJob(j) && i < |j.scan|
    ensures n > 0
  {
    if Interleaved(j) then CompOf(j, i).h else 1
  }

  function McuH(j: Job, i: nat): (n: nat)
    requires ValidJob(j) && i < |j.scan|
    ensures n > 0
  {
    if Interleaved(j) then CompOf(j, i).v else 1
  }

  function McusPerRow(j: Job): nat
    requires ValidJob(j)
  {
    if Interleaved(j) then FrameCols(j.frame) else WidthInBlocks(j.frame, j.scan[0])
  }

  /** Real blocks of a component in the last MCU column. */
  function LastColWidth(j: Job, i: nat): nat
    requires ValidJob(j) && i < |j.scan|
  {
    if Interleaved(j) then LastGroup(WidthInBlocks(j.frame, j.scan[i]), McuW(j, i)) else 1
  }

  /** Real block rows of a component in the last iMCU row. */
  function LastRowHeight(j: Job, i: nat): nat
    requires ValidJob(j) && i < |j.scan|
  {
    LastGroup(HeightInBlocks(j.frame, j.scan[i]), CompOf(j, i).v)
  }

  /** MCU rows in iMCU row `row`, as `start_iMCU_row` sets them. */
  function McuRows(j: Job, row: nat): (n: nat)
    requires ValidJob(j)
    ensures n > 0
  {
    if Interleaved(j) then 1
    else if row < FrameRows(j.frame) - 1 then CompOf(j, 0).v
    else LastRowHeight(j, 0)
  }

  /** A dummy block: zero AC, and the DC value of a real block nearby. */
  function Dummy(dc: int): Block {
    ZeroBlock()[0 := dc]
  }

  /** The padded component: real blocks, dummies right of them, dummy rows below them. */
  function Virtual(j: Job, c: nat, r: nat, x: nat): Block
    requires ValidFrame(j.frame) && c < |j.frame.comps|
    decreases r
  {
    var w := WidthInBlocks(j.frame, c);
    var h := j.frame.comps[c].h;
    SizesPositive(j.frame, c);
    if r < HeightInBlocks(j.frame, c) then
      if x < w then j.dct(c, r, x) else Dummy(j.dct(c, r, w - 1)[0])
    else
      Dummy(Virtual(j, c, r - 1, x / h * h + (h - 1))[0])
  }

  /** The padding of a component depends on the frame, not on the scan. */
  lemma {:induction false} VirtualFrame(j: Job, k: Job, c: nat, r: nat, x: nat)
    requires ValidFrame(j.frame) && c < |j.frame.comps| && k.frame == j.frame && k.dct == j.dct
    ensures Virtual(j, c, r, x) == Virtual(k, c, r, x)
    decreases r
  {
    var h := j.frame.comps[c].h;
    SizesPositive(j.frame, c);
    if HeightInBlocks(j.frame, c) <= r {
      VirtualFrame(j, k, c, r - 1, x / h * h + (h - 1));
    }
  }

  lemma SizesPositive(f: Frame, c: nat)
    requires ValidFrame(f) && c < |f.comps|
    ensures WidthInBlocks(f, c) > 0 && HeightInBlocks(f, c) > 0
    ensures FrameCols(f) > 0 && FrameRows(f) > 0
  {
    assert f.width * f.comps[c].h > 0 && f.height * f.comps[c].v > 0;
  }

  function RowBlocks(j: Job, c: nat, r: nat, x: nat, n: nat): (s: seq<Block>)
    requires ValidFrame(j.frame) && c < |j.frame.comps|
    ensures |s| == n && forall i :: 0 <= i < n ==> s[i] == Virtual(j, c, r, x + i)
  {
    seq<Block>(n, i requires 0 <= i < n => Virtual(j, c, r, x + i))
  }

  /** The first `y` rows of component `i` in the MCU at block row `r`, block column `x`. */
  function CompRows(j: Job, i: nat, r: nat, x: nat, y: nat): (s: seq<Block>)
    requires ValidJob(j) && i < |j.scan|
    ensures |s| == y * McuW(j, i)
  {
    if y == 0 then [] else CompRows(j, i, r, x, y - 1) + RowBlocks(j, j.scan[i], r + (y - 1), x, McuW(j, i))
  }

  /** The first `k` components of the MCU `col` in MCU row `yoffset` of iMCU row `row`. */
  function McuComps(j: Job, row: nat, yoffset: nat, col: nat, k: nat): (s: seq<Block>)
    requires ValidJob(j) && k <= |j.scan|
    ensures |s| == McuSize(j, k)
  {
    if k == 0 then [] else
      McuComps(j, row, yoffset, col, k - 1)
      + CompRows(j, k - 1, row * CompOf(j, k - 1).v + yoffset, col * McuW(j, k - 1), McuH(j, k - 1))
  }

  /** The blocks of one MCU, in the order the entropy encoder gets them. */
  function Mcu(j: Job, row: nat, yoffset: nat, col: nat): seq<Block>
    requires ValidJob(j)
  {
    McuComps(j, row, yoffset, col, |j.scan|)
  }

  /** The MCUs before position (row, yoffset, col), in raster order. */
  function Raster(j: Job, row: nat, yoffset: nat, col: nat): seq<seq<Block>>
    requires ValidJob(j)
    decreases row, yoffset, col
  {
    if col > 0 then Raster(j, row, yoffset, col - 1) + [Mcu(j, row, yoffset, col - 1)]
    else if yoffset > 0 then Raster(j, row, yoffset - 1, McusPerRow(j))
    else if row > 0 then Raster(j, row - 1, McuRows(j, row - 1), 0)
    else []
  }

  lemma RasterNext(j: Job, row: nat, yoffset: nat, col: nat)
    requires ValidJob(j)
    ensures Raster(j, row, yoffset, col + 1) == Raster(j, row, yoffset, col) + [Mcu(j, row, yoffset, col)]
  {
  }

  lemma RasterRow(j: Job, row: nat, yoffset: nat)
    requires ValidJob(j)
    ensures Raster(j, row, yoffset + 1, 0) == Raster(j, row, yoffset, McusPerRow(j))
  {
  }

  lemma RasterIMcuRow(j: Job, row: nat)
    requires ValidJob(j)
    ensures Raster(j, row + 1, 0, 0) == Raster(j, row, McuRows(j, row), 0)
  {
  }

  lemma McuSizeStep(j: Job, k: nat)
    requires ValidJob(j) && k < |j.scan|
    ensures McuSize(j, k + 1) == McuSize(j, k) + McuH(j, k) * McuW(j, k)
  {
  }

  lemma CompRowsStart(j: Job, i: nat, r: nat, x: nat)
    requires ValidJob(j) && i < |j.scan|
    ensures CompRows(j, i, r, x, 0) == []
  {
  }

  lemma CompRowsStep(j: Job, i: nat, r: nat, x: nat, y: nat)
    requires ValidJob(j) && i < |j.scan|
    ensures CompRows(j, i, r, x, y + 1) == CompRows(j, i, r, x, y) + RowBlocks(j, j.scan[i], r + y, x, McuW(j, i))
  {
  }

  lemma McuSizeGrows(j: Job, k: nat)
    requires ValidJob(j) && k <= |j.scan|
    ensures McuSize(j, k) <= McuSize(j, |j.scan|)
    decreases |j.scan| - k
  {
    if k < |j.scan| {
      McuSizeGrows(j, k + 1);
    }
  }

  // ---------------------------------------------------------------------------
  // Where real blocks end
  // ---------------------------------------------------------------------------

  /** The test for real block rows, by iMCU row and offset. */
  lemma RealRow(j: Job, i: nat, row: nat, off: nat)
    requires ValidJob(j) && i < |j.scan| && row < FrameRows(j.frame) && off < CompOf(j, i).v
    ensures row < FrameRows(j.frame) - 1 || off < LastRowHeight(j, i)
        <==> row * CompOf(j, i).v + off < HeightInBlocks(j.frame, j.scan[i])
  {
    hide CeilDiv;
    var v := CompOf(j, i).v;
    var n := FrameRows(j.frame);
    CeilTwice(j.frame.height, v, j.frame.maxV * DCTSIZE);
    LastGroupFills(HeightInBlocks(j.frame, j.scan[i]), v, n);
    if row < n - 1 {
      MulMono(row + 1, n - 1, v);
      assert (row + 1) * v == row * v + v;
    }
  }

  /** In an interleaved scan, the real blocks of MCU column `col`. */
  lemma RealCols(j: Job, i: nat, col: nat)
    requires ValidJob(j) && i < |j.scan| && col < McusPerRow(j)
    ensures var w := WidthInBlocks(j.frame, j.scan[i]); var mw := McuW(j, i); var last := McusPerRow(j) - 1;
      && (col < last ==> col * mw + mw <= w)
      && (col == last ==> Interleaved(j) ==> col * mw + LastColWidth(j, i) == w)
  {
    hide CeilDiv;
    var mw := McuW(j, i);
    var n := McusPerRow(j);
    if Interleaved(j) {
      CeilTwice(j.frame.width, mw, j.frame.maxH * DCTSIZE);
      LastGroupFills(WidthInBlocks(j.frame, j.scan[i]), mw, n);
      if col < n - 1 {
        MulMono(col + 1, n - 1, mw);
        assert (col + 1) * mw == col * mw + mw;
      }
    }
  }

  // ---------------------------------------------------------------------------
  // One block row of one MCU
  // ---------------------------------------------------------------------------

  /** The position of component `i`'s row `off` of an MCU: block row and first block column. */
  ghost predicate InMcu(j: Job, i: nat, row: nat, off: nat, col: nat) {
    && ValidJob(j) && i < |j.scan| && row < FrameRows(j.frame) && col < McusPerRow(j)
    && off < CompOf(j, i).v
    && (!Interleaved(j) && row == FrameRows(j.frame) - 1 ==> off < LastRowHeight(j, i))
  }

  /** The controller's test for real rows. */
  predicate RealTest(j: Job, i: nat, row: nat, off: nat)
    requires ValidJob(j) && i < |j.scan|
  {
    row < FrameRows(j.frame) - 1 || off < LastRowHeight(j, i)
  }

  /** How many blocks of a real row the controller takes from the image. */
  function BlockCount(j: Job, i: nat, col: nat): nat
    requires ValidJob(j) && i < |j.scan|
  {
    if col < McusPerRow(j) - 1 then McuW(j, i) else LastColWidth(j, i)
  }

  /** Block columns x..x+mw of a row: `n` real blocks, then dummies with the DC value of the last one. */
  ghost predicate RealThenDummies(j: Job, c: nat, r: nat, x: nat, n: nat, mw: nat)
    requires ValidFrame(j.frame) && c < |j.frame.comps|
  {
    && 1 <= n <= mw
    && (forall k :: x <= k < x + n ==> Virtual(j, c, r, k) == j.dct(c, r, k))
    && (forall k :: x + n <= k < x + mw ==> Virtual(j, c, r, k) == Dummy(j.dct(c, r, x + n - 1)[0]))
  }

  /** Block columns x..x+mw of a row: dummies with the DC value of the last block above. */
  ghost predicate AllDummies(j: Job, c: nat, r: nat, x: nat, mw: nat)
    requires ValidFrame(j.frame) && c < |j.frame.comps|
  {
    && r > 0 && mw > 0
    && (forall k :: x <= k < x + mw ==> Virtual(j, c, r, k) == Dummy(Virtual(j, c, r - 1, x + mw - 1)[0]))
  }

  lemma VirtualRow(j: Job, c: nat, r: nat, x: nat, n: nat, mw: nat)
    requires ValidFrame(j.frame) && c < |j.frame.comps| && 1 <= n <= mw
    requires r < HeightInBlocks(j.frame, c)
    requires x + n <= WidthInBlocks(j.frame, c) && (n < mw ==> x + n == WidthInBlocks(j.frame, c))
    ensures RealThenDummies(j, c, r, x, n, mw)
  {
    hide WidthInBlocks, HeightInBlocks, Dummy;
  }

  /** A real row of an MCU: its real blocks, then dummies with the DC value of the last one. */
  lemma RowReal(j: Job, i: nat, row: nat, off: nat, col: nat)
    requires InMcu(j, i, row, off, col) && RealTest(j, i, row, off)
    ensures RealThenDummies(j, j.scan[i], row * CompOf(j, i).v + off, col * McuW(j, i), BlockCount(j, i, col), McuW(j, i))
  {
    hide CeilDiv, Virtual, Dummy, HeightInBlocks, WidthInBlocks, LastGroup, RealThenDummies;
    RealRow(j, i, row, off);
    RealCols(j, i, col);
    var v, mw := CompOf(j, i).v, McuW(j, i);
    MulMono(0, row, v);
    MulMono(0, col, mw);
    VirtualRow(j, j.scan[i], row * v + off, col * mw, BlockCount(j, i, col), mw);
  }

  /** A dummy row of an MCU: the DC value of the block above the last one, in the same MCU. */
  lemma RowBelow(j: Job, i: nat, row: nat, off: nat, col: nat)
    requires InMcu(j, i, row, off, col) && !RealTest(j, i, row, off)
    ensures Interleaved(j) && off > 0
    ensures AllDummies(j, j.scan[i], row * CompOf(j, i).v + off, col * McuW(j, i), McuW(j, i))
  {
    hide CeilDiv, Dummy, HeightInBlocks, LastGroup, WidthInBlocks;
    var mw := McuW(j, i);
    RealRow(j, i, row, off);
    forall k | col * mw <= k < col * mw + mw ensures k / mw * mw + (mw - 1) == col * mw + mw - 1 {
      Division(k, mw, col, k - col * mw);
    }
  }

  // ---------------------------------------------------------------------------
  // Padding of a whole component
  // ---------------------------------------------------------------------------

  /** Dummy blocks at the right margin of a component. */
  function RightMargin(f: Frame, c: nat): nat
    requires ValidFrame(f) && c < |f.comps|
  {
    var n := WidthInBlocks(f, c) % f.comps[c].h;
    if n > 0 then f.comps[c].h - n else 0
  }

  /** Width with the margin is a whole number of MCUs, the frame's MCU columns. */
  lemma PaddedWidth(f: Frame, c: nat)
    requires ValidFrame(f) && c < |f.comps|
    ensures WidthInBlocks(f, c) > 0
    ensures WidthInBlocks(f, c) + RightMargin(f, c) == FrameCols(f) * f.comps[c].h
  {
    hide CeilDiv;
    var h := f.comps[c].h;
    var w := WidthInBlocks(f, c);
    var n := FrameCols(f);
    SizesPositive(f, c);
    CeilTwice(f.width, h, f.maxH * DCTSIZE);
    LastGroupFills(w, h, n);
    LastGroupMargin(w, h);
    hide LastGroup, WidthInBlocks, FrameCols, ValidFrame;
    MulNext(n - 1, h);
  }

  lemma LastGroupMargin(w: nat, h: nat)
    requires h > 0
    ensures LastGroup(w, h) + (if w % h > 0 then h - w % h else 0) == h
  {
  }

  /** Real block rows of a component in iMCU row `row`. */
  function BlockRows(f: Frame, c: nat, row: nat): (n: nat)
    requires ValidFrame(f) && c < |f.comps|
    ensures 1 <= n <= f.comps[c].v
  {
    if row < FrameRows(f) - 1 then f.comps[c].v else LastGroup(HeightInBlocks(f, c), f.comps[c].v)
  }

  lemma BlockRowsReal(f: Frame, c: nat, row: nat, off: nat)
    requires ValidFrame(f) && c < |f.comps| && row < FrameRows(f) && off < f.comps[c].v
    ensures off < BlockRows(f, c, row) <==> row * f.comps[c].v + off < HeightInBlocks(f, c)
    ensures row * f.comps[c].v + off < FrameRows(f) * f.comps[c].v
  {
    hide CeilDiv;
    var v := f.comps[c].v;
    var n := FrameRows(f);
    CeilTwice(f.height, v, f.maxV * DCTSIZE);
    LastGroupFills(HeightInBlocks(f, c), v, n);
    MulMono(row + 1, n, v);
    assert (row + 1) * v == row * v + v;
    if row < n - 1 {
      MulMono(row + 1, n - 1, v);
    }
  }

  lemma VirtualReal(j: Job, c: nat, r: nat)
    requires ValidFrame(j.frame) && c < |j.frame.comps| && r < HeightInBlocks(j.frame, c)
    ensures WidthInBlocks(j.frame, c) > 0
    ensures forall x :: 0 <= x < WidthInBlocks(j.frame, c) ==> Virtual(j, c, r, x) == j.dct(c, r, x)
    ensures forall x :: WidthInBlocks(j.frame, c) <= x ==>
      Virtual(j, c, r, x) == Dummy(j.dct(c, r, WidthInBlocks(j.frame, c) - 1)[0])
  {
    hide WidthInBlocks, HeightInBlocks, Dummy;
    SizesPositive(j.frame, c);
  }

  lemma VirtualBelow(j: Job, c: nat, r: nat, q: nat, b: nat)
    requires ValidFrame(j.frame) && c < |j.frame.comps| && HeightInBlocks(j.frame, c) <= r
    requires b < j.frame.comps[c].h
    ensures var h := j.frame.comps[c].h;
      r > 0 && Virtual(j, c, r, q * h + b) == Dummy(Virtual(j, c, r - 1, q * h + h - 1)[0])
  {
    hide WidthInBlocks, HeightInBlocks, Dummy;
    SizesPositive(j.frame, c);
    Division(q * j.frame.comps[c].h + b, j.frame.comps[c].h, q, b);
  }

  /** The blocks of an MCU column lie within the padded width. */
  lemma InPaddedWidth(j: Job, i: nat, col: nat)
    requires ValidJob(j) && i < |j.scan| && col < McusPerRow(j)
    ensures col * McuW(j, i) + McuW(j, i) <= FrameCols(j.frame) * CompOf(j, i).h
  {
    hide CeilDiv;
    if Interleaved(j) {
      MulMono(col + 1, FrameCols(j.frame), McuW(j, i));
      assert (col + 1) * McuW(j, i) == col * McuW(j, i) + McuW(j, i);
    } else {
      PaddedWidth(j.frame, j.scan[i]);
    }
  }
}
