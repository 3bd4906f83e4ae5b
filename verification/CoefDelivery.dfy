/** What the entropy encoder is handed, MCU by MCU and block by block, in terms of the image alone. */
module CoefDelivery {
  import opened Coefficients
  import opened Arith
  import opened CoefLayout

  /**
   * Block (y, x) of component `i` in the interleaved MCU (row, col): inside the component it is the image's block; any
   * other has no AC part, and the DC value of the block before it or, in a row below the component, of the last block
   * of the row above.
   */
  ghost predicate BlockDelivered(j: Job, mcu: seq<Block>, row: nat, col: nat, i: nat, y: nat, x: nat)
    requires ValidJob(j) && i < |j.scan|
  {
    var c := j.scan[i];
    var h, v := CompOf(j, i).h, CompOf(j, i).v;
    var at := McuSize(j, i) + y * h + x;
    var r, k := row * v + y, col * h + x;
    && at < |mcu|
    && if r < HeightInBlocks(j.frame, c) && k < WidthInBlocks(j.frame, c) then mcu[at] == j.dct(c, r, k)
       else
         && (forall t :: 1 <= t < 64 ==> mcu[at][t] == 0)
         && var from := if r < HeightInBlocks(j.frame, c) then at - 1 else McuSize(j, i) + y * h - 1;
         && 0 <= from < at && mcu[at][0] == mcu[from][0]
  }

  ghost predicate McuDelivered(j: Job, mcu: seq<Block>, row: nat, col: nat)
    requires ValidJob(j)
  {
    && |mcu| == McuSize(j, |j.scan|)
    && forall i, y, x :: 0 <= i < |j.scan| && 0 <= y < CompOf(j, i).v && 0 <= x < CompOf(j, i).h ==>
         BlockDelivered(j, mcu, row, col, i, y, x)
  }

  /** Row and column of position `m` in a grid that is `w` wide. */
  function GridRow(m: nat, w: nat): nat
    requires w > 0
  {
    m / w
  }

  function GridCol(m: nat, w: nat): (col: nat)
    requires w > 0
    ensures col < w
  {
    m % w
  }

  /**
   * A scan of one component: its blocks, row by row, and no others. A scan of several: an MCU for each place of the MCU
   * grid that covers the image, row by row.
   */
  ghost predicate Delivered(j: Job, mcus: seq<seq<Block>>)
    requires ValidJob(j)
  {
    if |j.scan| == 1 then
      var c := j.scan[0];
      var w := WidthInBlocks(j.frame, c);
      && w > 0 && |mcus| == HeightInBlocks(j.frame, c) * w
      && forall m :: 0 <= m < |mcus| ==> mcus[m] == [j.dct(c, GridRow(m, w), GridCol(m, w))]
    else
      var w := FrameCols(j.frame);
      && w > 0 && |mcus| == FrameRows(j.frame) * w
      && forall m :: 0 <= m < |mcus| ==> McuDelivered(j, mcus[m], GridRow(m, w), GridCol(m, w))
  }

  // ---------------------------------------------------------------------------
  // Positions in an MCU
  // ---------------------------------------------------------------------------

  lemma {:induction false} CompRowsAt(j: Job, i: nat, r: nat, x0: nat, n: nat, y: nat, x: nat)
    requires ValidJob(j) && i < |j.scan| && y < n && x < McuW(j, i)
    ensures y * McuW(j, i) + x < n * McuW(j, i)
    ensures CompRows(j, i, r, x0, n)[y * McuW(j, i) + x] == Virtual(j, j.scan[i], r + y, x0 + x)
    decreases n
  {
    hide Virtual;
    var w := McuW(j, i);
    MulNext(y, w);
    MulMono(y + 1, n, w);
    if y == n - 1 {
      assert RowBlocks(j, j.scan[i], r + y, x0, w)[x] == Virtual(j, j.scan[i], r + y, x0 + x);
    } else {
      CompRowsAt(j, i, r, x0, n - 1, y, x);
    }
  }

  lemma {:induction false} McuCompsAt(j: Job, row: nat, yoffset: nat, col: nat, n: nat, i: nat, y: nat, x: nat)
    requires ValidJob(j) && i < n <= |j.scan| && y < McuH(j, i) && x < McuW(j, i)
    ensures var at := McuSize(j, i) + y * McuW(j, i) + x;
      && at < McuSize(j, n)
      && McuComps(j, row, yoffset, col, n)[at]
         == Virtual(j, j.scan[i], row * CompOf(j, i).v + yoffset + y, col * McuW(j, i) + x)
    decreases n
  {
    hide Virtual, CompRows, McuSize, FrameRows, FrameCols;
    McuSizeStep(j, n - 1);
    if i == n - 1 {
      CompRowsAt(j, i, row * CompOf(j, i).v + yoffset, col * McuW(j, i), McuH(j, i), y, x);
    } else {
      McuCompsAt(j, row, yoffset, col, n - 1, i, y, x);
    }
  }

  // ---------------------------------------------------------------------------
  // Blocks of the padded image
  // ---------------------------------------------------------------------------

  /** A block right of the component: no AC part, and the DC value of its left neighbour. */
  lemma PaddedRight(j: Job, c: nat, r: nat, k: nat)
    requires ValidFrame(j.frame) && c < |j.frame.comps|
    requires r < HeightInBlocks(j.frame, c) && WidthInBlocks(j.frame, c) <= k
    ensures forall t :: 1 <= t < 64 ==> Virtual(j, c, r, k)[t] == 0
    ensures k > 0 && Virtual(j, c, r, k)[0] == Virtual(j, c, r, k - 1)[0]
  {
    hide WidthInBlocks, HeightInBlocks;
    SizesPositive(j.frame, c);
  }

  /** A block below the component, in MCU column `col`: the DC value of the last block of the row above. */
  lemma PaddedBelow(j: Job, c: nat, r: nat, col: nat, x: nat)
    requires ValidFrame(j.frame) && c < |j.frame.comps| && x < j.frame.comps[c].h
    requires HeightInBlocks(j.frame, c) <= r
    ensures var h := j.frame.comps[c].h; var b := Virtual(j, c, r, col * h + x);
      && (forall t :: 1 <= t < 64 ==> b[t] == 0)
      && r > 0 && b[0] == Virtual(j, c, r - 1, col * h + (h - 1))[0]
  {
    hide WidthInBlocks, HeightInBlocks;
    SizesPositive(j.frame, c);
    Division(col * j.frame.comps[c].h + x, j.frame.comps[c].h, col, x);
  }

  /** Each MCU of the grid begins inside every component. */
  lemma BeginsInside(f: Frame, c: nat, row: nat, col: nat)
    requires ValidFrame(f) && c < |f.comps| && row < FrameRows(f) && col < FrameCols(f)
    ensures row * f.comps[c].v < HeightInBlocks(f, c) && col * f.comps[c].h < WidthInBlocks(f, c)
  {
    hide CeilDiv;
    CeilTwice(f.width, f.comps[c].h, f.maxH * DCTSIZE);
    CeilTwice(f.height, f.comps[c].v, f.maxV * DCTSIZE);
    MulMono(row, FrameRows(f) - 1, f.comps[c].v);
    MulMono(col, FrameCols(f) - 1, f.comps[c].h);
  }

  lemma BlockInPlace(j: Job, row: nat, col: nat, i: nat, y: nat, x: nat)
    requires ValidJob(j) && Interleaved(j) && i < |j.scan| && row < FrameRows(j.frame) && col < FrameCols(j.frame)
    requires y < CompOf(j, i).v && x < CompOf(j, i).h
    ensures BlockDelivered(j, Mcu(j, row, 0, col), row, col, i, y, x)
  {
    hide Virtual, HeightInBlocks, WidthInBlocks, FrameRows, FrameCols, McuComps, McuSize, CeilDiv;
    var c := j.scan[i];
    var h, v := CompOf(j, i).h, CompOf(j, i).v;
    var n := |j.scan|;
    BeginsInside(j.frame, c, row, col);
    McuCompsAt(j, row, 0, col, n, i, y, x);
    var r, k := row * v + y, col * h + x;
    if HeightInBlocks(j.frame, c) <= r {
      PaddedBelow(j, c, r, col, x);
      MulNext(y - 1, h);
      McuCompsAt(j, row, 0, col, n, i, y - 1, h - 1);
    } else if WidthInBlocks(j.frame, c) <= k {
      PaddedRight(j, c, r, k);
      McuCompsAt(j, row, 0, col, n, i, y, x - 1);
    } else {
      PaddedInside(j, c, r, k);
    }
  }

  lemma PaddedInside(j: Job, c: nat, r: nat, k: nat)
    requires ValidFrame(j.frame) && c < |j.frame.comps|
    requires r < HeightInBlocks(j.frame, c) && k < WidthInBlocks(j.frame, c)
    ensures Virtual(j, c, r, k) == j.dct(c, r, k)
  {
    hide WidthInBlocks, HeightInBlocks;
  }

  lemma McuInPlace(j: Job, row: nat, col: nat)
    requires ValidJob(j) && Interleaved(j) && row < FrameRows(j.frame) && col < FrameCols(j.frame)
    ensures McuDelivered(j, Mcu(j, row, 0, col), row, col)
  {
    hide BlockDelivered, FrameRows, FrameCols;
    forall i, y, x | 0 <= i < |j.scan| && 0 <= y < CompOf(j, i).v && 0 <= x < CompOf(j, i).h
      ensures BlockDelivered(j, Mcu(j, row, 0, col), row, col, i, y, x)
    {
      BlockInPlace(j, row, col, i, y, x);
    }
  }

  // ---------------------------------------------------------------------------
  // Raster order
  // ---------------------------------------------------------------------------

  /** MCU rows of the scan before MCU row `yoffset` of iMCU row `row`. */
  function RowsBefore(j: Job, row: nat, yoffset: nat): nat
    requires ValidJob(j)
  {
    if Interleaved(j) then row + yoffset
    else if row < FrameRows(j.frame) then row * CompOf(j, 0).v + yoffset
    else HeightInBlocks(j.frame, j.scan[0])
  }

  /** The MCU in MCU row `r` and column `col` of the scan. */
  function McuOf(j: Job, r: nat, col: nat): seq<Block>
    requires ValidJob(j)
  {
    if Interleaved(j) then Mcu(j, r, 0, col) else [Virtual(j, j.scan[0], r, col)]
  }

  lemma McuNamed(j: Job, row: nat, yoffset: nat, col: nat)
    requires ValidJob(j) && row < FrameRows(j.frame) && yoffset < McuRows(j, row)
    ensures Mcu(j, row, yoffset, col) == McuOf(j, RowsBefore(j, row, yoffset), col)
  {
    hide Virtual, CeilDiv, LastRowHeight;
    if !Interleaved(j) {
      var r := row * CompOf(j, 0).v + yoffset;
      assert CompRows(j, 0, r, col, 0) == [];
      assert CompRows(j, 0, r, col, 1) == RowBlocks(j, j.scan[0], r, col, 1);
      assert McuComps(j, row, yoffset, col, 0) == [];
      assert McuComps(j, row, yoffset, col, 1) == RowBlocks(j, j.scan[0], r, col, 1);
    }
  }

  lemma RowsOfIMcuRow(j: Job, row: nat)
    requires ValidJob(j) && row < FrameRows(j.frame)
    ensures RowsBefore(j, row, McuRows(j, row)) == RowsBefore(j, row + 1, 0)
  {
    hide CeilDiv;
    if !Interleaved(j) {
      var v := CompOf(j, 0).v;
      MulNext(row, v);
      if row == FrameRows(j.frame) - 1 {
        CeilTwice(j.frame.height, v, j.frame.maxV * DCTSIZE);
        LastGroupFills(HeightInBlocks(j.frame, j.scan[0]), v, FrameRows(j.frame));
      }
    }
  }

  /** A position of the controller: between two MCUs of a pass. */
  ghost predicate Reached(j: Job, row: nat, yoffset: nat, col: nat)
    requires ValidJob(j)
  {
    && row <= FrameRows(j.frame) && yoffset <= McuRows(j, row) && col <= McusPerRow(j)
    && (row == FrameRows(j.frame) ==> yoffset == col == 0) && (yoffset == McuRows(j, row) ==> col == 0)
  }

  /** The MCUs before it are those of the scan's grid in raster order. */
  lemma {:induction false} RasterAt(j: Job, row: nat, yoffset: nat, col: nat)
    requires ValidJob(j) && Reached(j, row, yoffset, col) && McusPerRow(j) > 0
    ensures var w := McusPerRow(j); var s := Raster(j, row, yoffset, col);
      && |s| == RowsBefore(j, row, yoffset) * w + col
      && forall m :: 0 <= m < |s| ==> s[m] == McuOf(j, GridRow(m, w), GridCol(m, w))
    decreases row, yoffset, col
  {
    hide Virtual, McuOf, Mcu, RowsBefore, McuRows, McusPerRow, GridRow, GridCol, FrameRows;
    var w := McusPerRow(j);
    if col > 0 {
      RasterAt(j, row, yoffset, col - 1);
      McuNamed(j, row, yoffset, col - 1);
      GridPlace(RowsBefore(j, row, yoffset), w, col - 1);
    } else if yoffset > 0 {
      RasterAt(j, row, yoffset - 1, w);
      RowsNext(j, row, yoffset - 1);
      MulNext(RowsBefore(j, row, yoffset - 1), w);
    } else if row > 0 {
      RasterAt(j, row - 1, McuRows(j, row - 1), 0);
      RowsOfIMcuRow(j, row - 1);
    } else {
      NoRows(j);
    }
  }

  lemma NoRows(j: Job)
    requires ValidJob(j)
    ensures RowsBefore(j, 0, 0) == 0
  {
    SizesPositive(j.frame, j.scan[0]);
  }

  lemma RowsNext(j: Job, row: nat, yoffset: nat)
    requires ValidJob(j) && row < FrameRows(j.frame)
    ensures RowsBefore(j, row, yoffset + 1) == RowsBefore(j, row, yoffset) + 1
  {
    hide CeilDiv;
  }

  lemma GridPlace(r: nat, w: nat, col: nat)
    requires col < w
    ensures GridRow(r * w + col, w) == r && GridCol(r * w + col, w) == col
  {
    Division(r * w + col, w, r, col);
  }

  /** A position before the end of the grid. */
  lemma GridInside(m: nat, rows: nat, w: nat)
    requires w > 0 && m < rows * w
    ensures GridRow(m, w) < rows
  {
    var r, c := GridRow(m, w), GridCol(m, w);
    assert m == r * w + c;
    if r >= rows {
      MulMono(rows, r, w);
    }
  }

  /** A finished pass: everything in its place, once, and nothing else. */
  lemma PassDelivered(j: Job)
    requires ValidJob(j)
    ensures Delivered(j, Raster(j, FrameRows(j.frame), 0, 0))
  {
    hide Virtual, Raster, McuDelivered, GridRow, GridCol, CeilDiv, WidthInBlocks, HeightInBlocks, FrameRows, FrameCols;
    var f, c := j.frame, j.scan[0];
    SizesPositive(f, c);
    var w := McusPerRow(j);
    RasterAt(j, FrameRows(f), 0, 0);
    var s := Raster(j, FrameRows(f), 0, 0);
    forall m | 0 <= m < |s|
      ensures Interleaved(j) ==> McuDelivered(j, s[m], GridRow(m, w), GridCol(m, w))
      ensures !Interleaved(j) ==> s[m] == [j.dct(c, GridRow(m, w), GridCol(m, w))]
    {
      GridInside(m, RowsBefore(j, FrameRows(f), 0), w);
      if Interleaved(j) {
        McuInPlace(j, GridRow(m, w), GridCol(m, w));
      } else {
        PaddedInside(j, c, GridRow(m, w), GridCol(m, w));
      }
    }
  }
}
