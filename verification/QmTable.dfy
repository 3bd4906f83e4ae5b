/** The probability estimation state machine of jaricom.c (Table D.2 of T.81). */
module QmTable {
  import opened Bytes

  /** Qe_Value, Next_Index_LPS, Next_Index_MPS and Switch_MPS of one state. */
  datatype Row = Row(qe: nat, nextLps: nat, nextMps: nat, switchMps: nat)

  /** The rows of `jpeg_aritab`; entry 113 is the fixed estimate of one half. */
  function TableRow(i: nat): Row
    requires i <= 113
  {
    if i < 29 then LowRows(i)
    else if i < 57 then LowerMiddleRows(i)
    else if i < 86 then UpperMiddleRows(i)
    else HighRows(i)
  }

  function LowRows(i: nat): Row
    requires i < 29
  {
    if i == 0 then Row(0x5a1d, 1, 1, 1)
    else if i == 1 then Row(0x2586, 14, 2, 0)
    else if i == 2 then Row(0x1114, 16, 3, 0)
    else if i == 3 then Row(0x080b, 18, 4, 0)
    else if i == 4 then Row(0x03d8, 20, 5, 0)
    else if i == 5 then Row(0x01da, 23, 6, 0)
    else if i == 6 then Row(0x00e5, 25, 7, 0)
    else if i == 7 then Row(0x006f, 28, 8, 0)
    else if i == 8 then Row(0x0036, 30, 9, 0)
    else if i == 9 then Row(0x001a, 33, 10, 0)
    else if i == 10 then Row(0x000d, 35, 11, 0)
    else if i == 11 then Row(0x0006, 9, 12, 0)
    else if i == 12 then Row(0x0003, 10, 13, 0)
    else if i == 13 then Row(0x0001, 12, 13, 0)
    else if i == 14 then Row(0x5a7f, 15, 15, 1)
    else if i == 15 then Row(0x3f25, 36, 16, 0)
    else if i == 16 then Row(0x2cf2, 38, 17, 0)
    else if i == 17 then Row(0x207c, 39, 18, 0)
    else if i == 18 then Row(0x17b9, 40, 19, 0)
    else if i == 19 then Row(0x1182, 42, 20, 0)
    else if i == 20 then Row(0x0cef, 43, 21, 0)
    else if i == 21 then Row(0x09a1, 45, 22, 0)
    else if i == 22 then Row(0x072f, 46, 23, 0)
    else if i == 23 then Row(0x055c, 48, 24, 0)
    else if i == 24 then Row(0x0406, 49, 25, 0)
    else if i == 25 then Row(0x0303, 51, 26, 0)
    else if i == 26 then Row(0x0240, 52, 27, 0)
    else if i == 27 then Row(0x01b1, 54, 28, 0)
    else Row(0x0144, 56, 29, 0)
  }

  function LowerMiddleRows(i: nat): Row
    requires 29 <= i < 57
  {
    if i == 29 then Row(0x00f5, 57, 30, 0)
    else if i == 30 then Row(0x00b7, 59, 31, 0)
    else if i == 31 then Row(0x008a, 60, 32, 0)
    else if i == 32 then Row(0x0068, 62, 33, 0)
    else if i == 33 then Row(0x004e, 63, 34, 0)
    else if i == 34 then Row(0x003b, 32, 35, 0)
    else if i == 35 then Row(0x002c, 33, 9, 0)
    else if i == 36 then Row(0x5ae1, 37, 37, 1)
    else if i == 37 then Row(0x484c, 64, 38, 0)
    else if i == 38 then Row(0x3a0d, 65, 39, 0)
    else if i == 39 then Row(0x2ef1, 67, 40, 0)
    else if i == 40 then Row(0x261f, 68, 41, 0)
    else if i == 41 then Row(0x1f33, 69, 42, 0)
    else if i == 42 then Row(0x19a8, 70, 43, 0)
    else if i == 43 then Row(0x1518, 72, 44, 0)
    else if i == 44 then Row(0x1177, 73, 45, 0)
    else if i == 45 then Row(0x0e74, 74, 46, 0)
    else if i == 46 then Row(0x0bfb, 75, 47, 0)
    else if i == 47 then Row(0x09f8, 77, 48, 0)
    else if i == 48 then Row(0x0861, 78, 49, 0)
    else if i == 49 then Row(0x0706, 79, 50, 0)
    else if i == 50 then Row(0x05cd, 48, 51, 0)
    else if i == 51 then Row(0x04de, 50, 52, 0)
    else if i == 52 then Row(0x040f, 50, 53, 0)
    else if i == 53 then Row(0x0363, 51, 54, 0)
    else if i == 54 then Row(0x02d4, 52, 55, 0)
    else if i == 55 then Row(0x025c, 53, 56, 0)
    else Row(0x01f8, 54, 57, 0)
  }

  function UpperMiddleRows(i: nat): Row
    requires 57 <= i < 86
  {
    if i == 57 then Row(0x01a4, 55, 58, 0)
    else if i == 58 then Row(0x0160, 56, 59, 0)
    else if i == 59 then Row(0x0125, 57, 60, 0)
    else if i == 60 then Row(0x00f6, 58, 61, 0)
    else if i == 61 then Row(0x00cb, 59, 62, 0)
    else if i == 62 then Row(0x00ab, 61, 63, 0)
    else if i == 63 then Row(0x008f, 61, 32, 0)
    else if i == 64 then Row(0x5b12, 65, 65, 1)
    else if i == 65 then Row(0x4d04, 80, 66, 0)
    else if i == 66 then Row(0x412c, 81, 67, 0)
    else if i == 67 then Row(0x37d8, 82, 68, 0)
    else if i == 68 then Row(0x2fe8, 83, 69, 0)
    else if i == 69 then Row(0x293c, 84, 70, 0)
    else if i == 70 then Row(0x2379, 86, 71, 0)
    else if i == 71 then Row(0x1edf, 87, 72, 0)
    else if i == 72 then Row(0x1aa9, 87, 73, 0)
    else if i == 73 then Row(0x174e, 72, 74, 0)
    else if i == 74 then Row(0x1424, 72, 75, 0)
    else if i == 75 then Row(0x119c, 74, 76, 0)
    else if i == 76 then Row(0x0f6b, 74, 77, 0)
    else if i == 77 then Row(0x0d51, 75, 78, 0)
    else if i == 78 then Row(0x0bb6, 77, 79, 0)
    else if i == 79 then Row(0x0a40, 77, 48, 0)
    else if i == 80 then Row(0x5832, 80, 81, 1)
    else if i == 81 then Row(0x4d1c, 88, 82, 0)
    else if i == 82 then Row(0x438e, 89, 83, 0)
    else if i == 83 then Row(0x3bdd, 90, 84, 0)
    else if i == 84 then Row(0x34ee, 91, 85, 0)
    else Row(0x2eae, 92, 86, 0)
  }

  function HighRows(i: nat): Row
    requires 86 <= i < 114
  {
    if i == 86 then Row(0x299a, 93, 87, 0)
    else if i == 87 then Row(0x2516, 86, 71, 0)
    else if i == 88 then Row(0x5570, 88, 89, 1)
    else if i == 89 then Row(0x4ca9, 95, 90, 0)
    else if i == 90 then Row(0x44d9, 96, 91, 0)
    else if i == 91 then Row(0x3e22, 97, 92, 0)
    else if i == 92 then Row(0x3824, 99, 93, 0)
    else if i == 93 then Row(0x32b4, 99, 94, 0)
    else if i == 94 then Row(0x2e17, 93, 86, 0)
    else if i == 95 then Row(0x56a8, 95, 96, 1)
    else if i == 96 then Row(0x4f46, 101, 97, 0)
    else if i == 97 then Row(0x47e5, 102, 98, 0)
    else if i == 98 then Row(0x41cf, 103, 99, 0)
    else if i == 99 then Row(0x3c3d, 104, 100, 0)
    else if i == 100 then Row(0x375e, 99, 93, 0)
    else if i == 101 then Row(0x5231, 105, 102, 0)
    else if i == 102 then Row(0x4c0f, 106, 103, 0)
    else if i == 103 then Row(0x4639, 107, 104, 0)
    else if i == 104 then Row(0x415e, 103, 99, 0)
    else if i == 105 then Row(0x5627, 105, 106, 1)
    else if i == 106 then Row(0x50e7, 108, 107, 0)
    else if i == 107 then Row(0x4b85, 109, 103, 0)
    else if i == 108 then Row(0x5597, 110, 109, 0)
    else if i == 109 then Row(0x504f, 111, 107, 0)
    else if i == 110 then Row(0x5a10, 110, 111, 1)
    else if i == 111 then Row(0x5522, 112, 109, 0)
    else if i == 112 then Row(0x59eb, 112, 111, 1)
    else Row(0x5a1d, 113, 113, 0)
  }

  /**
   * The packing macro: Qe in the bits from 16 up, the next index after an MPS in
   * bits 8-15, the MPS switch in bit 7 and the next index after an LPS in bits 0-6.
   * The fields do not overlap, so the bitwise OR of the source is a sum.
   */
  function V(row: Row): nat {
    row.qe * 0x10000 + row.nextMps * 0x100 + row.switchMps * 0x80 + row.nextLps
  }

  /** An entry of the packed constant table. */
  function Aritab(i: nat): nat
    requires i <= 113
  {
    V(TableRow(i))
  }

  /** A statistics byte: the MPS value in bit 7, a table index in bits 0-6. */
  predicate ValidBin(sv: Byte) {
    sv % 0x80 <= 113
  }

  function Mps(sv: Byte): (bit: nat)
    ensures bit <= 1
  {
    sv / 0x80
  }

  /** The Qe value the coder unpacks for a statistics byte. */
  function Qe(sv: Byte): nat
    requires ValidBin(sv)
  {
    Aritab(sv % 0x80) / 0x10000
  }

  /** `(sv & 0x80) ^ next`, for a byte `next`. */
  function XorTop(sv: Byte, next: nat): Byte {
    (if Mps(sv) == next / 0x80 % 2 then 0 else 0x80) + next % 0x80
  }

  /** Estimate_after_LPS. */
  function AfterLps(sv: Byte): Byte
    requires ValidBin(sv)
  {
    XorTop(sv, Aritab(sv % 0x80) % 0x100)
  }

  /** Estimate_after_MPS. */
  function AfterMps(sv: Byte): Byte
    requires ValidBin(sv)
  {
    XorTop(sv, Aritab(sv % 0x80) / 0x100 % 0x100)
  }

  /** What unpacking a row and stepping the byte `sv` with it gives. */
  lemma Unpack(sv: Byte, row: Row)
    requires row.nextMps < 0x80 && row.switchMps <= 1 && row.nextLps < 0x80
    ensures V(row) / 0x10000 == row.qe
    ensures XorTop(sv, V(row) / 0x100 % 0x100) == Mps(sv) * 0x80 + row.nextMps
    ensures XorTop(sv, V(row) % 0x100)
         == (if row.switchMps == 1 then 1 - Mps(sv) else Mps(sv)) * 0x80 + row.nextLps
  {
    var low := row.switchMps * 0x80 + row.nextLps;
    assert V(row) == (row.qe * 0x100 + row.nextMps) * 0x100 + low;
    assert V(row) / 0x100 == row.qe * 0x100 + row.nextMps;
    assert V(row) % 0x100 == low;
  }

  /** Estimation from row `i` stays in the table, and leaves or enters the fixed entry never. */
  predicate Closed(i: nat, row: Row) {
    && 0 < row.qe <= 0x5b12 && row.switchMps <= 1
    && if i == 113 then row.nextLps == row.nextMps == 113 && row.switchMps == 0
       else row.nextLps < 113 && row.nextMps < 113
  }

  lemma LowRowsClosed(i: nat)
    requires i < 29
    ensures Closed(i, LowRows(i))
  {
  }

  lemma LowerMiddleRowsClosed(i: nat)
    requires 29 <= i < 57
    ensures Closed(i, LowerMiddleRows(i))
  {
  }

  lemma UpperMiddleRowsClosed(i: nat)
    requires 57 <= i < 86
    ensures Closed(i, UpperMiddleRows(i))
  {
  }

  lemma HighRowsClosed(i: nat)
    requires 86 <= i < 114
    ensures Closed(i, HighRows(i))
  {
  }

  lemma RowClosed(i: nat)
    requires i <= 113
    ensures Closed(i, TableRow(i))
  {
    hide Closed, LowRows, LowerMiddleRows, UpperMiddleRows, HighRows;
    if i < 29 {
      LowRowsClosed(i);
    } else if i < 57 {
      LowerMiddleRowsClosed(i);
    } else if i < 86 {
      UpperMiddleRowsClosed(i);
    } else {
      HighRowsClosed(i);
    }
  }

  /**
   * Closure: every Qe is positive and at most 0x5b12, estimation never leaves the
   * table, the adaptive states never enter the fixed entry 113, a bin in the fixed
   * entry never changes at all, and an MPS never changes the MPS value.
   */
  lemma TableClosed(sv: Byte)
    requires ValidBin(sv)
    ensures 0 < Qe(sv) <= 0x5b12
    ensures ValidBin(AfterLps(sv)) && ValidBin(AfterMps(sv))
    ensures sv % 0x80 < 113 ==> AfterLps(sv) % 0x80 < 113 && AfterMps(sv) % 0x80 < 113
    ensures sv % 0x80 == 113 ==> AfterLps(sv) == AfterMps(sv) == sv
    ensures Mps(AfterMps(sv)) == Mps(sv)
  {
    hide TableRow;
    var row := TableRow(sv % 0x80);
    RowClosed(sv % 0x80);
    Unpack(sv, row);
    BinFields(if row.switchMps == 1 then 1 - Mps(sv) else Mps(sv), row.nextLps);
    BinFields(Mps(sv), row.nextMps);
  }

  /** The row that a statistics byte points to. */
  function RowOf(sv: Byte): Row
    requires ValidBin(sv)
  {
    TableRow(sv % 0x80)
  }

  /** Its unpacked fields. */
  lemma RowFields(sv: Byte)
    requires ValidBin(sv)
    ensures var row := RowOf(sv);
      && Qe(sv) == row.qe && AfterMps(sv) == Mps(sv) * 0x80 + row.nextMps
      && AfterLps(sv) == (if row.switchMps == 1 then 1 - Mps(sv) else Mps(sv)) * 0x80 + row.nextLps
  {
    hide TableRow;
    RowClosed(sv % 0x80);
    Unpack(sv, TableRow(sv % 0x80));
  }

  lemma BinFields(mps: nat, index: nat)
    requires mps <= 1 && index < 0x80
    ensures 0 <= mps * 0x80 + index < 256
    ensures Mps(mps * 0x80 + index) == mps && (mps * 0x80 + index) % 0x80 == index
  {
  }
}
