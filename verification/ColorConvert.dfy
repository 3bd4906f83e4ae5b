/** RGB to YCbCr through lookup tables (jccolor.c, jccolext.c). */
module ColorConvert {
  import Arith

  const SCALE: nat := 0x10000
  const ONE_HALF: nat := 0x8000

  /** `FIX`: a fraction scaled up by 2^16, to the nearest integer. */
  function Fix(x: real): int {
    (x * 65536.0 + 0.5).Floor
  }

  /** The greatest sample of a precision is 2^(p)-1; `center` is 2^(p-1). */
  function Max(center: nat): int {
    2 * center - 1
  }

  // ---------------------------------------------------------------------------
  // The tables
  // ---------------------------------------------------------------------------

  /** Entry `i` of table section `k`, in the order of the offsets R_Y_OFF to B_CR_OFF. */
  function Entry(center: nat, k: nat, i: nat): int {
    match k
    case 0 => Fix(0.29900) * i
    case 1 => Fix(0.58700) * i
    case 2 => Fix(0.11400) * i + ONE_HALF
    case 3 => -Fix(0.16874) * i
    case 4 => -Fix(0.33126) * i
    case 5 => Fix(0.50000) * i + center * SCALE + ONE_HALF - 1
    case 6 => -Fix(0.41869) * i
    case _ => -Fix(0.08131) * i
  }

  /** Sum of three entries, shifted down. */
  function Y(r: nat, g: nat, b: nat): int {
    (Entry(0, 0, r) + Entry(0, 1, g) + Entry(0, 2, b)) / SCALE
  }

  function Cb(center: nat, r: nat, g: nat, b: nat): int {
    (Entry(center, 3, r) + Entry(center, 4, g) + Entry(center, 5, b)) / SCALE
  }

  function Cr(center: nat, r: nat, g: nat, b: nat): int {
    (Entry(center, 5, r) + Entry(center, 6, g) + Entry(center, 7, b)) / SCALE
  }

  lemma Constants()
    ensures Fix(0.29900) == 19595 && Fix(0.58700) == 38470 && Fix(0.11400) == 7471
    ensures Fix(0.16874) == 11059 && Fix(0.33126) == 21709 && Fix(0.50000) == 32768
    ensures Fix(0.41869) == 27439 && Fix(0.08131) == 5329
  {
  }

  /** Every output is a sample: no clamping is needed, and the sums are never negative. */
  lemma InRange(center: nat, r: nat, g: nat, b: nat)
    requires r <= Max(center) && g <= Max(center) && b <= Max(center)
    ensures 0 <= Y(r, g, b) <= Max(center)
    ensures 0 <= Cb(center, r, g, b) <= Max(center) && 0 <= Cr(center, r, g, b) <= Max(center)
  {
    hide Y, Cb, Cr;
    InRangeY(center, r, g, b);
    InRangeCb(center, r, g, b);
    InRangeCr(center, r, g, b);
  }

  lemma InRangeY(center: nat, r: nat, g: nat, b: nat)
    requires r <= Max(center) && g <= Max(center) && b <= Max(center)
    ensures 0 <= Y(r, g, b) <= Max(center)
  {
    Constants();
    hide Fix;
  }

  lemma InRangeCb(center: nat, r: nat, g: nat, b: nat)
    requires r <= Max(center) && g <= Max(center) && b <= Max(center)
    ensures 0 <= Cb(center, r, g, b) <= Max(center)
  {
    Constants();
    hide Fix;
  }

  lemma InRangeCr(center: nat, r: nat, g: nat, b: nat)
    requires r <= Max(center) && g <= Max(center) && b <= Max(center)
    ensures 0 <= Cr(center, r, g, b) <= Max(center)
  {
    Constants();
    hide Fix;
  }

  /** Grays are exact. */
  lemma GrayExact(center: nat, v: nat)
    ensures Y(v, v, v) == v && Cb(center, v, v, v) == center && Cr(center, v, v, v) == center
  {
    Constants();
  }

  /** `x` is a nearest integer to `exact`, but for the rounding of the three scaled fractions. */
  predicate Near(x: int, exact: real, r: nat, g: nat, b: nat) {
    var slack := 0.5 + (r + g + b) as real * 0.5 / 65536.0;
    exact - slack <= x as real <= exact + slack
  }

  /** The conversion equations of CCIR 601-1. */
  lemma AccurateY(r: nat, g: nat, b: nat)
    ensures Near(Y(r, g, b), 0.29900 * r as real + 0.58700 * g as real + 0.11400 * b as real, r, g, b)
  {
    Constants();
    hide Fix, Near;
    NearSum(19595 * r + 38470 * g + 7471 * b, ONE_HALF,
            0.29900 * r as real + 0.58700 * g as real + 0.11400 * b as real, r, g, b);
  }

  lemma AccurateCb(center: nat, r: nat, g: nat, b: nat)
    ensures Near(Cb(center, r, g, b),
                 -0.16874 * r as real - 0.33126 * g as real + 0.50000 * b as real + center as real, r, g, b)
  {
    Constants();
    hide Fix, Near;
    NearSum(32768 * b - 11059 * r - 21709 * g + center * SCALE, ONE_HALF - 1,
            -0.16874 * r as real - 0.33126 * g as real + 0.50000 * b as real + center as real, r, g, b);
  }

  lemma AccurateCr(center: nat, r: nat, g: nat, b: nat)
    ensures Near(Cr(center, r, g, b),
                 0.50000 * r as real - 0.41869 * g as real - 0.08131 * b as real + center as real, r, g, b)
  {
    Constants();
    hide Fix, Near;
    NearSum(32768 * r - 27439 * g - 5329 * b + center * SCALE, ONE_HALF - 1,
            0.50000 * r as real - 0.41869 * g as real - 0.08131 * b as real + center as real, r, g, b);
  }

  lemma NearSum(sum: int, half: int, exact: real, r: nat, g: nat, b: nat)
    requires half == 32767 || half == 32768
    requires -0.5 * (r + g + b) as real <= exact * 65536.0 - sum as real <= 0.5 * (r + g + b) as real
    ensures Near((sum + half) / SCALE, exact, r, g, b)
  {
    var x := (sum + half) / SCALE;
    assert x * SCALE - 32768 <= sum <= x * SCALE + 32768;
    assert (x * SCALE) as real == x as real * 65536.0;
  }

  // ---------------------------------------------------------------------------
  // The loops
  // ---------------------------------------------------------------------------

  class Converter {
    const center: nat
    const tab: array<int>

    ghost predicate Valid()
    {
      center > 0 && tab.Length == 16 * center
    }

    /** All eight sections are filled in; section 5 serves for B to Cb and R to Cr. */
    ghost predicate Filled(n: nat)
      requires Valid() && n <= 2 * center
      reads tab
    {
      forall k, i :: 0 <= k < 8 && 0 <= i < n ==> tab[At(k, i)] == Entry(center, k, i)
    }

    function At(k: nat, i: nat): (j: nat)
      requires Valid() && k < 8 && i < 2 * center
      ensures j < tab.Length && j == i + k * (2 * center)
    {
      i + k * (2 * center)
    }

    constructor (center: nat)
      requires center > 0
      ensures Valid() && this.center == center && fresh(tab)
    {
      this.center := center;
      tab := new int[16 * center];
    }

    /** `rgb_ycc_start`. */
    method RgbYccStart()
      requires Valid()
      modifies tab
      ensures Filled(2 * center)
    {
      hide Entry, Fix;
      for i := 0 to 2 * center
        invariant Filled(i)
      {
        FillEntry(i);
      }
    }

    method FillEntry(i: nat)
      requires Valid() && i < 2 * center && Filled(i)
      modifies tab
      ensures Filled(i + 1)
    {
      hide Fix, Converter.At;
      Put(0, i, Fix(0.29900) * i);
      Put(1, i, Fix(0.58700) * i);
      Put(2, i, Fix(0.11400) * i + ONE_HALF);
      Put(3, i, -Fix(0.16874) * i);
      Put(4, i, -Fix(0.33126) * i);
      Put(5, i, Fix(0.50000) * i + center * SCALE + ONE_HALF - 1);
      Put(6, i, -Fix(0.41869) * i);
      Put(7, i, -Fix(0.08131) * i);
    }

    /** Stores one entry of section `k`. */
    method Put(k: nat, i: nat, v: int)
      requires Valid() && k < 8 && i < 2 * center
      modifies tab
      ensures tab[At(k, i)] == v
      ensures forall l, e :: 0 <= l < 8 && 0 <= e < 2 * center && (l != k || e != i) ==> tab[At(l, e)] == old(tab[At(l, e)])
    {
      tab[At(k, i)] := v;
      forall l, e | 0 <= l < 8 && 0 <= e < 2 * center && (l != k || e != i) ensures At(l, e) != At(k, i) {
        Arith.Apart(l, k, 2 * center);
        Arith.Apart(k, l, 2 * center);
      }
    }

    /** `RANGE_LIMIT`: the low bits of a sample. */
    function RangeLimit(v: nat): (r: nat)
      requires Valid()
      ensures r < 2 * center && (v < 2 * center ==> r == v)
    {
      if v < 2 * center then v else v % (2 * center)
    }

    /** The first `cols` pixels of a row are converted. */
    ghost predicate RowDone(input: array2<nat>, r: nat, cols: nat, y: array2<int>, cb: array2<int>, cr: array2<int>, base: nat)
      requires Valid() && r < input.Length0 && 3 * cols <= input.Length1
      requires base + r < y.Length0 && base + r < cb.Length0 && base + r < cr.Length0
      requires cols <= y.Length1 && cols <= cb.Length1 && cols <= cr.Length1
      reads input, y, cb, cr
    {
      forall c :: 0 <= c < cols ==>
        var red, green, blue := RangeLimit(input[r, 3 * c]), RangeLimit(input[r, 3 * c + 1]), RangeLimit(input[r, 3 * c + 2]);
        && y[base + r, c] == Y(red, green, blue)
        && cb[base + r, c] == Cb(center, red, green, blue)
        && cr[base + r, c] == Cr(center, red, green, blue)
    }

    /** `rgb_ycc_convert`: `rows` rows of `cols` pixels, to the rows from `outputRow` on of three planes. */
    method RgbYccConvert(input: array2<nat>, y: array2<int>, cb: array2<int>, cr: array2<int>, outputRow: nat,
                         rows: nat, cols: nat)
      requires Valid() && Filled(2 * center) && rows <= input.Length0 && 3 * cols <= input.Length1
      requires outputRow + rows <= y.Length0 && outputRow + rows <= cb.Length0 && outputRow + rows <= cr.Length0
      requires cols <= y.Length1 && cols <= cb.Length1 && cols <= cr.Length1
      requires y != cb && y != cr && cb != cr && input as object !in {y, cb, cr} && tab as object !in {y, cb, cr}
      modifies y, cb, cr
      ensures forall r :: 0 <= r < rows ==> RowDone(input, r, cols, y, cb, cr, outputRow)
    {
      hide Y, Cb, Cr, RangeLimit, Entry;
      for r := 0 to rows
        invariant Filled(2 * center)
        invariant forall q :: 0 <= q < r ==> RowDone(input, q, cols, y, cb, cr, outputRow)
      {
        label before:
        ConvertRow(input, r, y, cb, cr, outputRow, outputRow + r, cols);
        forall q | 0 <= q < r ensures RowDone(input, q, cols, y, cb, cr, outputRow) {
          assert old@before(RowDone(input, q, cols, y, cb, cr, outputRow));
        }
      }
    }

    method ConvertRow(input: array2<nat>, r: nat, y: array2<int>, cb: array2<int>, cr: array2<int>, ghost base: nat, o: nat, cols: nat)
      requires Valid() && Filled(2 * center) && r < input.Length0 && 3 * cols <= input.Length1
      requires o == base + r && o < y.Length0 && o < cb.Length0 && o < cr.Length0
      requires cols <= y.Length1 && cols <= cb.Length1 && cols <= cr.Length1
      requires y != cb && y != cr && cb != cr && input as object !in {y, cb, cr} && tab as object !in {y, cb, cr}
      modifies y, cb, cr
      ensures RowDone(input, r, cols, y, cb, cr, base)
      ensures forall i, c :: 0 <= i < y.Length0 && 0 <= c < y.Length1 && i != o ==> y[i, c] == old(y[i, c])
      ensures forall i, c :: 0 <= i < cb.Length0 && 0 <= c < cb.Length1 && i != o ==> cb[i, c] == old(cb[i, c])
      ensures forall i, c :: 0 <= i < cr.Length0 && 0 <= c < cr.Length1 && i != o ==> cr[i, c] == old(cr[i, c])
    {
      hide RangeLimit, Entry;
      for c := 0 to cols
        invariant Filled(2 * center) && RowDone(input, r, c, y, cb, cr, base)
        invariant forall i, e :: 0 <= i < y.Length0 && 0 <= e < y.Length1 && i != o ==> y[i, e] == old(y[i, e])
        invariant forall i, e :: 0 <= i < cb.Length0 && 0 <= e < cb.Length1 && i != o ==> cb[i, e] == old(cb[i, e])
        invariant forall i, e :: 0 <= i < cr.Length0 && 0 <= e < cr.Length1 && i != o ==> cr[i, e] == old(cr[i, e])
      {
        var red, green, blue := RangeLimit(input[r, 3 * c]), RangeLimit(input[r, 3 * c + 1]), RangeLimit(input[r, 3 * c + 2]);
        YTables(red, green, blue);
        y[o, c] := (tab[At(0, red)] + tab[At(1, green)] + tab[At(2, blue)]) / SCALE;
        cb[o, c] := (tab[At(3, red)] + tab[At(4, green)] + tab[At(5, blue)]) / SCALE;
        cr[o, c] := (tab[At(5, red)] + tab[At(6, green)] + tab[At(7, blue)]) / SCALE;
      }
    }

    /** The tables for Y do not depend on the center. */
    lemma YTables(r: nat, g: nat, b: nat)
      ensures Entry(0, 0, r) == Entry(center, 0, r) && Entry(0, 1, g) == Entry(center, 1, g)
      ensures Entry(0, 2, b) == Entry(center, 2, b)
    {
    }
  }
}
