/** RGB to CMYK and back (cmyk.h), in exact arithmetic. */
module Cmyk {
  function Min(a: real, b: real): real {
    if a < b then a else b
  }

  datatype Ink = Ink(c: int, m: int, y: int, k: int)

  datatype Rgb = Rgb(r: int, g: int, b: int)

  /** One of the fractions of full ink, without its black part. */
  function Fraction(maxval: int, v: int): real
    requires maxval >= 1
  {
    1.0 - v as real / maxval as real
  }

  function Black(maxval: int, x: Rgb): real
    requires maxval >= 1
  {
    Min(Min(Fraction(maxval, x.r), Fraction(maxval, x.g)), Fraction(maxval, x.b))
  }

  function Chroma(maxval: int, v: int, k: real): real
    requires maxval >= 1
  {
    if k == 1.0 then 0.0 else (Fraction(maxval, v) - k) / (1.0 - k)
  }

  function Level(maxval: int, ink: real): int {
    (maxval as real - ink * maxval as real + 0.5).Floor
  }

  /** `rgb_to_cmyk`. */
  function RgbToCmyk(maxval: int, x: Rgb): Ink
    requires maxval >= 1
  {
    var k := Black(maxval, x);
    Ink(Level(maxval, Chroma(maxval, x.r, k)), Level(maxval, Chroma(maxval, x.g, k)),
        Level(maxval, Chroma(maxval, x.b, k)), Level(maxval, k))
  }

  function Mix(maxval: int, ink: int, k: int): int
    requires maxval >= 1
  {
    (ink as real * k as real / maxval as real + 0.5).Floor
  }

  /** `cmyk_to_rgb`. */
  function CmykToRgb(maxval: int, i: Ink): Rgb
    requires maxval >= 1
  {
    Rgb(Mix(maxval, i.c, i.k), Mix(maxval, i.m, i.k), Mix(maxval, i.y, i.k))
  }

  ghost predicate Samples(maxval: int, x: Rgb) {
    0 <= x.r <= maxval && 0 <= x.g <= maxval && 0 <= x.b <= maxval
  }

  function Brightest(x: Rgb): int {
    if x.r >= x.g && x.r >= x.b then x.r else if x.g >= x.b then x.g else x.b
  }

  /** Black ink is what the brightest component leaves. */
  lemma BlackLevel(maxval: int, x: Rgb)
    requires maxval >= 1 && Samples(maxval, x)
    ensures Black(maxval, x) == Fraction(maxval, Brightest(x))
    ensures Level(maxval, Black(maxval, x)) == Brightest(x)
  {
    var n := maxval as real;
    Ordered(x.r, x.g, n);
    Ordered(x.g, x.b, n);
    Ordered(x.r, x.b, n);
    var m := Brightest(x) as real;
    assert (m / n) * n == m;
    assert n - (1.0 - m / n) * n == m;
  }

  lemma Ordered(a: int, b: int, n: real)
    requires n > 0.0
    ensures a <= b <==> a as real / n <= b as real / n
  {
    var p, q := a as real / n, b as real / n;
    assert p * n == a as real && q * n == b as real;
    assert p <= q ==> p * n <= q * n;
    assert p > q ==> p * n > q * n;
  }

  /** The colored part of an ink, as a share of the brightest component. */
  lemma ChromaShare(maxval: int, v: int, m: int)
    requires maxval >= 1 && 0 <= v <= m && 0 < m <= maxval
    ensures Chroma(maxval, v, Fraction(maxval, m)) * m as real == (m - v) as real
  {
    var n := maxval as real;
    var p, q := m as real / n, v as real / n;
    assert p * n == m as real && q * n == v as real;
    assert p != 0.0;
    var ch := Chroma(maxval, v, Fraction(maxval, m));
    assert ch == (p - q) / p;
    assert ch * p == p - q;
    ShareScaled(ch, p, q, n);
  }

  lemma ShareScaled(ch: real, p: real, q: real, n: real)
    requires ch * p == p - q
    ensures ch * (p * n) == p * n - q * n
  {
    assert ch * (p * n) == (ch * p) * n;
  }

  /** An ink level is the component's share of the brightest one, rounded. */
  lemma InkLevel(maxval: int, v: int, m: int)
    requires maxval >= 1 && 0 <= v <= m && 0 < m <= maxval
    ensures var e := Level(maxval, Chroma(maxval, v, Fraction(maxval, m)));
      2 * v * maxval - m < 2 * e * m <= 2 * v * maxval + m
  {
    hide Chroma, Fraction;
    var ch := Chroma(maxval, v, Fraction(maxval, m));
    ChromaShare(maxval, v, m);
    var n := maxval as real;
    var share := n - ch * n;
    ShareOf(ch, n, m as real, v as real);
    Rounded(share, Level(maxval, ch), m, v * maxval);
  }

  lemma ShareOf(ch: real, n: real, m: real, v: real)
    requires ch * m == m - v
    ensures (n - ch * n) * m == v * n
  {
    assert (n - ch * n) * m == n * m - n * (ch * m);
  }

  lemma Rounded(share: real, e: int, m: int, vn: int)
    requires e == (share + 0.5).Floor && m > 0 && share * m as real == vn as real
    ensures 2 * vn - m < 2 * e * m <= 2 * vn + m
  {
    RealProduct(e, m);
    Within(share, e as real, m as real, vn as real, (e * m) as real);
    Doubled(e * m, vn, m);
    assert 2 * e * m == 2 * (e * m);
  }

  lemma RealProduct(e: int, m: int)
    ensures (e * m) as real == e as real * m as real
  {
  }

  lemma Doubled(p: int, vn: int, m: int)
    requires vn as real - 0.5 * m as real < p as real <= vn as real + 0.5 * m as real
    ensures 2 * vn - m < 2 * p <= 2 * vn + m
  {
  }

  lemma Within(share: real, e: real, u: real, su: real, eu: real)
    requires u > 0.0 && share - 0.5 < e <= share + 0.5 && su == share * u && eu == e * u
    ensures su - 0.5 * u < eu <= su + 0.5 * u
  {
    Difference(share, e, u, su, eu);
    Difference(e, share, u, eu, su);
  }

  lemma Difference(a: real, b: real, u: real, au: real, bu: real)
    requires u > 0.0 && au == a * u && bu == b * u
    ensures a + 0.5 >= b ==> au + 0.5 * u >= bu
    ensures a + 0.5 > b ==> au + 0.5 * u > bu
  {
    var d := a + 0.5 - b;
    var du := d * u;
    assert du == au + 0.5 * u - bu;
    Signs(d, u);
  }

  lemma Signs(d: real, u: real)
    requires u > 0.0
    ensures (d >= 0.0 ==> d * u >= 0.0) && (d > 0.0 ==> d * u > 0.0)
  {
  }

  /**
   * The conversion itself: the black component is the brightest one's level, each ink the rounded share that its
   * component has of it, and without any light all inks are at full level.
   */
  lemma RgbToCmykExact(maxval: int, x: Rgb)
    requires maxval >= 1 && Samples(maxval, x)
    ensures var i := RgbToCmyk(maxval, x);
      && x.r <= i.k && x.g <= i.k && x.b <= i.k && (i.k == x.r || i.k == x.g || i.k == x.b)
      && (i.k == 0 ==> i.c == i.m == i.y == maxval)
      && (i.k > 0 ==>
            && 2 * x.r * maxval - i.k < 2 * i.c * i.k <= 2 * x.r * maxval + i.k
            && 2 * x.g * maxval - i.k < 2 * i.m * i.k <= 2 * x.g * maxval + i.k
            && 2 * x.b * maxval - i.k < 2 * i.y * i.k <= 2 * x.b * maxval + i.k)
  {
    hide Black, Chroma, Level, Fraction;
    BlackLevel(maxval, x);
    var m := Brightest(x);
    if m == 0 {
      NoLight(maxval);
    } else {
      InkLevel(maxval, x.r, m);
      InkLevel(maxval, x.g, m);
      InkLevel(maxval, x.b, m);
    }
  }

  lemma NoLight(maxval: int)
    requires maxval >= 1
    ensures Level(maxval, Chroma(maxval, 0, Fraction(maxval, 0))) == maxval
  {
  }

  /** The error of a mixed component is less than one half. */
  lemma MixExact(maxval: int, v: int, m: int, e: int)
    requires maxval >= 1 && 0 <= v <= m && 0 < m <= maxval
    requires 2 * v * maxval - m < 2 * e * m <= 2 * v * maxval + m
    ensures Mix(maxval, e, m) == v
  {
    StrictlyBelow(maxval, v, m, e);
    Nearest(e * m, maxval, v);
    assert (e * m) as real == e as real * m as real;
  }

  /** The way back, on any inks: each component is its ink times black, scaled and rounded. */
  lemma CmykToRgbExact(maxval: int, i: Ink)
    requires maxval >= 1
    ensures var x := CmykToRgb(maxval, i);
      && 2 * (i.c * i.k) - maxval < 2 * x.r * maxval <= 2 * (i.c * i.k) + maxval
      && 2 * (i.m * i.k) - maxval < 2 * x.g * maxval <= 2 * (i.m * i.k) + maxval
      && 2 * (i.y * i.k) - maxval < 2 * x.b * maxval <= 2 * (i.y * i.k) + maxval
  {
    MixRounded(maxval, i.c, i.k);
    MixRounded(maxval, i.m, i.k);
    MixRounded(maxval, i.y, i.k);
    hide Mix;
  }

  lemma MixRounded(maxval: int, ink: int, k: int)
    requires maxval >= 1
    ensures var e := Mix(maxval, ink, k); 2 * (ink * k) - maxval < 2 * e * maxval <= 2 * (ink * k) + maxval
  {
    RealProduct(ink, k);
    var share := ink as real * k as real / maxval as real;
    assert share * maxval as real == (ink * k) as real;
    Rounded(share, Mix(maxval, ink, k), maxval, ink * k);
  }

  lemma StrictlyBelow(n: int, v: int, m: int, e: int)
    requires 0 < m <= n && 2 * e * m <= 2 * v * n + m
    ensures 2 * (e * m) < 2 * (v * n) + n
  {
    assert e > v ==> e * m >= (v + 1) * m == v * m + m;
    assert e <= v ==> e * m <= v * m;
  }

  lemma Nearest(x: int, n: int, v: int)
    requires n > 0 && 2 * (v * n) - n <= 2 * x < 2 * (v * n) + n
    ensures (x as real / n as real + 0.5).Floor == v
  {
    var t := x as real / n as real;
    assert t * n as real == x as real;
    RealProduct(v, n);
    Closest(t, v as real, n as real, x as real, (v * n) as real);
  }

  lemma Closest(t: real, v: real, u: real, tu: real, vu: real)
    requires u > 0.0 && tu == t * u && vu == v * u && vu - 0.5 * u <= tu < vu + 0.5 * u
    ensures v - 0.5 <= t < v + 0.5
  {
    var d := v - 0.5 - t;
    var du := d * u;
    assert du == vu - 0.5 * u - tu;
    Signs(d, u);
    var e := t - v - 0.5;
    var eu := e * u;
    assert eu == tu - vu - 0.5 * u;
    Signs(e, u);
  }

  /** The two conversions are inverse on all samples of every precision. */
  lemma Reversible(maxval: int, x: Rgb)
    requires maxval >= 1 && Samples(maxval, x)
    ensures CmykToRgb(maxval, RgbToCmyk(maxval, x)) == x
  {
    hide Black, Chroma, Level, Mix, Fraction;
    BlackLevel(maxval, x);
    var m := Brightest(x);
    var i := RgbToCmyk(maxval, x);
    if m == 0 {
      AllBlack(maxval, x);
    } else {
      InkLevel(maxval, x.r, m);
      MixExact(maxval, x.r, m, i.c);
      InkLevel(maxval, x.g, m);
      MixExact(maxval, x.g, m, i.m);
      InkLevel(maxval, x.b, m);
      MixExact(maxval, x.b, m, i.y);
    }
  }

  lemma AllBlack(maxval: int, x: Rgb)
    requires maxval >= 1 && x == Rgb(0, 0, 0)
    ensures CmykToRgb(maxval, RgbToCmyk(maxval, x)) == x
  {
  }
}
