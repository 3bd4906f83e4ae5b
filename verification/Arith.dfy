/** Powers of two, and facts about products and quotients that the other modules use by name. */
module Arith {
  function Pow2(n: nat): (p: nat)
    ensures p > 0
  {
    if n == 0 then 1 else 2 * Pow2(n - 1)
  }

  lemma {:induction false} Pow2Add(a: nat, b: nat)
    ensures Pow2(a + b) == Pow2(a) * Pow2(b)
  {
    if b == 0 {
      assert Pow2(b) == 1;
    } else {
      Pow2Add(a, b - 1);
      assert Pow2(a + b) == 2 * Pow2(a + (b - 1));
      assert 2 * (Pow2(a) * Pow2(b - 1)) == Pow2(a) * (2 * Pow2(b - 1));
    }
  }

  lemma Pow2Up(a: nat, b: nat)
    requires a <= b
    ensures Pow2(a) <= Pow2(b)
    decreases b
  {
    if a < b {
      Pow2Up(a, b - 1);
    }
  }

  /** The powers below 2^28, which the fixed-width registers use. */
  lemma Pow2Table()
    ensures Pow2(0) == 1 && Pow2(1) == 2 && Pow2(2) == 4 && Pow2(3) == 8 && Pow2(4) == 0x10
    ensures Pow2(5) == 0x20 && Pow2(6) == 0x40 && Pow2(7) == 0x80 && Pow2(8) == 0x100
    ensures Pow2(9) == 0x200 && Pow2(10) == 0x400 && Pow2(11) == 0x800 && Pow2(12) == 0x1000
    ensures Pow2(13) == 0x2000 && Pow2(14) == 0x4000 && Pow2(15) == 0x8000 && Pow2(16) == 0x10000
    ensures Pow2(17) == 0x20000 && Pow2(18) == 0x40000 && Pow2(19) == 0x80000
    ensures Pow2(20) == 0x100000 && Pow2(21) == 0x200000 && Pow2(22) == 0x400000
    ensures Pow2(23) == 0x800000 && Pow2(24) == 0x1000000 && Pow2(25) == 0x2000000
    ensures Pow2(26) == 0x4000000 && Pow2(27) == 0x8000000
  {
    assert Pow2(8) == 0x100;
    assert Pow2(16) == 0x10000;
    assert Pow2(24) == 0x1000000;
  }

  lemma Pow2Double(n: nat)
    requires n > 0
    ensures Pow2(n) == 2 * Pow2(n - 1)
  {
  }

  lemma Pow2Byte(m: nat)
    ensures Pow2(8 * (m + 1)) == 256 * Pow2(8 * m)
  {
    Pow2Add(8 * m, 8);
    assert Pow2(8) == 0x100;
    assert 8 * (m + 1) == 8 * m + 8;
  }

  lemma MulSwap(a: nat, c: nat, u: nat)
    ensures a * (c * u) == c * (a * u)
  {
  }

  lemma MulMono(a: nat, b: nat, u: nat)
    requires a <= b
    ensures a * u <= b * u
  {
  }

  lemma MulNext(a: nat, u: nat)
    ensures (a + 1) * u == a * u + u
  {
  }

  lemma MulAssoc(a: nat, b: nat, u: nat)
    ensures (a * b) * u == a * (b * u)
  {
  }

  lemma MulCancel(a: nat, b: nat, u: nat)
    requires u > 0 && a * u <= b * u
    ensures a <= b
  {
    if b < a {
      MulNext(b, u);
      MulMono(b + 1, a, u);
    }
  }

  lemma MulCancelStrict(a: nat, b: nat, u: nat)
    requires u > 0 && a * u < b * u
    ensures a < b
  {
    if b <= a {
      MulMono(b, a, u);
    }
  }

  /** Division with remainder is unique. */
  lemma Division(v: int, m: nat, q: int, r: int)
    requires v == q * m + r && 0 <= r < m
    ensures v / m == q && v % m == r
  {
    var e := v / m;
    assert v == e * m + v % m;
    Apart(e, q, m);
    Apart(q, e, m);
  }

  lemma Apart(a: int, b: int, m: nat)
    ensures a < b ==> a * m + m <= b * m
  {
    assert (a + 1) * m == a * m + m;
    assert a + 1 <= b ==> (a + 1) * m <= b * m;
  }
}
