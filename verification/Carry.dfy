/**
 * The bytes the arithmetic encoder has extracted from its code register but not yet
 * settled: pending zero bytes, one held byte and a stack of 0xFF bytes that a carry
 * may still turn into zeros.
 */
module Carry {
  import opened Arith
  import opened Bytes
  import opened QmTermination

  /** Everything extracted so far: settled bytes, then zeros, the held byte (-1: none), then 0xFF bytes. */
  ghost function Digits(emitted: seq<Byte>, zc: nat, buffer: int, sc: nat): (s: seq<Byte>)
    requires -1 <= buffer < 0xFF
    ensures |s| == |emitted| + zc + (if buffer >= 0 then 1 else 0) + sc
  {
    emitted + Repeat(0, zc) + (if buffer >= 0 then [buffer] else []) + Repeat(0xFF, sc)
  }

  lemma RepeatSnoc(b: Byte, n: nat)
    ensures Repeat(b, n + 1) == Repeat(b, n) + [b]
  {
  }

  /** Adding one turns a stack of 0xFF bytes into zeros and increments the byte before it. */
  lemma {:induction false} CarryValue(s: seq<Byte>, b: Byte, n: nat)
    requires b < 0xFF
    ensures Value(s + [b] + Repeat(0xFF, n)) + 1 == Value(s + [b + 1] + Repeat(0, n))
  {
    if n == 0 {
      assert s + [b] + Repeat(0xFF, 0) == s + [b];
      assert s + [b + 1] + Repeat(0, 0) == s + [b + 1];
      ValueSnoc(s, b);
      ValueSnoc(s, b + 1);
    } else {
      CarryValue(s, b, n - 1);
      RepeatSnoc(0xFF, n - 1);
      RepeatSnoc(0, n - 1);
      assert s + [b] + Repeat(0xFF, n) == (s + [b] + Repeat(0xFF, n - 1)) + [0xFF];
      assert s + [b + 1] + Repeat(0, n) == (s + [b + 1] + Repeat(0, n - 1)) + [0];
      ValueSnoc(s + [b] + Repeat(0xFF, n - 1), 0xFF);
      ValueSnoc(s + [b + 1] + Repeat(0, n - 1), 0);
    }
  }

  /** A stack of 0xFF bytes with nothing in front cannot take a carry: it is already the greatest number. */
  lemma {:induction false} FullStack(n: nat)
    ensures Value(Repeat(0xFF, n)) == Pow2(8 * n) - 1
  {
    if n > 0 {
      FullStack(n - 1);
      RepeatSnoc(0xFF, n - 1);
      ValueSnoc(Repeat(0xFF, n - 1), 0xFF);
      Pow2Byte(n - 1);
    } else {
      assert Pow2(0) == 1;
    }
  }

  /** Trailing zero bytes do not change the zero-extended number. */
  lemma PadZeros(s: seq<Byte>, n: nat, m: nat)
    ensures Prefix(s + Repeat(0, n), m) == Prefix(s, m)
  {
    PrefixSame(s + Repeat(0, n), s, m);
  }

  /** Register-level choice of the final number agrees with the unbounded one. */
  lemma PickShift(low: nat, z: nat, width: nat)
    requires 0x8000 <= width
    ensures Pick(z * 0x10000 + low, width) == z * 0x10000 + Pick(low, width)
  {
    assert (z * 0x10000 + low + width - 1) / 0x10000 == z + (low + width - 1) / 0x10000;
  }
}
