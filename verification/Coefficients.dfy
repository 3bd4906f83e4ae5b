/** Blocks of quantized DCT coefficients. */
module Coefficients {
  /** The 64 coefficients of a block in zigzag order, the DC coefficient first. */
  type Block = b: seq<int> | |b| == 64 witness seq(64, _ => 0)

  function ZeroBlock(): (b: Block)
    ensures forall j :: 0 <= j < 64 ==> b[j] == 0
  {
    seq(64, _ => 0)
  }
}
