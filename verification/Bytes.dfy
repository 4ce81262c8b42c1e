/** Bytes as the C++ code holds them in `char` arrays and in `std::string`, read as unsigned values. */
module Bytes {
  newtype byte = x: int | 0 <= x < 256

  /** The bytes of a C++ string literal. */
  function Text(literal: string): (bytes: seq<byte>)
    requires forall i :: 0 <= i < |literal| ==> literal[i] as int < 256
    ensures |bytes| == |literal| && forall i :: 0 <= i < |literal| ==> bytes[i] as int == literal[i] as int
  {
    seq(|literal|, i requires 0 <= i < |literal| => literal[i] as int as byte)
  }
}
