/** Go's fixed-width integer types, as the parts of the model that carry them need them. */
module GoTypes {

  newtype uint8 = x: int | 0 <= x < 0x100
  newtype uint16 = x: int | 0 <= x < 0x1_0000
  newtype uint32 = x: int | 0 <= x < 0x1_0000_0000
  newtype int32 = x: int | -0x8000_0000 <= x < 0x8000_0000

  /** A Go `[]byte`, and also a Go `string`, which is a byte sequence. */
  type Bytes = seq<uint8>

  /** `n` zero bytes: what Go's `make([]byte, n)` holds before anything is written. */
  function Zeros(n: nat): (r: Bytes)
    ensures |r| == n && forall i :: 0 <= i < n ==> r[i] == 0
  {
    seq(n, _ => 0)
  }
}
