/** Option and Result types shared by the modules of this model, and the byte types. */
module Wrappers {

  datatype Option<+T> = None | Some(value: T)

  datatype Result<+R, +E> = Success(value: R) | Failure(error: E)
}

module Bytes {

  /** 2^64: the range of uint64_t, and of size_t on the 64-bit platforms the node is built for. */
  const UINT64_MODULUS: nat := 0x1_0000_0000_0000_0000

  /** An unsigned 8-bit value (uint8_t). */
  type Byte = bv8

  /** The 32-byte fixed-size values: uint256, a public key, a seed, a hash. */
  type Uint256 = s: seq<Byte> | |s| == 32 witness seq(32, _ => 0)

  /** The 64-byte fixed-size values: uint512, an expanded Ed25519 secret key. */
  type Uint512 = s: seq<Byte> | |s| == 64 witness seq(64, _ => 0)

  /** True when every byte of `s` is zero. */
  predicate AllZero(s: seq<Byte>)
  {
    forall i :: 0 <= i < |s| ==> s[i] == 0
  }
}
