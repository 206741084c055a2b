/**
 The two comparisons of include/util.h and the range of 64-bit unsigned arithmetic.
 */
module Util {

  datatype Option<+T> = None | Some(value: T)

  /** 2^64: the range of uint64_t and size_t. */
  const U64: nat := 0x1_0000_0000_0000_0000

  function Max(m: nat, n: nat): nat {
    if m > n then m else n
  }

  function Min(m: nat, n: nat): nat {
    if m < n then m else n
  }
}
