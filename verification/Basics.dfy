/** Notions that every part of the model shares. */
module Basics {

  datatype Option<+T> = None | Some(value: T)

  type Byte = b: int | 0 <= b < 0x100

  type U32 = w: int | 0 <= w < 0x1_0000_0000

  function Pow2(n: nat): (p: nat)
    ensures p > 0
  {
    if n == 0 then 1 else 2 * Pow2(n - 1)
  }

  function Min(a: nat, b: nat): nat {
    if a < b then a else b
  }

  function Max(a: int, b: int): int {
    if a < b then b else a
  }

  /** The two blocks of a metadata pair. */
  type Addr = (nat, nat)

  /** Two pairs are the same if they share a block. */
  predicate SamePair(a: Addr, b: Addr) {
    a.0 == b.0 || a.1 == b.1 || a.0 == b.1 || a.1 == b.0
  }
}
