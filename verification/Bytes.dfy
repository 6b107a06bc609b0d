/** The byte type and the few helpers that every component shares. */
module Bytes {
  newtype byte = x: int | 0 <= x < 256

  function Min(a: nat, b: nat): nat {
    if a <= b then a else b
  }
}
