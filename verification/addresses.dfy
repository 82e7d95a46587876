/** 64-bit unsigned arithmetic, as `uint64` and `Module::Address` behave: sums and differences wrap. */
module Addresses {
  const ADDRESS_LIMIT: int := 0x1_0000_0000_0000_0000

  type Address = a: int | 0 <= a < ADDRESS_LIMIT

  function Add(a: Address, b: Address): Address {
    if a + b < ADDRESS_LIMIT then a + b else a + b - ADDRESS_LIMIT
  }

  function Sub(a: Address, b: Address): Address {
    if a >= b then a - b else a - b + ADDRESS_LIMIT
  }

  function Min(a: int, b: int): int {
    if a <= b then a else b
  }

  function Max(a: int, b: int): int {
    if a <= b then b else a
  }
}
