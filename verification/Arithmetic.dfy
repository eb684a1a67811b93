/** Integer helpers the pixel and window code share. */
module Arithmetic {

  const I32_MAX := 0x7FFF_FFFF

  function Min(a: int, b: int): int { if a < b then a else b }

  function Max(a: int, b: int): int { if a > b then a else b }
}
