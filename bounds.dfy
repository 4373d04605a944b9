/** Integer helpers shared by the packing, slicing and replay definitions. */
module Bounds {

  function Min(a: int, b: int): int {
    if a < b then a else b
  }

  function Max(a: int, b: int): int {
    if a < b then b else a
  }
}
