// Conversion between numbers and bytes.
module Casts {

  type Byte = bv8

  // Proved range by range, which is what the solver finds easy.
  lemma CastValue(n: nat)
    requires n < 256
    ensures (n as bv8) as nat == n
  {
    if n < 8 {
    } else if n < 16 {
    } else if n < 32 {
    } else if n < 64 {
    } else if n < 96 {
    } else if n < 128 {
    } else if n < 160 {
    } else if n < 192 {
    } else if n < 224 {
    }
  }
}
