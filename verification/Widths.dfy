// The integer widths of the C code: unsigned values wrap around at these.
module Widths {
  const W32 := 0x1_0000_0000
  const W64 := 0x1_0000_0000_0000_0000

  // The largest value of a signed 32-bit integer.
  const MAX_INT := 0x7FFF_FFFF

  // What a signed 32-bit integer holds when n is converted to it.
  function ToInt32(n: nat): (r: int)
    ensures -MAX_INT - 1 <= r <= MAX_INT && (r - n) % W32 == 0
    ensures r == n <==> n <= MAX_INT
  {
    if n % W32 <= MAX_INT then n % W32 else n % W32 - W32
  }
}
