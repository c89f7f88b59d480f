/** Java's 16-bit `short`, which the usage counter and the token index are declared as. */
module Shorts {

  newtype Short = x: int | -0x8000 <= x < 0x8000

  /** `x++` on a short: one more, modulo 2^16, read back as a signed value. */
  function Inc(x: Short): (r: Short)
    ensures (r as int - x as int - 1) % 0x10000 == 0
    ensures x < 0x7FFF ==> r as int == x as int + 1
  {
    if x == 0x7FFF then -0x8000 else x + 1
  }
}
