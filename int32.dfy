/** C#'s `int`: 32-bit two's complement arithmetic in an unchecked context,
    where an overflowing result wraps around instead of throwing. */
module Int32 {

  const Min: int := -0x8000_0000
  const Max: int := 0x7FFF_FFFF
  const Modulus: int := 0x1_0000_0000

  predicate InRange(x: int) {
    Min <= x <= Max
  }

  /** The 32-bit value an unchecked operation keeps of the exact result `x`. */
  function Wrap(x: int): (r: int)
    ensures InRange(r)
    ensures (x - r) % Modulus == 0
    ensures InRange(x) ==> r == x
  {
    (x - Min) % Modulus + Min
  }

  /** Unchecked `x + y` on two C# ints. */
  function Add(x: int, y: int): (r: int)
    requires InRange(x) && InRange(y)
    ensures InRange(r)
    ensures InRange(x + y) ==> r == x + y
    ensures x + y > Max ==> r == x + y - Modulus
    ensures x + y < Min ==> r == x + y + Modulus
  {
    Wrap(x + y)
  }
}
