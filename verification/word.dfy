/** The MSP430's 16-bit `unsigned`: values and wrap-around arithmetic. */
module Word {

  const Modulus := 0x1_0000

  type U16 = x: int | 0 <= x < Modulus

  /** The 16-bit result C keeps of an unsigned integer operation. */
  function Wrap16(x: int): (r: U16)
    ensures 0 <= x < Modulus ==> r == x
    ensures (r - x) % Modulus == 0
  {
    x % Modulus
  }
}
