/** Fixed-width words: powers of two and two's complement, the way BigInt.asIntN reads it. */
module Words {
  const TWO_8: nat := 0x100
  const TWO_24: nat := 0x100_0000
  const TWO_32: nat := 0x1_0000_0000
  const TWO_56: nat := 0x100_0000_0000_0000
  const TWO_128: nat := 0x1_00000000_00000000_00000000_00000000
  const TWO_200: nat := 0x1_0000000000_0000000000_0000000000_0000000000_0000000000
  const TWO_256: nat := TWO_128 * TWO_128

  type Uint256 = n: nat | n < TWO_256 witness 0

  // The low bits of n as a signed number; the modulus is two to the width.
  function Signed(n: nat, modulus: nat): int
    requires 0 < modulus
  {
    var m := n % modulus;
    if modulus <= 2 * m then m - modulus else m
  }

  predicate Fits(x: int, modulus: int) { -modulus <= 2 * x < modulus }

  // The two's complement word of x.
  function Unsigned(x: int, modulus: nat): nat
    requires Fits(x, modulus)
  {
    if x < 0 then x + modulus else x
  }

  lemma SignedReadsBack(x: int, modulus: nat)
    requires 0 < modulus && Fits(x, modulus)
    ensures Unsigned(x, modulus) < modulus && Signed(Unsigned(x, modulus), modulus) == x
  {
  }
}
