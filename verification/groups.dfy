/** JPBC group and pairing operations in the discrete-log representation.
    An element of G1, G2 or GT is written as its exponent in Z_p relative to a
    fixed generator of that group (with e(g1, g2) the generator of GT), so
    group multiplication adds exponents, `powZn` multiplies them, and the
    pairing multiplies the exponents of its two arguments. */
module Groups {
  import opened Field

  /** `newZeroElement()`: the identity of G1, G2 or GT. */
  const Identity: int := 0

  /** `x.mul(y)` on group elements. */
  function Op(p: Prime, x: int, y: int): int
  {
    Add(p, x, y)
  }

  /** `x.powZn(k)`: x raised to the Zr scalar k. */
  function Pow(p: Prime, x: int, k: int): int
  {
    Mul(p, x, k)
  }

  /** `pairing.pairing(x, y)` for x in G1 and y in G2. */
  function Pair(p: Prime, x: int, y: int): int
  {
    Mul(p, x, y)
  }

  /** `Zr.newElement(n)`: the integer n as a field element. */
  function ZrOf(p: Prime, n: int): int
  {
    n % p
  }

  /** `x.isEqual(newZeroElement())`. */
  predicate IsIdentity(p: Prime, x: int)
  {
    x % p == 0
  }
}
