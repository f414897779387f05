/** The values the four operations of the attribute-based signature scheme
    exchange: public parameters, master scalars, private keys, the policy
    triple (M, u, mu) and signatures. Group and field elements are exponents
    (see module Groups); a Java `null` table entry is `None`. */
module AbsTypes {
  import opened Results
  import opened Field

  /** The public key: the pairing order p, the table bound tmax, the generator
      g of G1, the G2 tables h[0..tmax], A[0..tmax], B[0..tmax] and C in G1. */
  datatype PubParams = PubParams(
    p: Prime,
    tmax: nat,
    g: int,
    h: seq<int>,
    A: seq<int>,
    B: seq<Option<int>>,
    C: int)
  {
    /** The shape Setup leaves behind: three tables of tmax + 1 entries, B[0]
        the unused sentinel and every other B entry present. */
    predicate WellFormed()
    {
      && |h| == tmax + 1
      && |A| == tmax + 1
      && |B| == tmax + 1
      && B[0].None?
      && forall i :: 1 <= i < |B| ==> B[i].Some?
    }
  }

  /** The master scalars a0, a, b, c in Zr. */
  datatype MasterKey = MasterKey(a0: int, a: int, b: int, c: int)

  /** A private key: the random base Kbase, K0 = Kbase^(1/a0), one
      Ku = Kbase^(1/(a + b·H(attr))) per attribute, and the attributes in the
      order their keys were derived. */
  datatype PrivKey = PrivKey(Kbase: int, K0: int, Ku: seq<int>, attr: seq<string>)

  /** The policy compiler's output for a (message, attribute list) pair: the
      integer matrix M (l rows, t columns), the hashed attributes u and the
      message scalar mu. */
  datatype Policy = Policy(M: seq<seq<int>>, u: seq<int>, mu: int)
  {
    /** What Sign and Verify read of the triple: `M[0]` exists, every row is
        at least as long as `M[0]`, and u has an entry per row. */
    predicate WellFormed()
    {
      && |M| >= 1
      && (forall i :: 0 <= i < |M| ==> |M[i]| >= |M[0]|)
      && |u| >= |M|
    }

    /** l, the number of rows. */
    function Rows(): nat
    {
      |M|
    }

    /** t, the length of the first row. */
    function Cols(): nat
      requires |M| >= 1
    {
      |M[0]|
    }
  }

  /** A signature (Y, W, S[1..l], P[1..t]); index 0 of S and P is `null`. */
  datatype Signature = Signature(Y: int, W: int, S: seq<Option<int>>, P: seq<Option<int>>)
}
