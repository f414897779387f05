/** `setup`: the public tables derived from the master scalars. The random
    draws (g, a0, a, b, c and h_0..h_tmax) are parameters. */
module AbsSetup {
  import opened Results
  import opened Field
  import opened Groups
  import opened AbsTypes

  /** The relation between the public tables and the master scalars:
      A0 = h0^a0, A_i = h_i^a and B_i = h_i^b for 1 <= i <= tmax, C = g^c. */
  predicate TablesFrom(pp: PubParams, mk: MasterKey)
    requires pp.WellFormed()
  {
    && pp.A[0] == Pow(pp.p, pp.h[0], mk.a0)
    && (forall i :: 1 <= i <= pp.tmax ==> pp.A[i] == Pow(pp.p, pp.h[i], mk.a))
    && (forall i :: 1 <= i <= pp.tmax ==> pp.B[i] == Some(Pow(pp.p, pp.h[i], mk.b)))
    && pp.C == Pow(pp.p, pp.g, mk.c)
  }

  method Setup(p: Prime, tmax: nat, g: int, a0: int, a: int, b: int, c: int, draws: seq<int>)
    returns (pp: PubParams, mk: MasterKey)
    requires |draws| == tmax + 1
    ensures mk == MasterKey(a0, a, b, c)
    ensures pp.p == p && pp.tmax == tmax && pp.g == g && pp.h == draws
    ensures pp.WellFormed() && TablesFrom(pp, mk)
  {
    mk := MasterKey(a0, a, b, c);

    // h_0 .. h_tmax are the draws
    var h := draws;

    // A_0 = h_0^a0, then A_1 .. A_tmax
    var A: seq<int> := [Pow(p, h[0], a0)];
    var i := 1;
    while i < |h|
      invariant 1 <= i <= |h|
      invariant |A| == i && A[0] == Pow(p, h[0], a0)
      invariant forall k :: 1 <= k < i ==> A[k] == Pow(p, h[k], a)
    {
      A := A + [Pow(p, h[i], a)];
      i := i + 1;
    }

    // B_0 is the sentinel, then B_1 .. B_tmax
    var B: seq<Option<int>> := [None];
    i := 1;
    while i < |h|
      invariant 1 <= i <= |h|
      invariant |B| == i && B[0].None?
      invariant forall k :: 1 <= k < i ==> B[k] == Some(Pow(p, h[k], b))
    {
      B := B + [Some(Pow(p, h[i], b))];
      i := i + 1;
    }

    pp := PubParams(p, tmax, g, h, A, B, Pow(p, g, c));
  }

  /** What the tables are for: for every column j >= 1 and hashed attribute
      u ≡ hn, A_j · B_j^u == h_j^(a + b·hn), the exponent a key for hn inverts. */
  lemma AttributeBase(pp: PubParams, mk: MasterKey, j: int, u: int, hn: int)
    requires pp.WellFormed() && TablesFrom(pp, mk)
    requires 1 <= j <= pp.tmax
    requires Cong(pp.p, u, hn)
    ensures Op(pp.p, Pow(pp.p, pp.B[j].value, u), pp.A[j])
         == Pow(pp.p, pp.h[j], Add(pp.p, Mul(pp.p, mk.b, hn), mk.a))
  {
    var p, hj := pp.p, pp.h[j];
    var a, b := mk.a, mk.b;
    MulOf(p, hj, b, hj, b);
    MulOf(p, Mul(p, hj, b), u, hj * b, hn);
    MulOf(p, hj, a, hj, a);
    AddOf(p, Mul(p, Mul(p, hj, b), u), Mul(p, hj, a), hj * b * hn, hj * a);
    MulOf(p, b, hn, b, hn);
    AddOf(p, Mul(p, b, hn), a, b * hn, a);
    MulOf(p, hj, Add(p, Mul(p, b, hn), a), hj, b * hn + a);
    BaseIdentity(hj, b, hn, a);
    CongReduced(p, Add(p, Mul(p, Mul(p, hj, b), u), Mul(p, hj, a)), Mul(p, hj, Add(p, Mul(p, b, hn), a)));
  }

  lemma BaseIdentity(hj: int, b: int, hn: int, a: int)
    ensures hj * b * hn + hj * a == hj * (b * hn + a)
  {
  }
}
