/** `sign`: a signature from a private key and the policy triple (M, u, mu)
    the compiler produced for the message and the key's attributes. The
    scalars r0..rl are parameters. */
module AbsSign {
  import opened Results
  import opened Field
  import opened Groups
  import opened AbsTypes

  /** What Sign reads: a well-formed policy with no more columns than the
      public tables, a key with an attribute key for every row, and one
      scalar r_i for i in 0..l. */
  predicate CanSign(pp: PubParams, key: PrivKey, pol: Policy, r: seq<int>)
  {
    && pp.WellFormed()
    && pol.WellFormed()
    && pol.Cols() <= pp.tmax
    && |key.Ku| >= pol.Rows()
    && |r| == pol.Rows() + 1
  }

  /** The message-bound base C·g^mu shared by every row. */
  function MessageBase(pp: PubParams, pol: Policy): int
  {
    Op(pp.p, Pow(pp.p, pp.g, pol.mu), pp.C)
  }

  /** Row n's factor of P_j: (A_j · B_j^u(n))^(M[n][j]·r_n), rows counted from 1. */
  function ColumnFactor(pp: PubParams, pol: Policy, r: seq<int>, j: int, n: int): int
    requires pp.WellFormed() && pol.WellFormed()
    requires 1 <= j <= pol.Cols() && j <= pp.tmax
    requires 1 <= n <= pol.Rows() && n < |r|
  {
    var p := pp.p;
    Pow(p, Op(p, pp.A[j], Pow(p, pp.B[j].value, pol.u[n - 1])), Mul(p, r[n], pol.M[n - 1][j - 1]))
  }

  /** The product of the first n row factors of P_j, starting from the identity. */
  function ColumnProduct(pp: PubParams, pol: Policy, r: seq<int>, j: int, n: nat): int
    requires pp.WellFormed() && pol.WellFormed()
    requires 1 <= j <= pol.Cols() && j <= pp.tmax
    requires n <= pol.Rows() && n < |r|
  {
    if n == 0 then Identity
    else Op(pp.p, ColumnProduct(pp, pol, r, j, n - 1), ColumnFactor(pp, pol, r, j, n))
  }

  /** The signature Sign produces with scalars r: Y = Kbase^r0, W = K0^r0,
      S_i = Ku[i-1]^r0 · (C·g^mu)^r_i for 1 <= i <= l, P_j the product over all
      l rows for 1 <= j <= t, and no entry at index 0 of S or P. */
  predicate SignedWith(pp: PubParams, key: PrivKey, pol: Policy, r: seq<int>, sig: Signature)
    requires CanSign(pp, key, pol, r)
  {
    var p, l, t := pp.p, pol.Rows(), pol.Cols();
    && sig.Y == Pow(p, key.Kbase, r[0])
    && sig.W == Pow(p, key.K0, r[0])
    && |sig.S| == l + 1 && sig.S[0].None?
    && (forall i :: 1 <= i <= l ==>
          sig.S[i] == Some(Op(p, Pow(p, key.Ku[i - 1], r[0]), Pow(p, MessageBase(pp, pol), r[i]))))
    && |sig.P| == t + 1 && sig.P[0].None?
    && (forall j :: 1 <= j <= t ==> sig.P[j] == Some(ColumnProduct(pp, pol, r, j, l)))
  }

  method Sign(pp: PubParams, key: PrivKey, pol: Policy, r: seq<int>) returns (sig: Signature)
    requires CanSign(pp, key, pol, r)
    ensures SignedWith(pp, key, pol, r, sig)
  {
    var p := pp.p;
    var l := |pol.M|;
    var t := |pol.M[0]|;

    var Y := Pow(p, key.Kbase, r[0]);
    var W := Pow(p, key.K0, r[0]);

    // S_1 .. S_l
    var S: seq<Option<int>> := [None];
    var i := 1;
    while i < l + 1
      invariant 1 <= i <= l + 1
      invariant |S| == i && S[0].None?
      invariant forall k :: 1 <= k < i ==>
        S[k] == Some(Op(p, Pow(p, key.Ku[k - 1], r[0]), Pow(p, MessageBase(pp, pol), r[k])))
    {
      var cgur := Pow(p, pp.g, pol.mu);
      cgur := Op(p, cgur, pp.C);
      cgur := Pow(p, cgur, r[i]);
      var kur := Pow(p, key.Ku[i - 1], r[0]);
      S := S + [Some(Op(p, kur, cgur))];
      i := i + 1;
    }

    // P_1 .. P_t
    var P: seq<Option<int>> := [None];
    var j := 1;
    while j < t + 1
      invariant 1 <= j <= t + 1
      invariant |P| == j && P[0].None?
      invariant forall k :: 1 <= k < j ==> P[k] == Some(ColumnProduct(pp, pol, r, k, l))
    {
      var end := Identity;
      i := 1;
      while i < l + 1
        invariant 1 <= i <= l + 1
        invariant end == ColumnProduct(pp, pol, r, j, i - 1)
      {
        var base := pp.A[j];
        var bjui := Pow(p, pp.B[j].value, pol.u[i - 1]);
        base := Op(p, base, bjui);
        var exp := Mul(p, r[i], pol.M[i - 1][j - 1]);
        base := Pow(p, base, exp);
        end := Op(p, end, base);
        i := i + 1;
      }
      P := P + [Some(end)];
      j := j + 1;
    }

    sig := Signature(Y, W, S, P);
  }
}
