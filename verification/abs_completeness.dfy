/** What an honest run of setup, keygen and sign promises to verify: the
    first check always passes, Y is the identity only for a zero key base or
    r0, and column j passes exactly when the j-th column of M sums to 1
    (j = 1) or to 0 (j > 1) in Z_p. */
module AbsCompleteness {
  import opened Field
  import opened Groups
  import opened AbsTypes
  import opened AbsSetup
  import opened AbsKeyGen
  import opened AbsSign
  import opened AbsVerify

  /** sig was produced by Sign from a key KeyGen issued under the master key
      behind pp, and the policy's hashed attributes are those of the key, in
      the key's order. */
  predicate Honest(pp: PubParams, mk: MasterKey, H: string -> int, key: PrivKey, pol: Policy, r: seq<int>, sig: Signature)
  {
    && pp.WellFormed() && TablesFrom(pp, mk)
    && KeyFrom(pp.p, mk, H, key.attr, key.Kbase, key)
    && CanSign(pp, key, pol, r)
    && SignedWith(pp, key, pol, r, sig)
    && forall i :: 0 <= i < pol.Rows() ==> Cong(pp.p, pol.u[i], H(key.attr[i]))
  }

  /** Σ_{i < n} M[i][j-1], the sum of the first n entries of column j. */
  function ColumnSum(pol: Policy, j: int, n: nat): int
    requires pol.WellFormed() && 1 <= j <= pol.Cols() && n <= pol.Rows()
  {
    if n == 0 then 0 else ColumnSum(pol, j, n - 1) + pol.M[n - 1][j - 1]
  }

  /** Z_p algebra of the first check: if k0^a0 == kb then
      e(kb^r0, h0) == e(k0^r0, h0^a0). */
  lemma PairingAlgebra(p: Prime, kb: int, k0: int, a0: int, r0: int, h0: int)
    requires Mul(p, k0, a0) == kb % p
    ensures Mul(p, Mul(p, kb, r0), h0) == Mul(p, Mul(p, k0, r0), Mul(p, h0, a0))
  {
    // e(Y, h0) ≡ kb·r0·h0
    MulOf(p, kb, r0, kb, r0);
    MulOf(p, Mul(p, kb, r0), h0, kb * r0, h0);
    // e(W, A0) ≡ (k0·a0)·(r0·h0) ≡ kb·r0·h0
    MulOf(p, k0, r0, k0, r0);
    MulOf(p, h0, a0, h0, a0);
    MulOf(p, Mul(p, k0, r0), Mul(p, h0, a0), k0 * r0, h0 * a0);
    PairingIdentity(kb, k0, a0, r0, h0);
    MulOf(p, k0, a0, k0, a0);
    CongMul(p, k0 * a0, r0 * h0, kb, r0 * h0);
    CongReduced(p, Mul(p, Mul(p, kb, r0), h0), Mul(p, Mul(p, k0, r0), Mul(p, h0, a0)));
  }

  // Ring identities over the integers, kept apart from the residue facts so
  // that each is solved on its own.

  lemma KeyIdentity(ku: int, hj: int, e: int)
    ensures ku * (hj * e) == (ku * e) * hj
  {
  }

  lemma PairingIdentity(kb: int, k0: int, a0: int, r0: int, h0: int)
    ensures k0 * r0 * (h0 * a0) == (k0 * a0) * (r0 * h0)
    ensures kb * (r0 * h0) == kb * r0 * h0
  {
  }

  lemma RowIdentity(kb: int, ku: int, r0: int, G: int, rn: int, d: int, hj: int, m: int)
    ensures (ku * r0 + G * rn) * (d * m) == (ku * d) * (r0 * m) + G * (d * (rn * m))
    ensures (kb * hj) * (r0 * m) == kb * r0 * hj * m
  {
  }

  /** An attribute key cancels its base: Ku · h_j^e ≡ kb · h_j when Ku^e == kb. */
  lemma KeyCancels(p: Prime, ku: int, e: int, kb: int, hj: int)
    requires Mul(p, ku, e) == kb % p
    ensures Cong(p, ku * Mul(p, hj, e), kb * hj)
  {
    CongReduce(p, hj * e);
    CongMul(p, ku, Mul(p, hj, e), ku, hj * e);
    KeyIdentity(ku, hj, e);
    CongMul(p, ku * e, hj, kb, hj);
  }

  /** Row n of column j, in Z_p: with D = B_j^u · A_j == h_j^e and Ku^e == kb,
      e(Ku^r0 · G^rn, D^m) == e(kb^r0, h_j)^m · e(G, (A_j · B_j^u)^(rn·m)). */
  lemma RowAlgebra(p: Prime, kb: int, r0: int, rn: int, ku: int, hj: int, e: int, G: int, m: int, d: int, d': int)
    requires Mul(p, ku, e) == kb % p
    requires d == Mul(p, hj, e) && d' == d
    ensures Mul(p, Add(p, Mul(p, ku, r0), Mul(p, G, rn)), Mul(p, d, m % p))
         == Add(p, Mul(p, Mul(p, Mul(p, kb, r0), hj), m), Mul(p, G, Mul(p, d', Mul(p, rn, m))))
  {
    var S := Add(p, Mul(p, ku, r0), Mul(p, G, rn));
    // left side ≡ (ku·r0 + G·rn)·(d·m)
    MulOf(p, ku, r0, ku, r0);
    MulOf(p, G, rn, G, rn);
    AddOf(p, Mul(p, ku, r0), Mul(p, G, rn), ku * r0, G * rn);
    CongReduce(p, m);
    MulOf(p, d, m % p, d, m);
    MulOf(p, S, Mul(p, d, m % p), ku * r0 + G * rn, d * m);
    RowIdentity(kb, ku, r0, G, rn, d, hj, m);
    // ku·d ≡ kb·hj
    KeyCancels(p, ku, e, kb, hj);
    CongMul(p, ku * d, r0 * m, kb * hj, r0 * m);
    CongAdd(p, (ku * d) * (r0 * m), G * (d * (rn * m)), (kb * hj) * (r0 * m), G * (d * (rn * m)));
    // right side ≡ kb·r0·hj·m + G·(d·(rn·m))
    MulOf(p, kb, r0, kb, r0);
    MulOf(p, Mul(p, kb, r0), hj, kb * r0, hj);
    MulOf(p, Mul(p, Mul(p, kb, r0), hj), m, kb * r0 * hj, m);
    MulOf(p, rn, m, rn, m);
    MulOf(p, d', Mul(p, rn, m), d, rn * m);
    MulOf(p, G, Mul(p, d', Mul(p, rn, m)), G, d * (rn * m));
    AddOf(p, Mul(p, Mul(p, Mul(p, kb, r0), hj), m), Mul(p, G, Mul(p, d', Mul(p, rn, m))),
          kb * r0 * hj * m, G * (d * (rn * m)));
    CongReduced(p, Mul(p, S, Mul(p, d, m % p)),
                Add(p, Mul(p, Mul(p, Mul(p, kb, r0), hj), m), Mul(p, G, Mul(p, d', Mul(p, rn, m)))));
  }

  /** The first check passes for every honest signature: e(Y, h0) == e(W, A0). */
  lemma HonestPairingCheck(pp: PubParams, mk: MasterKey, H: string -> int, key: PrivKey, pol: Policy, r: seq<int>, sig: Signature)
    requires Honest(pp, mk, H, key, pol, r, sig)
    ensures PairingHolds(pp, sig)
  {
    PairingAlgebra(pp.p, key.Kbase, key.K0, mk.a0, r[0], pp.h[0]);
  }

  /** The second check rejects an honest signature exactly when the key base
      or r0 is zero in Z_p. */
  lemma HonestIdentity(pp: PubParams, mk: MasterKey, H: string -> int, key: PrivKey, pol: Policy, r: seq<int>, sig: Signature)
    requires Honest(pp, mk, H, key, pol, r, sig)
    ensures IsIdentity(pp.p, sig.Y) <==> key.Kbase % pp.p == 0 || r[0] % pp.p == 0
  {
    NoZeroDivisors(pp.p, key.Kbase, r[0]);
    CongReduce(pp.p, key.Kbase * r[0]);
  }

  lemma SumIdentity(E: int, G: int, cs: int, m: int, cp: int, cf: int)
    ensures E * cs + G * cp + (E * m + G * cf) == E * (cs + m) + G * (cp + cf)
  {
  }

  /** One more row folded into lhs_j keeps its closed form. */
  lemma SumAlgebra(p: Prime, E: int, G: int, cs: int, m: int, cp: int, cf: int)
    ensures Add(p, Add(p, Mul(p, E, cs), Mul(p, G, cp)), Add(p, Mul(p, E, m), Mul(p, G, cf)))
         == Add(p, Mul(p, E, cs + m), Mul(p, G, Add(p, cp, cf)))
  {
    MulOf(p, E, cs, E, cs);
    MulOf(p, G, cp, G, cp);
    AddOf(p, Mul(p, E, cs), Mul(p, G, cp), E * cs, G * cp);
    MulOf(p, E, m, E, m);
    MulOf(p, G, cf, G, cf);
    AddOf(p, Mul(p, E, m), Mul(p, G, cf), E * m, G * cf);
    AddOf(p, Add(p, Mul(p, E, cs), Mul(p, G, cp)), Add(p, Mul(p, E, m), Mul(p, G, cf)),
          E * cs + G * cp, E * m + G * cf);
    MulOf(p, E, cs + m, E, cs + m);
    AddOf(p, cp, cf, cp, cf);
    MulOf(p, G, Add(p, cp, cf), G, cp + cf);
    AddOf(p, Mul(p, E, cs + m), Mul(p, G, Add(p, cp, cf)), E * (cs + m), G * (cp + cf));
    SumIdentity(E, G, cs, m, cp, cf);
    CongReduced(p, Add(p, Add(p, Mul(p, E, cs), Mul(p, G, cp)), Add(p, Mul(p, E, m), Mul(p, G, cf))),
                Add(p, Mul(p, E, cs + m), Mul(p, G, Add(p, cp, cf))));
  }

  /** Congruence is equality of differences with zero. */
  lemma CongDiff(p: Prime, x: int, y: int)
    ensures Cong(p, x, y) <==> Cong(p, x - y, 0)
  {
    if Cong(p, x, y) {
      CongAdd(p, x, -y, y, -y);
    }
    if Cong(p, x - y, 0) {
      CongAdd(p, x - y, y, 0, y);
    }
  }

  /** lhs == rhs of a column, with the lhs in closed form, exactly when the
      e(Y, h_j) factor to the column sum minus delta vanishes. */
  lemma CancelAlgebra(p: Prime, E: int, X: int, cs: int, delta: int)
    ensures Add(p, Mul(p, E, cs), X) == Add(p, X, Mul(p, E, delta)) <==> Mul(p, E, cs - delta) == 0
  {
    MulOf(p, E, cs, E, cs);
    MulOf(p, E, delta, E, delta);
    CongAdd(p, Mul(p, E, cs), X, E * cs, X);
    CongAdd(p, X, Mul(p, E, delta), X, E * delta);
    CongDiff(p, E * cs + X, X + E * delta);
    assert E * cs + X - (X + E * delta) == E * (cs - delta);
  }

  /** Row n's factor of lhs_j for an honest signature:
      e(S_n, (B_j^u · A_j)^M[n][j]) == e(Y, h_j)^M[n][j] · e(C·g^mu, n-th factor of P_j). */
  lemma HonestRow(pp: PubParams, mk: MasterKey, H: string -> int, key: PrivKey, pol: Policy, r: seq<int>, sig: Signature, j: int, n: int)
    requires Honest(pp, mk, H, key, pol, r, sig)
    requires 1 <= j <= pol.Cols() && 1 <= n <= pol.Rows()
    ensures LhsFactor(pp, pol, sig, j, n)
         == Add(pp.p, Mul(pp.p, Pair(pp.p, sig.Y, pp.h[j]), pol.M[n - 1][j - 1]),
                Pair(pp.p, MessageBase(pp, pol), ColumnFactor(pp, pol, r, j, n)))
  {
    var p, hj, u, attr := pp.p, pp.h[j], pol.u[n - 1], key.attr[n - 1];
    var e := AttrExponent(p, mk, Hashed(p, H, attr));
    CongReduce(p, H(attr));
    AttributeBase(pp, mk, j, u, Hashed(p, H, attr));
    var d := Op(p, Pow(p, pp.B[j].value, u), pp.A[j]);
    assert d == Mul(p, hj, e);
    RowAlgebra(p, key.Kbase, r[0], r[n], key.Ku[n - 1], hj, e, MessageBase(pp, pol), pol.M[n - 1][j - 1],
               d, Op(p, pp.A[j], Pow(p, pp.B[j].value, u)));
  }

  /** Row k's factor of lhs_j is E^M[k][j] · e(C·g^mu, k-th factor of P_j)
      for every row k in 1..n. */
  predicate RowsSplit(pp: PubParams, pol: Policy, r: seq<int>, sig: Signature, j: int, n: nat, E: int)
    requires pp.WellFormed() && pol.WellFormed()
    requires 1 <= j <= pol.Cols() && j <= pp.tmax
    requires n <= pol.Rows() && n < |r| && RowsPresent(sig, n)
  {
    forall k :: 1 <= k <= n ==>
      LhsFactor(pp, pol, sig, j, k)
        == Add(pp.p, Mul(pp.p, E, pol.M[k - 1][j - 1]), Pair(pp.p, MessageBase(pp, pol), ColumnFactor(pp, pol, r, j, k)))
  }

  /** Closed form of lhs_j after n rows once every row factor splits:
      E^(Σ_{i<n} M[i][j]) · e(C·g^mu, product of the first n factors of P_j). */
  lemma {:induction false} HonestLhs(pp: PubParams, pol: Policy, r: seq<int>, sig: Signature, j: int, n: nat, E: int)
    requires pp.WellFormed() && pol.WellFormed()
    requires 1 <= j <= pol.Cols() && j <= pp.tmax
    requires n <= pol.Rows() && n < |r| && RowsPresent(sig, n)
    requires RowsSplit(pp, pol, r, sig, j, n, E)
    ensures ColumnLhs(pp, pol, sig, j, n)
         == Add(pp.p, Mul(pp.p, E, ColumnSum(pol, j, n)), Pair(pp.p, MessageBase(pp, pol), ColumnProduct(pp, pol, r, j, n)))
  {
    if n > 0 {
      HonestLhs(pp, pol, r, sig, j, n - 1, E);
      SumAlgebra(pp.p, E, MessageBase(pp, pol), ColumnSum(pol, j, n - 1),
                 pol.M[n - 1][j - 1], ColumnProduct(pp, pol, r, j, n - 1), ColumnFactor(pp, pol, r, j, n));
    } else {
      Reduced(pp.p, 0);
    }
  }

  /** A column equation in closed form: e(Y, h_j)^cs · X == X · e(Y, h_j)^delta
      holds exactly when Y or h_j is zero or cs == delta in Z_p. */
  lemma ColumnAlgebra(p: Prime, y: int, hj: int, X: int, cs: int, delta: int)
    requires delta == 0 || delta == 1
    ensures Add(p, Mul(p, Mul(p, y, hj), cs), X) == Add(p, X, Mul(p, Mul(p, y, hj), delta))
        <==> y % p == 0 || hj % p == 0 || cs % p == delta
  {
    var E := Mul(p, y, hj);
    CancelAlgebra(p, E, X, cs, delta);
    NoZeroDivisors(p, E, cs - delta);
    NoZeroDivisors(p, y, hj);
    Reduced(p, E);
    CongDiff(p, cs, delta);
    Reduced(p, delta);
  }

  /** rhs_j in closed form: X · e(Y, h_j)^delta with delta 1 in column 1 and 0 elsewhere. */
  lemma FoldedFactor(p: Prime, X: int, E: int)
    requires 0 <= X < p && 0 <= E < p
    ensures Add(p, X, Mul(p, E, 1)) == Add(p, X, E)
    ensures Add(p, X, Mul(p, E, 0)) == X
  {
    assert E * 1 == E && E * 0 == 0;
    Reduced(p, 0);
    assert X + 0 == X;
    Reduced(p, E);
    Reduced(p, X);
  }

  /** Column j of an honest signature is checkable, and it passes exactly when
      Y or h_j is the identity or Σ_i M[i][j] is 1 (j = 1) or 0 (j > 1) in Z_p. */
  lemma HonestColumn(pp: PubParams, mk: MasterKey, H: string -> int, key: PrivKey, pol: Policy, r: seq<int>, sig: Signature, j: int)
    requires Honest(pp, mk, H, key, pol, r, sig)
    requires 1 <= j <= pol.Cols()
    ensures ColumnReady(pp, pol, sig, j)
    ensures ColumnHolds(pp, pol, sig, j) <==>
      || IsIdentity(pp.p, sig.Y)
      || pp.h[j] % pp.p == 0
      || ColumnSum(pol, j, pol.Rows()) % pp.p == (if j == 1 then 1 else 0)
  {
    var p, l := pp.p, pol.Rows();
    var E := Pair(p, sig.Y, pp.h[j]);
    var X := Pair(p, MessageBase(pp, pol), ColumnProduct(pp, pol, r, j, l));
    var delta := if j == 1 then 1 else 0;
    forall k | 1 <= k <= l
      ensures LhsFactor(pp, pol, sig, j, k)
           == Add(p, Mul(p, E, pol.M[k - 1][j - 1]), Pair(p, MessageBase(pp, pol), ColumnFactor(pp, pol, r, j, k)))
    {
      HonestRow(pp, mk, H, key, pol, r, sig, j, k);
    }
    HonestLhs(pp, pol, r, sig, j, l, E);
    assert sig.P[j].value == ColumnProduct(pp, pol, r, j, l);
    FoldedFactor(p, X, E);
    ColumnAlgebra(p, sig.Y, pp.h[j], X, ColumnSum(pol, j, l), delta);
  }

  /** Column j of M sums to 1 (j = 1) or to 0 (j > 1) in Z_p. */
  predicate ColumnSumMatches(p: Prime, pol: Policy, j: int)
    requires pol.WellFormed() && 1 <= j <= pol.Cols()
  {
    ColumnSum(pol, j, pol.Rows()) % p == (if j == 1 then 1 else 0)
  }

  /** The columns of M sum to (1, 0, ..., 0) in Z_p. */
  predicate ColumnSumsMatch(p: Prime, pol: Policy)
    requires pol.WellFormed()
  {
    forall j :: 1 <= j <= pol.Cols() ==> ColumnSumMatches(p, pol, j)
  }

  /** Completeness: with a non-zero key base and r0, an honest signature is
      accepted whenever column 1 of M sums to 1 and every other column to 0. */
  lemma Completeness(pp: PubParams, mk: MasterKey, H: string -> int, key: PrivKey, pol: Policy, r: seq<int>, sig: Signature)
    requires Honest(pp, mk, H, key, pol, r, sig)
    requires key.Kbase % pp.p != 0 && r[0] % pp.p != 0
    requires ColumnSumsMatch(pp.p, pol)
    ensures Valid(pp, pol, sig)
  {
    HonestPairingCheck(pp, mk, H, key, pol, r, sig);
    HonestIdentity(pp, mk, H, key, pol, r, sig);
    forall j | 1 <= j <= pol.Cols()
      ensures ColumnReady(pp, pol, sig, j) && ColumnHolds(pp, pol, sig, j)
    {
      assert ColumnSumMatches(pp.p, pol, j);
      HonestColumn(pp, mk, H, key, pol, r, sig, j);
    }
  }

  /** For a non-zero key base and r0 and tables with no identity h_j, an honest
      signature is accepted exactly when the columns of M sum to (1, 0, ..., 0). */
  lemma HonestAcceptance(pp: PubParams, mk: MasterKey, H: string -> int, key: PrivKey, pol: Policy, r: seq<int>, sig: Signature)
    requires Honest(pp, mk, H, key, pol, r, sig)
    requires key.Kbase % pp.p != 0 && r[0] % pp.p != 0
    requires forall j :: 1 <= j <= pol.Cols() ==> pp.h[j] % pp.p != 0
    ensures Valid(pp, pol, sig) <==> ColumnSumsMatch(pp.p, pol)
  {
    if ColumnSumsMatch(pp.p, pol) {
      Completeness(pp, mk, H, key, pol, r, sig);
    }
    if Valid(pp, pol, sig) {
      HonestIdentity(pp, mk, H, key, pol, r, sig);
      forall j | 1 <= j <= pol.Cols()
        ensures ColumnSumMatches(pp.p, pol, j)
      {
        HonestColumn(pp, mk, H, key, pol, r, sig, j);
      }
    }
  }
}
