/** `verify`: the three checks, in the order the source runs them, each
    ending verification at its first failure. The policy triple is the one
    the compiler produces for the message and the claimed attribute list. */
module AbsVerify {
  import opened Field
  import opened Groups
  import opened AbsTypes
  import opened AbsSign

  /** How verification ends. `Fault(j)` stands for the exception the source
      raises while checking column j: a column beyond tmax, or an S or P
      entry that is missing or `null`. */
  datatype Verdict =
    | Accept
    | RejectPairing
    | RejectIdentity
    | RejectColumn(j: nat)
    | Fault(j: nat)

  /** First check: e(Y, h0) == e(W, A0). */
  predicate PairingHolds(pp: PubParams, sig: Signature)
    requires pp.WellFormed()
  {
    Pair(pp.p, sig.Y, pp.h[0]) == Pair(pp.p, sig.W, pp.A[0])
  }

  /** The first two checks pass: the pairing equation holds and Y is not the identity. */
  predicate FrontChecks(pp: PubParams, sig: Signature)
    requires pp.WellFormed()
  {
    PairingHolds(pp, sig) && !IsIdentity(pp.p, sig.Y)
  }

  /** S_1 .. S_n are present. */
  predicate RowsPresent(sig: Signature, n: nat)
  {
    n < |sig.S| && forall i :: 1 <= i <= n ==> sig.S[i].Some?
  }

  /** Column j can be checked without an exception. */
  predicate ColumnReady(pp: PubParams, pol: Policy, sig: Signature, j: int)
    requires pol.WellFormed()
  {
    && j <= pp.tmax
    && RowsPresent(sig, pol.Rows())
    && 0 <= j < |sig.P| && sig.P[j].Some?
  }

  /** Row n's factor of lhs_j: e(S_n, (B_j^u(n) · A_j)^M[n][j]). */
  function LhsFactor(pp: PubParams, pol: Policy, sig: Signature, j: int, n: int): int
    requires pp.WellFormed() && pol.WellFormed()
    requires 1 <= j <= pol.Cols() && j <= pp.tmax
    requires 1 <= n <= pol.Rows() && RowsPresent(sig, n)
  {
    var p := pp.p;
    var b := Op(p, Pow(p, pp.B[j].value, pol.u[n - 1]), pp.A[j]);
    Pair(p, sig.S[n].value, Pow(p, b, ZrOf(p, pol.M[n - 1][j - 1])))
  }

  /** lhs_j after the first n rows, starting from the identity of GT. */
  function ColumnLhs(pp: PubParams, pol: Policy, sig: Signature, j: int, n: nat): int
    requires pp.WellFormed() && pol.WellFormed()
    requires 1 <= j <= pol.Cols() && j <= pp.tmax
    requires n <= pol.Rows() && RowsPresent(sig, n)
  {
    if n == 0 then Identity
    else Op(pp.p, ColumnLhs(pp, pol, sig, j, n - 1), LhsFactor(pp, pol, sig, j, n))
  }

  /** rhs_j = e(C·g^mu, P_j), times e(Y, h_1) in column 1 only. */
  function ColumnRhs(pp: PubParams, pol: Policy, sig: Signature, j: int): int
    requires pp.WellFormed() && pol.WellFormed()
    requires 1 <= j <= pol.Cols() && ColumnReady(pp, pol, sig, j)
  {
    var p := pp.p;
    var rhs := Pair(p, MessageBase(pp, pol), sig.P[j].value);
    if j == 1 then Op(p, rhs, Pair(p, sig.Y, pp.h[j])) else rhs
  }

  /** The column check: lhs_j == rhs_j. */
  predicate ColumnHolds(pp: PubParams, pol: Policy, sig: Signature, j: int)
    requires pp.WellFormed() && pol.WellFormed()
    requires 1 <= j <= pol.Cols() && ColumnReady(pp, pol, sig, j)
  {
    ColumnLhs(pp, pol, sig, j, pol.Rows()) == ColumnRhs(pp, pol, sig, j)
  }

  /** Verification gets as far as column j: both front checks passed and
      every earlier column passed. */
  predicate Reaches(pp: PubParams, pol: Policy, sig: Signature, j: int)
    requires pp.WellFormed() && pol.WellFormed()
  {
    && FrontChecks(pp, sig)
    && 1 <= j <= pol.Cols()
    && forall j' :: 1 <= j' < j ==> (ColumnReady(pp, pol, sig, j') && ColumnHolds(pp, pol, sig, j'))
  }

  /** The signature is accepted: both front checks and all t column checks pass. */
  predicate Valid(pp: PubParams, pol: Policy, sig: Signature)
    requires pp.WellFormed() && pol.WellFormed()
  {
    && FrontChecks(pp, sig)
    && forall j :: 1 <= j <= pol.Cols() ==> (ColumnReady(pp, pol, sig, j) && ColumnHolds(pp, pol, sig, j))
  }

  /** Verification stops at the first column that does not pass: no later
      column is reached and the signature is not valid. */
  lemma FirstFailingColumn(pp: PubParams, pol: Policy, sig: Signature, j: int)
    requires pp.WellFormed() && pol.WellFormed()
    requires Reaches(pp, pol, sig, j) && !(ColumnReady(pp, pol, sig, j) && ColumnHolds(pp, pol, sig, j))
    ensures forall j' :: Reaches(pp, pol, sig, j') ==> j' <= j
    ensures !Valid(pp, pol, sig)
  {
  }

  method Verify(pp: PubParams, pol: Policy, sig: Signature) returns (v: Verdict)
    requires pp.WellFormed() && pol.WellFormed()
    ensures v == RejectPairing <==> !PairingHolds(pp, sig)
    ensures v == RejectIdentity <==> PairingHolds(pp, sig) && IsIdentity(pp.p, sig.Y)
    ensures v == Accept <==> Valid(pp, pol, sig)
    ensures forall j: nat :: v == RejectColumn(j) <==>
      Reaches(pp, pol, sig, j) && ColumnReady(pp, pol, sig, j) && !ColumnHolds(pp, pol, sig, j)
    ensures forall j: nat :: v == Fault(j) <==>
      Reaches(pp, pol, sig, j) && !ColumnReady(pp, pol, sig, j)
  {
    var p := pp.p;
    var l := |pol.M|;
    var t := |pol.M[0]|;

    // e(W, A0) != e(Y, h0)
    var eYh0 := Pair(p, sig.Y, pp.h[0]);
    var eWA0 := Pair(p, sig.W, pp.A[0]);
    if eYh0 != eWA0 {
      return RejectPairing;
    }

    // Y is the identity
    if IsIdentity(p, sig.Y) {
      return RejectIdentity;
    }

    // every column j in 1..t
    var j := 1;
    while j < t + 1
      invariant 1 <= j <= t + 1
      invariant forall j' :: 1 <= j' < j ==> (ColumnReady(pp, pol, sig, j') && ColumnHolds(pp, pol, sig, j'))
    {
      assert Reaches(pp, pol, sig, j);
      if j > pp.tmax {
        // A.get(j) and B.get(j) are out of range
        FirstFailingColumn(pp, pol, sig, j);
        return Fault(j);
      }
      if |sig.S| <= l {
        // S_i is missing for some i <= l
        FirstFailingColumn(pp, pol, sig, j);
        return Fault(j);
      }
      var lhs := Identity;
      var i := 1;
      while i < l + 1
        invariant 1 <= i <= l + 1
        invariant RowsPresent(sig, i - 1)
        invariant lhs == ColumnLhs(pp, pol, sig, j, i - 1)
      {
        if sig.S[i].None? {
          // S_i is null
          assert !RowsPresent(sig, l);
          FirstFailingColumn(pp, pol, sig, j);
          return Fault(j);
        }
        var b := Pow(p, pp.B[j].value, pol.u[i - 1]);
        b := Op(p, b, pp.A[j]);
        b := Pow(p, b, ZrOf(p, pol.M[i - 1][j - 1]));
        lhs := Op(p, lhs, Pair(p, sig.S[i].value, b));
        i := i + 1;
      }
      if j >= |sig.P| || sig.P[j].None? {
        // P_j is missing or null
        FirstFailingColumn(pp, pol, sig, j);
        return Fault(j);
      }

      var cgu := Pow(p, pp.g, pol.mu);
      cgu := Op(p, cgu, pp.C);
      var rhs := Pair(p, cgu, sig.P[j].value);
      if j == 1 {
        rhs := Op(p, rhs, Pair(p, sig.Y, pp.h[j]));
      }
      assert rhs == ColumnRhs(pp, pol, sig, j);

      if lhs != rhs {
        FirstFailingColumn(pp, pol, sig, j);
        return RejectColumn(j);
      }
      j := j + 1;
    }
    return Accept;
  }
}
