/** `keygen`: a private key for an ordered list of attributes. The random base
    Kbase is a parameter and the attribute hash H (`MSP.elementFromString`) is
    an uninterpreted deterministic function. */
module AbsKeyGen {
  import opened Results
  import opened Field
  import opened Groups
  import opened AbsTypes

  /** Why key generation aborts: the Zr inversion of a0, or of a + b·H(attr)
      for the attribute at `index`, has no inverse (Java's `invert` throws). */
  datatype KeyGenError = NotInvertibleA0 | NotInvertibleAttr(index: nat)

  /** a + b·u in Zr for the hashed attribute u, in the order the source
      computes it: b·u first, then + a. */
  function AttrExponent(p: Prime, mk: MasterKey, hashed: int): int
  {
    Add(p, Mul(p, mk.b, hashed), mk.a)
  }

  /** The hashed attribute as a Zr element. */
  function Hashed(p: Prime, H: string -> int, attr: string): int
  {
    ZrOf(p, H(attr))
  }

  /** The first n attributes all have an invertible exponent a + b·H(attr). */
  predicate InvertiblePrefix(p: Prime, mk: MasterKey, H: string -> int, attrs: seq<string>, n: int)
    requires n <= |attrs|
  {
    forall k :: 0 <= k < n ==> AttrExponent(p, mk, Hashed(p, H, attrs[k])) != 0
  }

  /** A key for `attrs` built on `kbase`: K0^a0 == Kbase, and for every k,
      Ku[k]^(a + b·H(attrs[k])) == Kbase, with the attributes kept in order. */
  predicate KeyFrom(p: Prime, mk: MasterKey, H: string -> int, attrs: seq<string>, kbase: int, key: PrivKey)
  {
    && key.Kbase == kbase
    && key.attr == attrs
    && |key.Ku| == |attrs|
    && 0 <= key.K0 < p
    && Pow(p, key.K0, mk.a0) == kbase % p
    && forall k :: 0 <= k < |attrs| ==>
         0 <= key.Ku[k] < p && Pow(p, key.Ku[k], AttrExponent(p, mk, Hashed(p, H, attrs[k]))) == kbase % p
  }

  /** Raising kbase to the inverse of e gives the unique reduced x with x^e == kbase. */
  lemma RootOfBase(p: Prime, kbase: int, e: int, inv: int)
    requires Mul(p, e, inv) == 1
    ensures 0 <= Pow(p, kbase, inv) < p
    ensures Pow(p, Pow(p, kbase, inv), e) == kbase % p
  {
    CongReduce(p, kbase * inv);
    CongMul(p, (kbase * inv) % p, e, kbase * inv, e);
    assert kbase * inv * e == kbase * (e * inv);
    CongReduce(p, e * inv);
    CongMul(p, kbase, e * inv, kbase, 1);
  }

  /** The attribute keys Ku[k] = Kbase^(1/(a + b·H(attrs[k]))) in order, or the
      index of the first attribute whose exponent has no inverse. */
  method AttributeKeys(p: Prime, mk: MasterKey, H: string -> int, attrs: seq<string>, kbase: int)
    returns (r: Result<seq<int>, nat>)
    ensures r.Success? <==> InvertiblePrefix(p, mk, H, attrs, |attrs|)
    ensures r.Success? ==> |r.value| == |attrs| && forall k :: 0 <= k < |attrs| ==>
      0 <= r.value[k] < p && Pow(p, r.value[k], AttrExponent(p, mk, Hashed(p, H, attrs[k]))) == kbase % p
    ensures r.Failure? ==>
      && r.error < |attrs|
      && AttrExponent(p, mk, Hashed(p, H, attrs[r.error])) == 0
      && InvertiblePrefix(p, mk, H, attrs, r.error)
  {
    var ku: seq<int> := [];
    var k := 0;
    while k < |attrs|
      invariant 0 <= k <= |attrs|
      invariant |ku| == k
      invariant InvertiblePrefix(p, mk, H, attrs, k)
      invariant forall k' :: 0 <= k' < k ==>
        0 <= ku[k'] < p && Pow(p, ku[k'], AttrExponent(p, mk, Hashed(p, H, attrs[k']))) == kbase % p
    {
      var e := AttrExponent(p, mk, Hashed(p, H, attrs[k]));
      var inv := Inverse(p, e);
      if inv.None? {
        return Failure(k);
      }
      RootOfBase(p, kbase, e, inv.value);
      ku := ku + [Pow(p, kbase, inv.value)];
      k := k + 1;
    }
    return Success(ku);
  }

  method KeyGen(pp: PubParams, mk: MasterKey, H: string -> int, attrs: seq<string>, kbase: int)
    returns (r: Result<PrivKey, KeyGenError>)
    ensures r.Success? <==> mk.a0 % pp.p != 0 && InvertiblePrefix(pp.p, mk, H, attrs, |attrs|)
    ensures r.Success? ==> KeyFrom(pp.p, mk, H, attrs, kbase, r.value)
    ensures r == Failure(NotInvertibleA0) <==> mk.a0 % pp.p == 0
    ensures r.Failure? && r.error.NotInvertibleAttr? ==>
      var k := r.error.index;
      && mk.a0 % pp.p != 0
      && k < |attrs|
      && AttrExponent(pp.p, mk, Hashed(pp.p, H, attrs[k])) == 0
      && InvertiblePrefix(pp.p, mk, H, attrs, k)
  {
    var p := pp.p;

    // K0 = Kbase^(1/a0)
    var invA0 := Inverse(p, mk.a0);
    if invA0.None? {
      return Failure(NotInvertibleA0);
    }
    RootOfBase(p, kbase, mk.a0, invA0.value);
    var k0 := Pow(p, kbase, invA0.value);

    // Ku for each attribute, in order; the attribute list is kept as given
    var ku := AttributeKeys(p, mk, H, attrs, kbase);
    if ku.Failure? {
      return Failure(NotInvertibleAttr(ku.error));
    }
    return Success(PrivKey(kbase, k0, ku.value, attrs));
  }
}
