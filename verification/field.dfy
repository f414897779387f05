/** The scalar field Z_p of a prime-order pairing group, with p prime.
    Every group element of the model is written as its exponent in Z_p, so this
    module carries all of the arithmetic the scheme relies on: reduction,
    addition, multiplication, congruence and the inverse used by JPBC's
    `invert` on Zr elements. */
module Field {
  import opened Results

  /** d is a positive divisor of n. */
  predicate Divides(d: int, n: int)
  {
    d > 0 && n % d == 0
  }

  /** The order of the groups G1, G2, GT and of the field Zr: a prime. */
  type Prime = n: int | n > 1 && forall d :: 1 < d < n ==> !Divides(d, n) witness 2

  /** Field addition, result reduced into [0, p). */
  function Add(p: Prime, x: int, y: int): int
  {
    (x + y) % p
  }

  /** Field multiplication, result reduced into [0, p). */
  function Mul(p: Prime, x: int, y: int): int
  {
    (x * y) % p
  }

  /** x and y stand for the same element of Z_p. */
  predicate Cong(p: Prime, x: int, y: int)
  {
    x % p == y % p
  }

  // ---------------------------------------------------------------------------
  // Euclidean division facts
  // ---------------------------------------------------------------------------

  lemma MulBounds(k: int, p: int)
    requires p > 0
    ensures k >= 1 ==> k * p >= p
    ensures k <= 0 ==> k * p <= 0
    ensures k <= -1 ==> k * p <= -p
  {
    if k >= 1 {
      assert k * p == (k - 1) * p + p;
      assert (k - 1) * p >= 0;
    } else {
      assert k * p == -((-k) * p);
      if k <= -1 {
        assert (-k) * p == (-k - 1) * p + p;
        assert (-k - 1) * p >= 0;
      } else {
        assert k == 0;
      }
    }
  }

  /** Distributivity, stated once so that the nonlinear steps stay small. */
  lemma Distribute(a: int, b: int, c: int)
    ensures (a + b) * c == a * c + b * c
  {
  }

  /** The remainder of Euclidean division is unique. */
  lemma ModUnique(p: int, a: int, q: int, r: int)
    requires p > 0 && a == q * p + r && 0 <= r < p
    ensures a % p == r
  {
    var q', r' := a / p, a % p;
    assert a == q' * p + r';
    assert (q - q') * p == r' - r;
    MulBounds(q - q', p);
  }

  /** Adding a multiple of p does not change the residue. */
  lemma ModShift(p: int, a: int, k: int)
    requires p > 0
    ensures (a + k * p) % p == a % p
  {
    assert a == (a / p) * p + a % p;
    assert a + k * p == (a / p + k) * p + a % p;
    ModUnique(p, a + k * p, a / p + k, a % p);
  }

  lemma CongReduce(p: Prime, x: int)
    ensures Cong(p, x % p, x)
  {
    ModUnique(p, x % p, 0, x % p);
  }

  /** A reduced value is its own residue. */
  lemma Reduced(p: Prime, x: int)
    requires 0 <= x < p
    ensures x % p == x
  {
    ModUnique(p, x, 0, x);
  }

  /** Two reduced values that are congruent are equal. */
  lemma CongReduced(p: Prime, x: int, y: int)
    requires 0 <= x < p && 0 <= y < p && Cong(p, x, y)
    ensures x == y
  {
    ModUnique(p, x, 0, x);
    ModUnique(p, y, 0, y);
  }

  lemma CongAdd(p: Prime, x: int, y: int, x': int, y': int)
    requires Cong(p, x, x') && Cong(p, y, y')
    ensures Cong(p, x + y, x' + y')
  {
    var kx := x / p - x' / p;
    var ky := y / p - y' / p;
    assert x == x' + kx * p;
    assert y == y' + ky * p;
    assert x + y == (x' + y') + (kx + ky) * p;
    ModShift(p, x' + y', kx + ky);
  }

  lemma CongMulLeft(p: Prime, x: int, x': int, y: int)
    requires Cong(p, x, x')
    ensures Cong(p, x * y, x' * y)
  {
    var k := x / p - x' / p;
    assert x == x' + k * p;
    Distribute(x', k * p, y);
    assert (k * p) * y == (k * y) * p;
    assert x * y == x' * y + (k * y) * p;
    ModShift(p, x' * y, k * y);
  }

  lemma CongMul(p: Prime, x: int, y: int, x': int, y': int)
    requires Cong(p, x, x') && Cong(p, y, y')
    ensures Cong(p, x * y, x' * y')
  {
    CongMulLeft(p, x, x', y);
    CongMulLeft(p, y, y', x');
    assert y * x' == x' * y && y' * x' == x' * y';
  }

  /** Mul(p, x, y) is the residue of x' * y' for any x' ≡ x and y' ≡ y. */
  lemma MulOf(p: Prime, x: int, y: int, x': int, y': int)
    requires Cong(p, x, x') && Cong(p, y, y')
    ensures Cong(p, Mul(p, x, y), x' * y')
  {
    CongMul(p, x, y, x', y');
    CongReduce(p, x * y);
  }

  /** Add(p, x, y) is the residue of x' + y' for any x' ≡ x and y' ≡ y. */
  lemma AddOf(p: Prime, x: int, y: int, x': int, y': int)
    requires Cong(p, x, x') && Cong(p, y, y')
    ensures Cong(p, Add(p, x, y), x' + y')
  {
    CongAdd(p, x, y, x', y');
    CongReduce(p, x + y);
  }

  // ---------------------------------------------------------------------------
  // Divisibility and the extended Euclidean algorithm
  // ---------------------------------------------------------------------------

  lemma DividesCombination(d: int, x: int, y: int, q: int)
    requires Divides(d, x) && Divides(d, y)
    ensures Divides(d, q * x + y)
  {
    var kx, ky := x / d, y / d;
    assert x == kx * d;
    assert y == ky * d;
    assert q * x + y == 0 + (q * kx + ky) * d;
    ModShift(d, 0, q * kx + ky);
  }

  lemma DividesAtMost(d: int, n: int)
    requires Divides(d, n) && n > 0
    ensures d <= n
  {
    var k := n / d;
    assert n == k * d;
    MulBounds(k, d);
  }

  /** Bezout coefficients: (g, s, t) with g == a*s + b*t, and g is a common
      divisor of a and b whenever one of them is non-zero. */
  function Egcd(a: nat, b: nat): (r: (nat, int, int))
    ensures r.0 == a * r.1 + b * r.2
    ensures a > 0 || b > 0 ==> Divides(r.0, a) && Divides(r.0, b)
    decreases b
  {
    if b == 0 then
      (a, 1, 0)
    else
      var rec := Egcd(b, a % b);
      var q := a / b;
      BezoutStep(a, b, q, rec.0, rec.1, rec.2);
      (rec.0, rec.2, rec.1 - q * rec.2)
  }

  lemma BezoutStep(a: nat, b: nat, q: int, g: nat, s: int, t: int)
    requires b > 0 && q == a / b
    requires g == b * s + (a % b) * t
    requires Divides(g, b) && Divides(g, a % b)
    ensures g == a * t + b * (s - q * t)
    ensures Divides(g, a) && Divides(g, b)
  {
    assert a == q * b + a % b;
    calc {
      a * t + b * (s - q * t);
      (q * b + a % b) * t + b * s - b * q * t;
      b * s + (a % b) * t;
    }
    DividesCombination(g, b, a % b, q);
  }

  /** The common divisor Egcd finds for 0 < x < p, p prime, is 1. */
  lemma EgcdCoprime(p: Prime, x: int)
    requires 0 < x < p
    ensures Egcd(x, p).0 == 1
  {
    var g := Egcd(x, p).0;
    DividesAtMost(g, x);
  }

  /** The multiplicative inverse in Z_p (JPBC `invert` on a Zr element, which
      throws when the element is zero). */
  function Inverse(p: Prime, x: int): (r: Option<int>)
    ensures r.Some? <==> x % p != 0
    ensures r.Some? ==> 0 <= r.value < p && Mul(p, x, r.value) == 1
  {
    var x' := x % p;
    if x' == 0 then None
    else
      var s := Egcd(x', p).1;
      InverseCorrect(p, x, s);
      Some(s % p)
  }

  lemma InverseCorrect(p: Prime, x: int, s: int)
    requires x % p != 0 && s == Egcd(x % p, p).1
    ensures Mul(p, x, s % p) == 1
  {
    var x' := x % p;
    EgcdCoprime(p, x');
    var t := Egcd(x', p).2;
    assert x' * s + p * t == 1;
    ModShift(p, x' * s, t);
    ModUnique(p, 1, 0, 1);
    assert Cong(p, x' * s, 1);
    CongReduce(p, x);
    CongReduce(p, s);
    CongMul(p, x, s % p, x', s);
  }

  /** Z_p has no zero divisors. */
  lemma NoZeroDivisors(p: Prime, x: int, y: int)
    ensures Mul(p, x, y) == 0 <==> x % p == 0 || y % p == 0
  {
    if x % p == 0 {
      CongMul(p, x, y, 0, y);
    } else if y % p == 0 {
      CongMul(p, x, y, x, 0);
    } else if Mul(p, x, y) == 0 {
      var v := Inverse(p, x).value;
      // y == (x * v) * y == (x * y) * v == 0 in Z_p
      CongReduce(p, x * v);
      CongMul(p, (x * v) % p, y, x * v, y);
      CongMul(p, 1, y, (x * v) % p, y);
      assert (x * v) * y == (x * y) * v;
      CongReduce(p, x * y);
      CongMul(p, x * y, v, 0, v);
      assert false;
    }
  }
}
