/**
 * The scalar field of secp256k1: integers modulo the group order N
 * (SEC 2 version 2, section 2.4.1).  Scalars can be zero; the library's
 * `NonZero` marker becomes the subset type `NonZeroScalar`.
 */
module ScalarField {
  import opened Runtime

  /** The order of the secp256k1 base point. */
  const N: int := 0xFFFF_FFFF_FFFF_FFFF_FFFF_FFFF_FFFF_FFFE_BAAE_DCE6_AF48_A03B_BFD2_5E8C_D036_4141

  type Scalar = x: int | 0 <= x < N

  type NonZeroScalar = x: int | 0 < x < N witness 1

  /** Scalar multiplication, the library's `s!(a * b)`. */
  function Mul(a: Scalar, b: Scalar): Scalar
  {
    (a * b) % N
  }

  predicate Divides(d: int, n: int)
  {
    d != 0 && n % d == 0
  }

  ghost predicate IsPrime(p: int)
  {
    p > 1 && forall d :: 1 < d < p ==> !Divides(d, p)
  }

  /** N is prime.  Dafny cannot compute a primality certificate for a
      256-bit number, so every result below that depends on it takes this
      predicate as a hypothesis. */
  ghost predicate OrderIsPrime()
  {
    IsPrime(N)
  }

  lemma ModAddMultiple(x: int, k: int)
    ensures (x + k * N) % N == x % N
  {
  }

  /** Below 2N, reducing modulo N subtracts N at most once. */
  lemma ReduceOnce(x: int)
    requires 0 <= x < 2 * N
    ensures x % N == if x < N then x else x - N
  {
    if x >= N {
      ModAddMultiple(x - N, 1);
    }
  }

  /** Reducing a factor before multiplying does not change the product mod N. */
  lemma MulModRight(x: int, y: int)
    ensures (x * (y % N)) % N == (x * y) % N
  {
    var q, r := y / N, y % N;
    assert y == q * N + r;
    assert x * y == (x * q) * N + x * r by {
      assert x * (q * N + r) == x * (q * N) + x * r;
    }
    ModAddMultiple(x * r, x * q);
  }

  lemma MulModLeft(x: int, y: int)
    ensures ((x % N) * y) % N == (x * y) % N
  {
    MulModRight(y, x);
    assert (x % N) * y == y * (x % N);
  }

  lemma MulProduct3(a: Scalar, b: Scalar, c: Scalar)
    ensures Mul(Mul(a, b), c) == Mul(a, Mul(b, c)) == (a * b * c) % N
  {
    MulModLeft(a * b, c);
    MulModRight(a, b * c);
    assert (a * b) * c == a * (b * c);
  }

  lemma MulAssociative(a: Scalar, b: Scalar, c: Scalar)
    ensures Mul(Mul(a, b), c) == Mul(a, Mul(b, c))
  {
    MulProduct3(a, b, c);
  }

  lemma MulCommutative(a: Scalar, b: Scalar)
    ensures Mul(a, b) == Mul(b, a)
  {
    assert a * b == b * a;
  }

  /** A number strictly between 1 and a prime does not divide it. */
  lemma OrderHasNoSmallDivisor(a: int)
    requires OrderIsPrime()
    requires 1 < a < N
    ensures N % a != 0
  {
    assert !Divides(a, N);
  }

  /** A zero product `a * b` gives the smaller zero product `(N mod a) * b`. */
  lemma ZeroProductDescends(a: int, b: int)
    requires 0 < a
    ensures (a * b) % N == 0 ==> ((N % a) * b) % N == 0
  {
    var q := N / a;
    assert N % a == N - a * q;
    var k := (a * b) / N;
    if (a * b) % N == 0 {
      assert a * b == k * N;
      calc {
        (N % a) * b;
        (N - a * q) * b;
        N * b - (a * b) * q;
        N * b - (k * N) * q;
        (b - k * q) * N;
      }
      ModAddMultiple(0, b - k * q);
    }
  }

  /** In a field of prime order two non-zero elements have a non-zero
      product.  Proved by descent: a zero product a * b would force the
      smaller zero product (N mod a) * b. */
  lemma {:induction false} NoZeroDivisors(a: int, b: int)
    requires OrderIsPrime()
    requires 0 < a < N && 0 < b < N
    ensures (a * b) % N != 0
    decreases a
  {
    if a > 1 {
      OrderHasNoSmallDivisor(a);
      NoZeroDivisors(N % a, b);
      ZeroProductDescends(a, b);
    }
  }

  lemma MulNonZero(a: NonZeroScalar, b: NonZeroScalar)
    requires OrderIsPrime()
    ensures Mul(a, b) != 0
  {
    NoZeroDivisors(a, b);
  }

  lemma ModDifference(u: int, v: int)
    requires (u + v) % N == u % N
    ensures v % N == 0
  {
    var q, qu := (u + v) / N, u / N;
    assert v == (q - qu) * N + ((u + v) % N - u % N);
    ModAddMultiple(0, q - qu);
  }

  /** Multiplication by a non-zero scalar is one-to-one. */
  lemma MulCancel(a: NonZeroScalar, x: Scalar, y: Scalar)
    requires OrderIsPrime()
    requires Mul(a, x) == Mul(a, y)
    ensures x == y
  {
    if x != y {
      var lo, hi := if x < y then x else y, if x < y then y else x;
      assert (a * lo + a * (hi - lo)) % N == (a * lo) % N by {
        assert a * hi == a * lo + a * (hi - lo);
      }
      ModDifference(a * lo, a * (hi - lo));
      NoZeroDivisors(a, hi - lo);
    }
  }

  /** Bezout coefficients: `a * x + b * y == g`, and `g` divides both
      `a` (quotient `qa`) and `b` (quotient `qb`). */
  datatype Bezout = Bezout(g: int, x: int, y: int, qa: int, qb: int)

  /** One step of the extended Euclidean algorithm: Bezout data for
      (b, a mod b) gives Bezout data for (a, b). */
  lemma EuclidStep(a: int, b: int, e: Bezout)
    requires b > 0
    requires b == e.g * e.qa && a % b == e.g * e.qb
    requires b * e.x + (a % b) * e.y == e.g
    ensures a == e.g * ((a / b) * e.qa + e.qb)
    ensures a * e.y + b * (e.x - (a / b) * e.y) == e.g
  {
    var q, r := a / b, a % b;
    assert a == q * b + r;
    assert q * b == e.g * (q * e.qa);
    assert b * (e.x - q * e.y) == b * e.x - (q * b) * e.y;
    assert a * e.y == (q * b) * e.y + r * e.y;
  }

  /** The extended Euclidean algorithm. */
  function ExtendedGcd(a: nat, b: nat): (r: Bezout)
    requires a > 0
    ensures r.g > 0 && a == r.g * r.qa && b == r.g * r.qb
    ensures a * r.x + b * r.y == r.g
    decreases b
  {
    if b == 0 then Bezout(a, 1, 0, 1, 0)
    else
      var e := ExtendedGcd(b, a % b);
      EuclidStep(a, b, e);
      Bezout(e.g, e.y, e.x - (a / b) * e.y, (a / b) * e.qa + e.qb, e.qa)
  }

  lemma MulModSelf(g: int, k: int)
    requires g > 0
    ensures (g * k) % g == 0
  {
    var m, t := (g * k) % g, (g * k) / g;
    assert g * k == g * t + m && 0 <= m < g;
    assert g * (k - t) == m;
    if k - t >= 1 {
    } else if k - t <= -1 {
    }
  }

  /** The multiplicative inverse of `b` mod N, from the Bezout identity
      of N and b. */
  function Inverse(b: NonZeroScalar): Scalar
  {
    ExtendedGcd(N, b).y % N
  }

  lemma InverseIsInverse(b: NonZeroScalar)
    requires OrderIsPrime()
    ensures Inverse(b) != 0 && Mul(b, Inverse(b)) == 1
  {
    var e := ExtendedGcd(N, b);
    MulModSelf(e.g, e.qa);
    assert Divides(e.g, N);
    assert e.g == 1 by {
      if e.qb <= 0 {
      }
    }
    MulModRight(b, e.y);
    assert b * e.y == 1 + (-e.x) * N;
    ModAddMultiple(1, -e.x);
  }

  /** Multiplying `s * (b * m)` by the inverse of `b` leaves `s * m`. */
  lemma CancelFactor(s: Scalar, b: Scalar, m: Scalar, inv: Scalar)
    requires Mul(b, inv) == 1
    ensures Mul(Mul(s, Mul(b, m)), inv) == Mul(s, m)
  {
    calc {
      Mul(Mul(s, Mul(b, m)), inv);
    == { MulAssociative(s, Mul(b, m), inv); }
      Mul(s, Mul(Mul(b, m), inv));
    == { MulCommutative(b, m); }
      Mul(s, Mul(Mul(m, b), inv));
    == { MulAssociative(m, b, inv); }
      Mul(s, Mul(m, Mul(b, inv)));
    == { assert Mul(m, 1) == m; }
      Mul(s, m);
    }
  }

  lemma CancelByInverse(s: Scalar, b: NonZeroScalar, m: Scalar)
    requires OrderIsPrime()
    ensures Mul(Mul(s, Mul(b, m)), Inverse(b)) == Mul(s, m)
  {
    InverseIsInverse(b);
    CancelFactor(s, b, m, Inverse(b));
  }

  /** The library's `mark::<NonZero>()`: `None` exactly on zero. */
  function MarkNonZero(s: Scalar): (r: Option<NonZeroScalar>)
    ensures r.Some? <==> s != 0
    ensures r.Some? ==> r.value == s
  {
    if s == 0 then None else Some(s)
  }
}
