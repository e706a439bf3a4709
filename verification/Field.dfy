/**
 The scalar field of prime order Q. Q is left open: everything proved over it holds for every prime,
 in particular for the group orders of BLS12-381 and ristretto255.

 A group of order Q is represented by exponents with respect to its generator, so a point is a
 scalar, the generator is 1, scalar multiplication and the pairing are multiplication.
 */
module Field {

  predicate Multiple(n: int, d: nat)
    requires d > 0
  {
    n % d == 0
  }

  predicate IsPrime(p: nat) {
    p >= 2 && forall d | 2 <= d < p :: !Multiple(p, d)
  }

  type Prime = p: nat | IsPrime(p) witness 2

  const Q: Prime

  type Scalar = x: int | 0 <= x < Q

  type G1 = Scalar
  type G2 = Scalar
  type Gt = Scalar

  const GENERATOR: Scalar := 1

  function Add(a: Scalar, b: Scalar): Scalar { if a + b < Q then a + b else a + b - Q }

  function Neg(a: Scalar): Scalar { if a == 0 then 0 else Q - a }

  function Sub(a: Scalar, b: Scalar): Scalar { Add(a, Neg(b)) }

  function Mul(a: Scalar, b: Scalar): Scalar { (a * b) % Q }

  function ScalarMult(s: Scalar, p: Scalar): Scalar { Mul(s, p) }

  function Pair(p: G1, q: G2): Gt { Mul(p, q) }

  // ---------------------------------------------------------------- congruences

  /** `a` and `b` differ by `k` times the modulus. */
  lemma SameResidue(a: int, b: int, m: nat, k: int)
    requires m > 0 && a == b + k * m
    ensures a % m == b % m
  {
    var d := a / m - b / m - k;
    assert a == m * (a / m) + a % m && b == m * (b / m) + b % m;
    assert d * m == (a / m) * m - (b / m) * m - k * m;
    SmallMultiple(d, m);
  }

  lemma SmallMultiple(d: int, m: int)
    requires -m < d * m < m
    ensures d == 0
  {}

  lemma OwnResidue(a: Scalar)
    ensures a % Q == a
  {}

  /** A factor may be reduced before multiplying. */
  lemma ReduceFactor(a: int, b: int)
    ensures (a % Q * b) % Q == (a * b) % Q
  {
    var k := a / Q;
    assert a == k * Q + a % Q;
    FactorOut(a, a % Q, k, b, Q);
    SameResidue(a * b, a % Q * b, Q, k * b);
  }

  lemma FactorOut(a: int, r: int, k: int, b: int, m: int)
    requires a == k * m + r
    ensures a * b == r * b + k * b * m
  {}

  /** Summands may be reduced before adding. */
  lemma ReduceSum(a: int, b: int)
    ensures Add(a % Q, b % Q) == (a + b) % Q
  {
    var k, l := a / Q, b / Q;
    assert a == k * Q + a % Q && b == l * Q + b % Q;
    var s := Add(a % Q, b % Q);
    var m := if a % Q + b % Q < Q then k + l else k + l + 1;
    assert a + b == s + m * Q;
    SameResidue(a + b, s, Q, m);
    OwnResidue(s);
  }

  // ---------------------------------------------------------------- ring laws

  lemma AddAssoc(a: Scalar, b: Scalar, c: Scalar)
    ensures Add(Add(a, b), c) == Add(a, Add(b, c))
  {}

  lemma MulAssoc(a: Scalar, b: Scalar, c: Scalar)
    ensures Mul(Mul(a, b), c) == Mul(a, Mul(b, c))
  {
    ReduceFactor(a * b, c);
    ReduceFactor(b * c, a);
    ProductAssoc(a, b, c);
    MulComm(a, Mul(b, c));
  }

  lemma ProductAssoc(a: int, b: int, c: int)
    ensures a * b * c == b * c * a
  {}

  lemma MulComm(a: Scalar, b: Scalar)
    ensures Mul(a, b) == Mul(b, a)
  {
    assert a * b == b * a;
  }

  lemma MulOne(a: Scalar)
    ensures Mul(a, 1) == a == Mul(1, a)
    ensures Mul(a, 0) == 0 == Mul(0, a)
  {
    OwnResidue(a);
    OwnResidue(0);
  }

  lemma Distribute(a: Scalar, b: Scalar, c: Scalar)
    ensures Mul(a, Add(b, c)) == Add(Mul(a, b), Mul(a, c))
    ensures Mul(Add(b, c), a) == Add(Mul(b, a), Mul(c, a))
  {
    var k := if b + c < Q then 0 else 1;
    ReduceSum(a * b, a * c);
    Expand(a, b, c, Add(b, c), k, Q);
    SameResidue(a * b + a * c, a * Add(b, c), Q, a * k);
    MulComm(a, b);
    MulComm(a, c);
    MulComm(a, Add(b, c));
  }

  lemma Expand(a: int, b: int, c: int, sum: int, k: int, m: int)
    requires b + c == sum + k * m
    ensures a * b + a * c == a * sum + a * k * m
  {
    assert a * (b + c) == a * sum + a * (k * m);
  }

  lemma MulNeg(a: Scalar, b: Scalar)
    ensures Mul(Neg(a), b) == Neg(Mul(a, b))
    ensures Mul(b, Neg(a)) == Neg(Mul(b, a))
  {
    Distribute(b, a, Neg(a));
    MulOne(b);
    assert Add(a, Neg(a)) == 0;
  }

  // ---------------------------------------------------------------- inverses

  ghost predicate Divides(d: nat, n: int)
    requires d > 0
  {
    exists k: int :: n == k * d
  }

  /** Bezout coefficients of `a` and `b`: their greatest common divisor as a combination of the two. */
  function Bezout(a: nat, b: nat): (r: (nat, int, int))
    requires a > 0
    ensures r.0 > 0 && r.0 == r.1 * a + r.2 * b
    ensures Divides(r.0, a) && Divides(r.0, b)
    decreases a
  {
    if b % a == 0 then
      assert a == 1 * a && b == (b / a) * a;
      (a, 1, 0)
    else
      var (g, x, y) := Bezout(b % a, a);
      BezoutStep(a, b, g, x, y);
      (g, y - x * (b / a), x)
  }

  lemma BezoutStep(a: nat, b: nat, g: nat, x: int, y: int)
    requires a > 0 && g > 0 && g == x * (b % a) + y * a && Divides(g, b % a) && Divides(g, a)
    ensures g == (y - x * (b / a)) * a + x * b && Divides(g, b)
  {
    BezoutStepOf(a, b, b / a, b % a, g, x, y);
  }

  lemma BezoutStepOf(a: int, b: int, q: int, r: int, g: nat, x: int, y: int)
    requires b == q * a + r && g > 0 && g == x * r + y * a && Divides(g, r) && Divides(g, a)
    ensures g == (y - x * q) * a + x * b && Divides(g, b)
  {
    var k, l :| r == k * g && a == l * g;
    CommonFactor(q, l, k, g);
    Regroup(x, y, q, a, b);
    assert r == b - q * a;
  }

  lemma CommonFactor(q: int, l: int, k: int, g: int)
    ensures q * (l * g) + k * g == (q * l + k) * g
  {}

  lemma Regroup(x: int, y: int, q: int, a: int, b: int)
    ensures x * (b - q * a) + y * a == (y - x * q) * a + x * b
  {}

  lemma DividesPrime(g: nat, p: nat)
    requires IsPrime(p) && 0 < g < p && Divides(g, p)
    ensures g == 1
  {
    var k :| p == k * g;
    if g >= 2 {
      SameResidue(p, 0, g, k);
      assert Multiple(p, g);
    }
  }

  lemma DivisorBound(k: int, g: nat, a: nat)
    requires a > 0 && a == k * g
    ensures g <= a
  {
    if k > 0 {
      assert k * g >= g;
    }
  }

  /** The multiplicative inverse; the library maps zero to zero. */
  function Inv(a: Scalar): Scalar {
    if a == 0 then 0 else Bezout(a, Q).1 % Q
  }

  lemma InvWorks(a: Scalar)
    requires a != 0
    ensures Mul(a, Inv(a)) == 1 == Mul(Inv(a), a) && Inv(a) != 0
  {
    var (g, x, y) := Bezout(a, Q);
    var k :| a == k * g;
    DivisorBound(k, g, a);
    DividesPrime(g, Q);
    SameResidue(x * a, 1, Q, -y);
    ReduceFactor(x, a);
    MulComm(a, Inv(a));
    OwnResidue(1);
    MulOne(a);
  }

  /** Multiplying by a nonzero scalar cancels. */
  lemma MulCancel(a: Scalar, b: Scalar, c: Scalar)
    requires c != 0
    ensures Mul(c, a) == Mul(c, b) <==> a == b
  {
    InvWorks(c);
    MulAssoc(Inv(c), c, a);
    MulAssoc(Inv(c), c, b);
    MulOne(a);
    MulOne(b);
  }
}
