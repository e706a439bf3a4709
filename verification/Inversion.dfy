/** Modular and batch inversion of the browser's field arithmetic (tca/dvf.bundle.js). */
module Inversion {
  import opened Wrappers
  import opened Field

  datatype InvertError = ExpectedPositive | DoesNotExist

  /** JavaScript's remainder, which takes the sign of the dividend. */
  function Rem(a: int, b: int): int
    requires b > 0
  {
    if a >= 0 then a % b else -((-a) % b)
  }

  function Mod(a: int, b: int): int
    requires b > 0
  {
    var res := Rem(a, b);
    if res >= 0 then res else b + res
  }

  lemma ModIsEuclidean(a: int, b: int)
    requires b > 0
    ensures Mod(a, b) == a % b && 0 <= Mod(a, b) < b
  {
    if a < 0 {
      var n := -a;
      assert n == b * (n / b) + n % b;
      var r := Mod(a, b);
      var k := if n % b == 0 then -(n / b) else -(n / b) - 1;
      assert a == r + k * b;
      SameResidue(a, r, b, k);
      Within(r, b);
    }
  }

  lemma Within(r: int, b: nat)
    requires 0 <= r < b
    ensures r % b == r
  {}

  /** `r` is a multiplicative inverse of `n`. */
  ghost predicate IsInverse(r: int, n: int, modulo: int)
    requires modulo > 0
  {
    (r * n) % modulo == 1 % modulo
  }

  /** Every common divisor of `a` and `b` divides `c` and `d`. */
  ghost predicate CommonDivisors(a: int, b: int, c: int, d: int) {
    forall e: nat | e > 0 && Divides(e, a) && Divides(e, b) :: Divides(e, c) && Divides(e, d)
  }

  /** The extended Euclidean loop: it ends, and answers with an inverse exactly when there is one. */
  method Invert(number: int, modulo: int) returns (r: Result<int, InvertError>)
    ensures number == 0 || modulo <= 0 ==> r == Err(ExpectedPositive)
    ensures r.Ok? ==> modulo > 0 && 0 <= r.value < modulo && IsInverse(r.value, number, modulo)
    ensures number != 0 && modulo > 0 && r.Err? ==>
              r == Err(DoesNotExist) && forall s: int :: !IsInverse(s, number, modulo)
  {
    if number == 0 || modulo <= 0 { return Err(ExpectedPositive); }
    ModIsEuclidean(number, modulo);
    var a := Mod(number, modulo);
    ghost var n0 := a;
    var b := modulo;
    var x, y, u, v := 0, 1, 1, 0;
    while a != 0
      invariant 0 <= a < b
      invariant a == u * n0 + v * modulo && b == x * n0 + y * modulo
      invariant CommonDivisors(a, b, n0, modulo)
      decreases a
    {
      var q := b / a;
      var r2 := b % a;
      var m := x - u * q;
      var n := y - v * q;
      EuclidStep(a, b, q, r2, x, y, u, v, n0, modulo);
      DivisorStep(a, b, q, r2, n0, modulo);
      b, a, x, y, u, v := a, r2, u, v, m, n;
    }
    var gcd := b;
    GcdDecides(gcd, x, y, number, n0, modulo);
    if gcd != 1 { return Err(DoesNotExist); }
    ModIsEuclidean(x, modulo);
    return Ok(Mod(x, modulo));
  }

  lemma EuclidStep(a: nat, b: nat, q: int, r2: int, x: int, y: int, u: int, v: int, n0: int, modulo: int)
    requires a > 0 && b == a * q + r2
    requires a == u * n0 + v * modulo && b == x * n0 + y * modulo
    ensures r2 == (x - u * q) * n0 + (y - v * q) * modulo
  {
    assert (x - u * q) * n0 == x * n0 - q * (u * n0);
    assert (y - v * q) * modulo == y * modulo - q * (v * modulo);
  }

  lemma DivisorStep(a: nat, b: nat, q: int, r2: int, n0: int, modulo: int)
    requires b == a * q + r2 && CommonDivisors(a, b, n0, modulo)
    ensures CommonDivisors(r2, a, n0, modulo)
  {
    forall e: nat | e > 0 && Divides(e, r2) && Divides(e, a)
      ensures Divides(e, n0) && Divides(e, modulo)
    {
      DividesCombination(e, a, q, r2);
    }
  }

  lemma DividesCombination(e: nat, a: int, q: int, r: int)
    requires e > 0 && Divides(e, a) && Divides(e, r)
    ensures Divides(e, a * q + r)
  {
    var k, l :| a == k * e && r == l * e;
    assert a * q + r == (k * q + l) * e by {
      assert a * q == k * q * e;
    }
  }

  /** What the final gcd says about inverses. */
  lemma GcdDecides(gcd: nat, x: int, y: int, number: int, n0: int, modulo: nat)
    requires modulo > 0 && n0 == number % modulo && gcd > 0
    requires gcd == x * n0 + y * modulo && CommonDivisors(0, gcd, n0, modulo)
    ensures gcd == 1 ==> IsInverse(x % modulo, number, modulo)
    ensures gcd != 1 ==> forall s: int :: !IsInverse(s, number, modulo)
  {
    assert 0 == 0 * gcd && gcd == 1 * gcd;
    assert Divides(gcd, 0) && Divides(gcd, gcd);
    var k := number / modulo;
    assert number == k * modulo + n0;
    if gcd == 1 {
      var l := x / modulo;
      assert x == l * modulo + x % modulo;
      BezoutInverts(x, x % modulo, y, number, n0, k, l, modulo);
    } else {
      forall s: int
        ensures !IsInverse(s, number, modulo)
      {
        if IsInverse(s, number, modulo) {
          NoInverse(gcd, s, number, k, n0, modulo);
        }
      }
    }
  }

  /** A Bezout coefficient of the reduced number, itself reduced, inverts the number. */
  lemma BezoutInverts(x: int, r: int, y: int, number: int, n0: int, k: int, l: int, modulo: nat)
    requires modulo > 0 && number == k * modulo + n0 && x == l * modulo + r && x * n0 + y * modulo == 1
    ensures IsInverse(r, number, modulo)
  {
    var j := x * k - y - l * number;
    BezoutProduct(x, r, y, number, n0, k, l, modulo);
    SameResidue(r * number, 1, modulo, j);
  }

  lemma BezoutProduct(x: int, r: int, y: int, number: int, n0: int, k: int, l: int, m: int)
    requires number == k * m + n0 && x == l * m + r && x * n0 + y * m == 1
    ensures r * number == 1 + (x * k - y - l * number) * m
  {
    assert x * number == l * m * number + r * number;
    assert x * number == x * (k * m) + x * n0;
    SplitFactor(x * k, y, l * number, m);
    assert x * (k * m) == x * k * m && l * m * number == l * number * m;
  }

  lemma SplitFactor(a: int, b: int, c: int, m: int)
    ensures (a - b - c) * m == a * m - b * m - c * m
  {}

  /** An inverse of a number leaves no common divisor with the modulus but 1. */
  lemma NoInverse(gcd: nat, s: int, number: int, k: int, n0: int, modulo: nat)
    requires modulo > 0 && gcd > 0 && number == k * modulo + n0
    requires Divides(gcd, n0) && Divides(gcd, modulo) && IsInverse(s, number, modulo)
    ensures gcd == 1
  {
    var j := BezoutOfInverse(s, number, modulo);
    assert number == modulo * k + n0;
    DividesCombination(gcd, modulo, k, n0);
    assert 0 == 0 * gcd;
    DividesCombination(gcd, modulo, -j, 0);
    DividesCombination(gcd, number, s, modulo * -j);
    assert number * s + modulo * -j == 1;
    var c :| 1 == c * gcd;
    DivisorBound(c, gcd, 1);
  }

  lemma BezoutOfInverse(s: int, number: int, modulo: nat) returns (j: int)
    requires modulo > 0 && IsInverse(s, number, modulo)
    ensures number * s - modulo * j == 1
  {
    var p := s * number;
    j := p / modulo - 1 / modulo;
    assert p == modulo * (p / modulo) + p % modulo && 1 == modulo * (1 / modulo) + 1 % modulo;
    assert modulo * j == modulo * (p / modulo) - modulo * (1 / modulo);
  }

  // ---------------------------------------------------------------- fields

  /** The field operations batch inversion uses, for the prime field and its extensions alike. */
  datatype FieldOps<!F> = FieldOps(zero: F, one: F, mul: (F, F) -> F, inv: F -> F)

  /** The multiplicative laws of a field, for three elements. */
  ghost predicate Laws<F>(k: FieldOps<F>, a: F, b: F, c: F) {
    && k.mul(k.mul(a, b), c) == k.mul(a, k.mul(b, c))
    && k.mul(a, b) == k.mul(b, a)
    && k.mul(a, k.one) == a
    && k.mul(a, k.zero) == k.zero
    && (a != k.zero ==> k.mul(a, k.inv(a)) == k.one)
  }

  /** The laws hold throughout. */
  ghost predicate IsField<F(!new)>(k: FieldOps<F>) {
    k.one != k.zero && forall a, b, c :: Laws(k, a, b, c)
  }

  const PRIME_FIELD: FieldOps<Scalar> := FieldOps(0, 1, Mul, Inv)

  lemma PrimeFieldIsField()
    ensures IsField(PRIME_FIELD)
  {
    forall a: Scalar, b: Scalar, c: Scalar
      ensures Laws(PRIME_FIELD, a, b, c)
    {
      PrimeFieldLaws(a, b, c);
    }
  }

  lemma PrimeFieldLaws(a: Scalar, b: Scalar, c: Scalar)
    ensures Laws(PRIME_FIELD, a, b, c)
  {
    MulAssoc(a, b, c);
    MulComm(a, b);
    MulOne(a);
    if a != 0 {
      InvWorks(a);
    }
  }

  lemma InverseUnique<F(!new)>(k: FieldOps<F>, v: F, x: F)
    requires IsField(k) && k.mul(v, x) == k.one
    ensures x != k.zero && v == k.inv(x)
  {
    assert Laws(k, v, x, k.inv(x));
    assert Laws(k, x, k.inv(x), v);
    assert Laws(k, v, k.one, v);
    assert Laws(k, k.one, k.inv(x), k.inv(x));
    assert Laws(k, k.inv(x), k.one, v);
  }

  /** The prime field's inversion is the Euclidean one: it cannot fail on a nonzero element. */
  method InvertElement(x: Scalar) returns (r: Scalar)
    requires x != 0
    ensures r == PRIME_FIELD.inv(x)
  {
    InvWorks(x);
    OwnResidue(1);
    assert IsInverse(Inv(x), x, Q);
    var res := Invert(x, Q);
    r := res.value;
    PrimeFieldIsField();
    InverseUnique(PRIME_FIELD, r, x);
  }

  // ---------------------------------------------------------------- batch inversion

  /** The product of the nonzero elements. */
  function Product<F(==)>(k: FieldOps<F>, nums: seq<F>): F {
    if nums == [] then k.one
    else
      var before := Product(k, nums[..|nums| - 1]);
      var x := nums[|nums| - 1];
      if x == k.zero then before else k.mul(before, x)
  }

  lemma {:induction false} ProductNonzero<F(!new)>(k: FieldOps<F>, nums: seq<F>)
    requires IsField(k)
    ensures Product(k, nums) != k.zero
  {
    if nums != [] {
      var before, x := Product(k, nums[..|nums| - 1]), nums[|nums| - 1];
      ProductNonzero(k, nums[..|nums| - 1]);
      assert Laws(k, before, x, k.inv(x));
      assert Laws(k, x, k.inv(x), x);
      assert Laws(k, k.inv(x), k.zero, x);
      assert Laws(k, k.zero, k.inv(x), x);
    }
  }

  /** What the first pass leaves at index `j`: the product of the nonzero elements before it. */
  function Partial<F(==)>(k: FieldOps<F>, nums: seq<F>, j: nat): Option<F>
    requires j < |nums|
  {
    if nums[j] == k.zero then None else Some(Product(k, nums[..j]))
  }

  function Inverse<F(==)>(k: FieldOps<F>, nums: seq<F>, j: nat): Option<F>
    requires j < |nums|
  {
    if nums[j] == k.zero then None else Some(k.inv(nums[j]))
  }

  /** The left-to-right pass: partial products into `tmp`, the full product as result. */
  method Accumulate<F(==)>(k: FieldOps<F>, nums: seq<F>, tmp: array<Option<F>>) returns (acc: F)
    requires tmp.Length == |nums| && forall j | 0 <= j < |nums| :: tmp[j] == None
    modifies tmp
    ensures acc == Product(k, nums)
    ensures forall j | 0 <= j < |nums| :: tmp[j] == Partial(k, nums, j)
  {
    acc := k.one;
    for i := 0 to |nums|
      invariant acc == Product(k, nums[..i])
      invariant forall j | 0 <= j < i :: tmp[j] == Partial(k, nums, j)
      invariant forall j | i <= j < |nums| :: tmp[j] == None
    {
      ProductStep(k, nums, i);
      if nums[i] != k.zero {
        tmp[i] := Some(acc);
        acc := k.mul(acc, nums[i]);
      }
    }
    assert nums[..|nums|] == nums;
  }

  lemma ProductStep<F>(k: FieldOps<F>, nums: seq<F>, i: nat)
    requires i < |nums|
    ensures Product(k, nums[..i + 1])
         == if nums[i] == k.zero then Product(k, nums[..i]) else k.mul(Product(k, nums[..i]), nums[i])
  {
    assert nums[..i + 1][..i] == nums[..i];
  }

  /**
   In any field, with one inversion for the whole list: every nonzero element's place gets its inverse
   and every zero's place stays undefined.
   */
  method GenInvertBatch<F(!new, ==)>(k: FieldOps<F>, nums: seq<F>) returns (tmp: array<Option<F>>)
    requires IsField(k)
    ensures fresh(tmp) && tmp.Length == |nums|
    ensures forall j | 0 <= j < |nums| :: tmp[j] == Inverse(k, nums, j)
  {
    tmp := new Option<F>[|nums|](_ => None);
    var lastMultiplied := Accumulate(k, nums, tmp);
    ProductNonzero(k, nums);
    var acc := k.inv(lastMultiplied);
    assert Laws(k, lastMultiplied, acc, acc);
    assert nums[..|nums|] == nums;
    for i := |nums| downto 0
      invariant k.mul(Product(k, nums[..i]), acc) == k.one
      invariant forall j | 0 <= j < i :: tmp[j] == Partial(k, nums, j)
      invariant forall j | i <= j < |nums| :: tmp[j] == Inverse(k, nums, j)
    {
      ProductStep(k, nums, i);
      var num := nums[i];
      if num != k.zero {
        BatchStep(k, acc, Product(k, nums[..i]), num);
        tmp[i] := Some(k.mul(acc, tmp[i].value));
        acc := k.mul(acc, num);
      }
    }
  }

  lemma BatchStep<F(!new)>(k: FieldOps<F>, acc: F, before: F, x: F)
    requires IsField(k) && k.mul(k.mul(before, x), acc) == k.one
    ensures k.mul(acc, before) == k.inv(x) && k.mul(before, k.mul(acc, x)) == k.one
  {
    assert Laws(k, k.mul(before, x), acc, x);
    assert Laws(k, acc, before, x);
    assert Laws(k, before, x, acc);
    assert Laws(k, x, acc, x);
    InverseUnique(k, k.mul(acc, before), x);
  }
}
