/**
 The three scalar multiplications of the browser's curve engine (ProjectivePoint in
 tca/dvf.bundle.js): double-and-add, double-and-add with a decoy, and windowed signed digits over a
 precomputed table. All three are proved to compute multiples in any abelian group.
 */
module ScalarMul {
  import opened Wrappers

  // ---------------------------------------------------------------- groups

  datatype Group<!P> = Group(zero: P, add: (P, P) -> P, neg: P -> P)

  /** Names three elements the group laws are wanted for. */
  predicate Consider<P>(a: P, b: P, c: P) { true }

  ghost predicate Abelian<P(!new)>(g: Group<P>) {
    forall a, b, c {:trigger Consider(a, b, c)} ::
      && g.add(g.add(a, b), c) == g.add(a, g.add(b, c))
      && g.add(a, b) == g.add(b, a)
      && g.add(a, g.zero) == a
      && g.add(a, g.neg(a)) == g.zero
  }

  /** n * p for natural n. */
  function Times<P>(g: Group<P>, n: nat, p: P): P {
    if n == 0 then g.zero else g.add(Times(g, n - 1, p), p)
  }

  /** n * p for any integer n. */
  function Multiple<P>(g: Group<P>, n: int, p: P): P {
    if n >= 0 then Times(g, n, p) else g.neg(Times(g, -n, p))
  }

  lemma {:induction false} TimesAdd<P(!new)>(g: Group<P>, m: nat, n: nat, p: P)
    requires Abelian(g)
    ensures g.add(Times(g, m, p), Times(g, n, p)) == Times(g, m + n, p)
  {
    if n == 0 {
      assert Consider(Times(g, m, p), p, p);
    } else {
      TimesAdd(g, m, n - 1, p);
      assert Consider(Times(g, m, p), Times(g, n - 1, p), p);
    }
  }

  /** Doubling the point halves the factor. */
  lemma {:induction false} TimesOfDouble<P(!new)>(g: Group<P>, n: nat, p: P)
    requires Abelian(g)
    ensures Times(g, n, g.add(p, p)) == Times(g, 2 * n, p)
  {
    if n > 0 {
      TimesOfDouble(g, n - 1, p);
      assert Consider(Times(g, 2 * n - 2, p), p, p);
      assert Times(g, 2 * n, p) == g.add(g.add(Times(g, 2 * n - 2, p), p), p);
    }
  }

  lemma {:induction false} TimesOfTimes<P(!new)>(g: Group<P>, m: nat, n: nat, p: P)
    requires Abelian(g)
    ensures Times(g, m, Times(g, n, p)) == Times(g, m * n, p)
  {
    if m > 0 {
      TimesOfTimes(g, m - 1, n, p);
      TimesAdd(g, (m - 1) * n, n, p);
      assert (m - 1) * n + n == m * n;
    }
  }

  lemma TimesOne<P(!new)>(g: Group<P>, p: P)
    requires Abelian(g)
    ensures Times(g, 1, p) == p
  {
    assert Consider(p, g.zero, p);
    assert Consider(g.zero, p, p);
    assert Times(g, 1, p) == g.add(g.zero, p);
  }

  lemma NegUnique<P(!new)>(g: Group<P>, a: P, b: P)
    requires Abelian(g) && g.add(a, b) == g.zero
    ensures b == g.neg(a)
  {
    assert Consider(g.neg(a), a, b);
    assert Consider(a, g.neg(a), b);
    assert Consider(g.zero, b, b);
    assert Consider(b, g.zero, b);
  }

  lemma NegOfSum<P(!new)>(g: Group<P>, a: P, b: P)
    requires Abelian(g)
    ensures g.add(b, g.neg(g.add(a, b))) == g.neg(a)
    ensures g.add(g.neg(a), g.neg(b)) == g.neg(g.add(a, b))
  {
    var s, na, nb := g.neg(g.add(a, b)), g.neg(a), g.neg(b);
    assert Consider(a, b, s);
    assert Consider(g.add(a, b), s, s);
    NegUnique(g, a, g.add(b, s));
    assert Consider(s, b, nb);
    assert Consider(b, s, s);
    assert Consider(b, nb, nb);
    assert Consider(s, g.zero, g.zero);
  }

  lemma CancelRight<P(!new)>(g: Group<P>, a: P, b: P)
    requires Abelian(g)
    ensures g.add(g.add(a, b), g.neg(b)) == a
  {
    assert Consider(a, b, g.neg(b));
    assert Consider(b, b, b);
    assert Consider(a, g.zero, a);
  }

  /** Differences of natural multiples are integer multiples. */
  lemma SubtractTimes<P(!new)>(g: Group<P>, m: nat, n: nat, d: int, p: P)
    requires Abelian(g) && d == m - n
    ensures g.add(Times(g, m, p), g.neg(Times(g, n, p))) == Multiple(g, d, p)
  {
    if d >= 0 {
      TimesAdd(g, d, n, p);
      assert d + n == m;
      CancelRight(g, Times(g, d, p), Times(g, n, p));
    } else {
      TimesAdd(g, -d, m, p);
      assert -d + m == n;
      NegOfSum(g, Times(g, -d, p), Times(g, m, p));
    }
  }

  /** Adding or subtracting a natural multiple moves the factor. */
  lemma MultipleAdd<P(!new)>(g: Group<P>, m: int, n: nat, p: P)
    requires Abelian(g)
    ensures g.add(Multiple(g, m, p), Times(g, n, p)) == Multiple(g, m + n, p)
    ensures g.add(Multiple(g, m, p), g.neg(Times(g, n, p))) == Multiple(g, m - n, p)
  {
    var a: nat, b: nat := if m >= 0 then m else 0, if m >= 0 then 0 else -m;
    DifferenceUp(g, a, b, n, m, m + n, p);
    DifferenceDown(g, a, b, n, m, m - n, p);
  }

  lemma DifferenceUp<P(!new)>(g: Group<P>, a: nat, b: nat, n: nat, m: int, up: int, p: P)
    requires Abelian(g) && m == a - b && up == m + n
    ensures g.add(Multiple(g, m, p), Times(g, n, p)) == Multiple(g, up, p)
  {
    SubtractTimes(g, a, b, m, p);
    DifferenceAdd(g, a, b, n, p);
    SubtractTimes(g, a + n, b, up, p);
  }

  lemma DifferenceDown<P(!new)>(g: Group<P>, a: nat, b: nat, n: nat, m: int, down: int, p: P)
    requires Abelian(g) && m == a - b && down == m - n
    ensures g.add(Multiple(g, m, p), g.neg(Times(g, n, p))) == Multiple(g, down, p)
  {
    SubtractTimes(g, a, b, m, p);
    DifferenceAdd(g, a, b, n, p);
    SubtractTimes(g, a, b + n, down, p);
  }

  lemma DifferenceAdd<P(!new)>(g: Group<P>, a: nat, b: nat, n: nat, p: P)
    requires Abelian(g)
    ensures var d := g.add(Times(g, a, p), g.neg(Times(g, b, p)));
            && g.add(d, Times(g, n, p)) == g.add(Times(g, a + n, p), g.neg(Times(g, b, p)))
            && g.add(d, g.neg(Times(g, n, p))) == g.add(Times(g, a, p), g.neg(Times(g, b + n, p)))
  {
    TimesAdd(g, a, n, p);
    TimesAdd(g, b, n, p);
    Rearrange(g, Times(g, a, p), Times(g, b, p), Times(g, n, p));
  }

  /** Adding the signed digit `d` of a window, given |d| times the window's weight `b`. */
  lemma AddDigit<P(!new)>(g: Group<P>, done: int, d: int, b: nat, cached: P, p: P)
    requires Abelian(g) && 0 <= (if d < 0 then -d else d) * b
    requires cached == Times(g, (if d < 0 then -d else d) * b, p)
    ensures g.add(Multiple(g, done, p), if d < 0 then g.neg(cached) else cached) == Multiple(g, done + d * b, p)
  {
    var n: nat := (if d < 0 then -d else d) * b;
    MultipleAdd(g, done, n, p);
    if d < 0 {
      assert (-d) * b == -(d * b);
    }
  }

  lemma Rearrange<P(!new)>(g: Group<P>, a: P, b: P, c: P)
    requires Abelian(g)
    ensures g.add(g.add(a, g.neg(b)), c) == g.add(g.add(a, c), g.neg(b))
    ensures g.add(g.add(a, g.neg(b)), g.neg(c)) == g.add(a, g.neg(g.add(b, c)))
  {
    assert Consider(a, g.neg(b), c);
    assert Consider(a, c, g.neg(b));
    assert Consider(g.neg(b), c, c);
    assert Consider(a, g.neg(b), g.neg(c));
    NegOfSum(g, b, c);
  }

  // ---------------------------------------------------------------- powers of two

  function Pow2(n: nat): (r: nat)
    ensures r > 0
  {
    if n == 0 then 1 else 2 * Pow2(n - 1)
  }

  lemma {:induction false} Pow2Add(m: nat, n: nat)
    ensures Pow2(m + n) == Pow2(m) * Pow2(n)
  {
    if m > 0 {
      Pow2Add(m - 1, n);
    }
  }

  lemma {:induction false} Pow2Monotone(m: nat, n: nat)
    requires m <= n
    ensures Pow2(m) <= Pow2(n)
  {
    if m < n {
      Pow2Monotone(m, n - 1);
    }
  }

  /** The weight of a window: 2^(W * window). */
  function Base(W: nat, window: nat): (r: nat)
    ensures r > 0
  {
    if window == 0 then 1 else Pow2(W) * Base(W, window - 1)
  }

  lemma {:induction false} BaseIsPow2(W: nat, window: nat) returns (e: nat)
    ensures e == W * window && Base(W, window) == Pow2(e)
  {
    if window == 0 {
      e := 0;
    } else {
      var d := BaseIsPow2(W, window - 1);
      e := W + d;
      Pow2Add(W, d);
    }
  }

  // ---------------------------------------------------------------- signed-digit recoding

  /** ceil(maxBits / W). */
  function Windows(maxBits: nat, W: nat): nat
    requires W > 0
  {
    (maxBits + W - 1) / W
  }

  /** The largest scalar whose signed digits fit into `windows` windows of width W. */
  function MaxRecoded(W: nat, windows: nat): nat
    requires W > 0
  {
    if windows == 0 then 0 else MaxRecoded(W, windows - 1) + Pow2(W - 1) * Base(W, windows - 1)
  }

  /** In particular every scalar below 2^(W * windows - 1) fits. */
  lemma SmallScalarsFit(W: nat, windows: nat, n: nat)
    requires W > 0 && windows > 0 && 2 * n < Base(W, windows)
    ensures n <= MaxRecoded(W, windows)
  {
    NextWindow(W, windows - 1);
  }

  /** One window of the table: entry i is (i + 1) * 2^(W * window) times the point. */
  function Row<P>(g: Group<P>, p: P, W: nat, window: nat, size: nat): seq<P> {
    Multiples(g, p, Base(W, window), size)
  }

  /** The first `size` multiples of b * p. */
  function Multiples<P>(g: Group<P>, p: P, b: nat, size: nat): (r: seq<P>)
    ensures |r| == size
  {
    seq(size, i requires 0 <= i < size => Times(g, (i + 1) * b, p))
  }

  lemma OneMoreMultiple<P(!new)>(g: Group<P>, p: P, b: nat, i: nat)
    requires Abelian(g)
    ensures g.add(Times(g, i * b, p), Times(g, b, p)) == Times(g, (i + 1) * b, p)
    ensures Multiples(g, p, b, i + 1) == Multiples(g, p, b, i) + [Times(g, (i + 1) * b, p)]
  {
    assert i * b + b == (i + 1) * b;
    TimesAdd(g, i * b, b, p);
  }

  lemma DoubleTimes<P(!new)>(g: Group<P>, size: nat, b: nat, p: P)
    requires Abelian(g)
    ensures g.add(Times(g, size * b, p), Times(g, size * b, p)) == Times(g, 2 * (size * b), p)
  {
    TimesAdd(g, size * b, size * b, p);
  }

  /** The table of the first `windows` windows. */
  function Table<P>(g: Group<P>, p: P, W: nat, windows: nat): seq<P>
    requires W > 0
  {
    if windows == 0 then [] else Table(g, p, W, windows - 1) + Row(g, p, W, windows - 1, Pow2(W - 1))
  }

  lemma {:induction false} TableLength<P>(g: Group<P>, p: P, W: nat, windows: nat)
    requires W > 0
    ensures |Table(g, p, W, windows)| == windows * Pow2(W - 1)
  {
    if windows > 0 {
      TableLength(g, p, W, windows - 1);
    }
  }

  /** Entry i of a window sits at index window * 2^(W-1) + i. */
  lemma {:induction false} TableAt<P>(g: Group<P>, p: P, W: nat, windows: nat, window: nat, i: nat)
    requires W > 0 && window < windows && i < Pow2(W - 1)
    ensures var j := window * Pow2(W - 1) + i;
            0 <= j < |Table(g, p, W, windows)| && Table(g, p, W, windows)[j] == Times(g, (i + 1) * Base(W, window), p)
  {
    TableLength(g, p, W, windows - 1);
    if window < windows - 1 {
      TableAt(g, p, W, windows - 1, window, i);
    }
  }

  // ---------------------------------------------------------------- the point class

  /** The group order and field order of BLS12-381, which bound the accepted scalars and the decoy loop. */
  const CURVE_R: nat := 0x73eda753299d7d483339d80809a1d80553bda402fffe5bfeffffffff00000001
  const FP_ORDER: nat :=
    0x1a0111ea397fe69a4b1ba7b6434bacd764774b84f38512bf6730d2a0f6b0f6241eabfffeb153ffffb9feffffffffaaab

  datatype ScalarError = InvalidScalar | AlreadyPrecomputed

  predicate ValidScalar(n: int) {
    0 < n <= CURVE_R
  }

  /** `p` is n * value less a carry out of `k` windows, which is there exactly when n does not fit them. */
  ghost predicate ShortByCarry<P>(g: Group<P>, value: P, W: nat, k: nat, scalar: nat, carry: nat, p: P)
    requires W > 0
  {
    && p == Multiple(g, scalar - carry * Base(W, k), value)
    && (carry == 0 <==> scalar <= MaxRecoded(W, k))
  }

  class ProjectivePoint<P(!new, ==)> {
    const group: Group<P>
    const value: P
    const maxBits: nat
    var mprecomputes: Option<(nat, seq<P>)>

    ghost predicate Valid()
      reads this
    {
      && Abelian(group)
      && (mprecomputes.Some? ==>
            var (W, points) := mprecomputes.value;
            W > 0 && points == Table(group, value, W, Windows(maxBits, W)))
    }

    constructor (group: Group<P>, value: P, maxBits: nat)
      requires Abelian(group)
      ensures Valid() && this.group == group && this.value == value && this.maxBits == maxBits && mprecomputes.None?
    {
      this.group, this.value, this.maxBits := group, value, maxBits;
      mprecomputes := None;
    }

    method ValidateScalar(n: int) returns (r: Result<nat, ScalarError>)
      ensures r == if ValidScalar(n) then Ok(n) else Err(InvalidScalar)
    {
      if n <= 0 || n > CURVE_R { return Err(InvalidScalar); }
      return Ok(n);
    }

    method MultiplyUnsafe(scalar: int) returns (r: Result<P, ScalarError>)
      requires Valid()
      ensures r == if ValidScalar(scalar) then Ok(Times(group, scalar, value)) else Err(InvalidScalar)
    {
      var valid := ValidateScalar(scalar);
      if valid.Err? { return Err(valid.error); }
      var n := valid.value;
      var point := group.zero;
      var d := value;
      assert Consider(Times(group, n, d), group.zero, d);
      assert Consider(group.zero, Times(group, n, d), d);
      while n > 0
        invariant group.add(point, Times(group, n, d)) == Times(group, scalar, value)
      {
        HalveStep(group, n, d, point);
        if n % 2 == 1 {
          point := group.add(point, d);
        }
        d := group.add(d, d);
        n := n / 2;
      }
      assert Consider(point, group.zero, d);
      return Ok(point);
    }

    /** Runs one iteration per bit of the field order, whatever the scalar, adding into a decoy on zero bits. */
    method Multiply(scalar: int) returns (r: Result<P, ScalarError>)
      requires Valid()
      ensures r == if ValidScalar(scalar) then Ok(Times(group, scalar, value)) else Err(InvalidScalar)
    {
      var valid := ValidateScalar(scalar);
      if valid.Err? { return Err(valid.error); }
      var n := valid.value;
      var point := group.zero;
      var fake := group.zero;
      var d := value;
      var bits := FP_ORDER;
      assert Consider(Times(group, n, d), group.zero, d);
      assert Consider(group.zero, Times(group, n, d), d);
      while bits > 0
        invariant 0 <= n <= bits
        invariant group.add(point, Times(group, n, d)) == Times(group, scalar, value)
      {
        HalveStep(group, n, d, point);
        if n % 2 == 1 {
          point := group.add(point, d);
        } else {
          fake := group.add(fake, d);
        }
        d := group.add(d, d);
        n := n / 2;
        bits := bits / 2;
      }
      assert Consider(point, group.zero, d);
      return Ok(point);
    }

    method PrecomputeWindow(W: nat) returns (points: seq<P>)
      requires Valid() && W > 0
      ensures points == Table(group, value, W, Windows(maxBits, W))
    {
      var windows := Windows(maxBits, W);
      var windowSize := Pow2(W - 1);
      points := [];
      var p := value;
      var base := p;
      TimesOne(group, value);
      for window := 0 to windows
        invariant p == Times(group, Base(W, window), value)
        invariant points == Table(group, value, W, window)
      {
        ghost var b := Base(W, window);
        base, points := PrecomputeRow(points, p, windowSize, b);
        DoubleTimes(group, windowSize, b, value);
        NextWindow(W, window);
        p := group.add(base, base);
      }
    }

    /** One window's row behind the table so far; `base` is its last entry. */
    method PrecomputeRow(before: seq<P>, p: P, windowSize: nat, ghost b: nat) returns (base: P, points: seq<P>)
      requires Valid() && windowSize > 0 && p == Times(group, b, value)
      ensures base == Times(group, windowSize * b, value)
      ensures points == before + Multiples(group, value, b, windowSize)
    {
      base := p;
      points := before + [base];
      var i := 1;
      while i < windowSize
        invariant 1 <= i <= windowSize
        invariant base == Times(group, i * b, value)
        invariant points == before + Multiples(group, value, b, i)
      {
        OneMoreMultiple(group, value, b, i);
        base := group.add(base, p);
        points := points + [base];
        i := i + 1;
      }
    }

    method CalcMultiplyPrecomputes(W: nat) returns (r: Result<(), ScalarError>)
      requires Valid() && W > 0
      modifies this
      ensures Valid()
      ensures old(mprecomputes).Some? ==> r == Err(AlreadyPrecomputed) && mprecomputes == old(mprecomputes)
      ensures old(mprecomputes).None? ==> r == Ok(()) && mprecomputes.Some? && mprecomputes.value.0 == W
    {
      if mprecomputes.Some? { return Err(AlreadyPrecomputed); }
      var points := PrecomputeWindow(W);
      mprecomputes := Some((W, points));
      return Ok(());
    }

    method ClearMultiplyPrecomputes()
      requires Valid()
      modifies this
      ensures Valid() && mprecomputes.None?
    {
      mprecomputes := None;
    }

    ghost function WindowWidth(): nat
      reads this
    {
      if mprecomputes.Some? then mprecomputes.value.0 else 1
    }

    /**
     Whatever table is in use, the first result is n * value whenever n fits the windows. A larger n
     leaves a last carry behind, and the result falls short by exactly what that stands for.
     */
    method WNAF(scalar: nat) returns (p: P, f: P)
      requires Valid()
      ensures var W := WindowWidth();
              W > 0 && var k := Windows(maxBits, W);
              && (scalar <= MaxRecoded(W, k) ==> p == Times(group, scalar, value))
              && exists carry: nat :: ShortByCarry(group, value, W, k, scalar, carry, p)
    {
      var W, precomputes;
      if mprecomputes.Some? {
        W, precomputes := mprecomputes.value.0, mprecomputes.value.1;
      } else {
        W := 1;
        precomputes := PrecomputeWindow(W);
      }
      p, f := group.zero, group.zero;
      var windows := Windows(maxBits, W);
      var n: nat := scalar;
      ghost var done := 0;
      for window := 0 to windows
        invariant Recoded(W, window, scalar, n, done)
        invariant p == Multiple(group, done, value)
      {
        n, p, f, done := ScanWindow(precomputes, W, windows, window, n, p, f, scalar, done);
      }
      AfterLastWindow(group, value, W, windows, scalar, n, done, p);
    }

    /** One window: splits off its digit and adds the table's entry for it. */
    method ScanWindow(precomputes: seq<P>, W: nat, windows: nat, window: nat, n0: nat, p0: P, f0: P,
                      ghost scalar: nat, ghost done0: int)
      returns (n: nat, p: P, f: P, ghost done: int)
      requires Valid() && W > 0 && window < windows && precomputes == Table(group, value, W, windows)
      requires Recoded(W, window, scalar, n0, done0) && p0 == Multiple(group, done0, value)
      ensures Recoded(W, window + 1, scalar, n, done) && p == Multiple(group, done, value)
    {
      var wbits;
      n, wbits := NextDigit(n0, W);
      RecodeStep(W, window, n0, n, wbits, scalar, done0);
      p, f := AddWindow(precomputes, W, windows, window, wbits, p0, f0, done0);
      done := done0 + wbits * Base(W, window);
    }

    /** Entry `i` of a window. */
    method Entry(precomputes: seq<P>, W: nat, windows: nat, window: nat, i: nat) returns (entry: P)
      requires W > 0 && window < windows && precomputes == Table(group, value, W, windows) && i < Pow2(W - 1)
      ensures entry == Times(group, (i + 1) * Base(W, window), value)
    {
      TableAt(group, value, W, windows, window, i);
      var offset := window * Pow2(W - 1);
      entry := precomputes[offset + i];
    }

    /** Adds the table's entry for one signed digit into `p`, or the window's first entry into the decoy. */
    method AddWindow(precomputes: seq<P>, W: nat, windows: nat, window: nat, wbits: int, p0: P, f0: P, ghost done: int)
      returns (p: P, f: P)
      requires Valid() && W > 0 && window < windows && precomputes == Table(group, value, W, windows)
      requires 1 - (Pow2(W - 1) as int) <= wbits <= Pow2(W - 1) && p0 == Multiple(group, done, value)
      ensures p == Multiple(group, done + wbits * Base(W, window), value)
    {
      p, f := p0, f0;
      if wbits == 0 {
        var first := Entry(precomputes, W, windows, window, 0);
        f := group.add(f, if window % 2 == 1 then group.neg(first) else first);
      } else {
        var magnitude := if wbits < 0 then -wbits else wbits;
        var cached := Entry(precomputes, W, windows, window, magnitude - 1);
        AddDigit(group, done, wbits, Base(W, window), cached, value);
        p := group.add(p, if wbits < 0 then group.neg(cached) else cached);
      }
    }

    /** Splits off the lowest window as a signed digit, carrying into the rest when it is over half. */
    static method NextDigit(n0: nat, W: nat) returns (n: nat, wbits: int)
      requires W > 0
      ensures n0 == n * Pow2(W) + wbits && 1 - (Pow2(W - 1) as int) <= wbits <= Pow2(W - 1)
    {
      var windowSize := Pow2(W - 1);
      var maxNumber := Pow2(W);
      n, wbits := ShiftOut(n0, maxNumber);
      if wbits > windowSize {
        wbits := wbits - maxNumber;
        n := n + 1;
      }
    }

    /** The low bits under the mask, and the scalar shifted right by as many. */
    static method ShiftOut(n0: nat, m: nat) returns (n: nat, low: int)
      requires m > 0
      ensures 0 <= low < m && n0 == n * m + low && n0 == (n + 1) * m + (low - m)
    {
      n, low := n0 / m, n0 % m;
    }

    method MultiplyPrecomputed(scalar: int) returns (r: Result<P, ScalarError>)
      requires Valid() && maxBits >= 381
      ensures r == if ValidScalar(scalar) then Ok(Times(group, scalar, value)) else Err(InvalidScalar)
    {
      var valid := ValidateScalar(scalar);
      if valid.Err? { return Err(valid.error); }
      AcceptedScalarsFit(maxBits, WindowWidth());
      var p, _ := WNAF(valid.value);
      return Ok(p);
    }
  }

  // ---------------------------------------------------------------- the loops' steps

  lemma HalveStep<P(!new)>(g: Group<P>, n: nat, d: P, point: P)
    requires Abelian(g)
    ensures g.add(if n % 2 == 1 then g.add(point, d) else point, Times(g, n / 2, g.add(d, d)))
         == g.add(point, Times(g, n, d))
  {
    TimesOfDouble(g, n / 2, d);
    if n % 2 == 1 {
      var even := Times(g, n - 1, d);
      assert Consider(point, d, even);
      assert Consider(d, even, d);
    }
  }

  lemma NextWindow(W: nat, window: nat)
    requires W > 0
    ensures 2 * (Pow2(W - 1) * Base(W, window)) == Base(W, window + 1)
  {
    assert Pow2(W) == 2 * Pow2(W - 1);
  }

  /**
   After some windows, the scalar is n * 2^(W * window) plus the signed digits split off so far, and
   those lie in the one residue system that signed digits of this many windows make up.
   */
  ghost predicate Recoded(W: nat, window: nat, scalar: nat, n: nat, done: int)
    requires W > 0
  {
    && scalar == n * Base(W, window) + done
    && MaxRecoded(W, window) - Base(W, window) < done <= MaxRecoded(W, window)
  }

  lemma RecodeStep(W: nat, window: nat, n0: nat, n: nat, wbits: int, scalar: nat, done: int)
    requires W > 0 && Recoded(W, window, scalar, n0, done)
    requires n0 == n * Pow2(W) + wbits && 1 - (Pow2(W - 1) as int) <= wbits <= Pow2(W - 1)
    ensures Recoded(W, window + 1, scalar, n, done + wbits * Base(W, window))
  {
    var b, h := Base(W, window), Pow2(W - 1);
    NextWindow(W, window);
    DigitBounds(wbits, h, b);
    SplitDigit(n0, n, Pow2(W), wbits, b);
  }

  lemma DigitBounds(d: int, h: nat, b: nat)
    requires 1 - h <= d <= h
    ensures b - h * b <= d * b <= h * b
  {
    MulMonotone(1 - h, d, b);
    MulMonotone(d, h, b);
    assert (1 - h) * b == b - h * b;
  }

  lemma MulMonotone(x: int, y: int, b: nat)
    requires x <= y
    ensures x * b <= y * b
  {}

  lemma SplitDigit(n0: int, n: int, m: int, d: int, b: int)
    requires n0 == n * m + d
    ensures n0 * b == n * (m * b) + d * b
  {}

  lemma AfterLastWindow<P(!new)>(g: Group<P>, value: P, W: nat, k: nat, scalar: nat, n: nat, done: int, p: P)
    requires W > 0 && Recoded(W, k, scalar, n, done) && p == Multiple(g, done, value)
    ensures ShortByCarry(g, value, W, k, scalar, n, p)
    ensures scalar <= MaxRecoded(W, k) ==> p == Times(g, scalar, value)
  {
    CarryIffTooBig(n, Base(W, k), done, MaxRecoded(W, k));
    assert done == scalar - n * Base(W, k);
  }

  lemma CarryIffTooBig(n: nat, b: nat, done: int, max: nat)
    requires max - b < done <= max
    ensures n == 0 <==> n * b + done <= max
  {
    if n > 0 {
      assert n * b >= b;
    }
  }

  // ---------------------------------------------------------------- agreement

  /** 2^256 exceeds twice the group order, so every accepted scalar fits every table over the field's 381 bits. */
  lemma AcceptedScalarsFit(maxBits: nat, W: nat)
    requires maxBits >= 381 && W > 0
    ensures CURVE_R <= MaxRecoded(W, Windows(maxBits, W))
  {
    var k := Windows(maxBits, W);
    WindowsCover(maxBits, W);
    var e := BaseIsPow2(W, k);
    BeyondTwiceOrder(e);
    SmallScalarsFit(W, k, CURVE_R);
  }

  lemma BeyondTwiceOrder(n: nat)
    requires n >= 256
    ensures 2 * CURVE_R < Pow2(n)
  {
    Squared(8, 256);
    Squared(16, 65536);
    Squared(32, 0x1_0000_0000);
    Squared(64, 0x1_0000_0000_0000_0000);
    Squared(128, 0x1_0000_0000_0000_0000_0000_0000_0000_0000);
    Pow2Monotone(256, n);
  }

  lemma Squared(m: nat, x: nat)
    requires m == 8 || Pow2(m) == x
    requires m == 8 ==> x == 256
    ensures Pow2(2 * m) == x * x
  {
    assert m == 8 ==> Pow2(m) == 256;
    Pow2Add(m, m);
  }

  lemma WindowsCover(maxBits: nat, W: nat)
    requires W > 0 && maxBits > 0
    ensures Windows(maxBits, W) > 0 && W * Windows(maxBits, W) >= maxBits
  {
    CeilingCovers(W, maxBits + W - 1, (maxBits + W - 1) / W, (maxBits + W - 1) % W);
  }

  lemma CeilingCovers(W: nat, m: nat, q: int, r: nat)
    requires W > 0 && m >= W && m == W * q + r && r < W
    ensures q > 0 && W * q >= m - W + 1
  {
    if q <= 0 {
      NonPositive(W, q);
    }
  }

  lemma NonPositive(W: nat, q: int)
    requires q <= 0
    ensures W * q <= 0
  {}
}
