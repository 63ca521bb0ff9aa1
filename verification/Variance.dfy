/**
  The integer variance `var_calc` of `src/kmod/tsc_kmod.c`, with its wrapping
  64-bit arithmetic and its overflow checks.
 */
module Variance {

  const WORD: int := 0x1_0000_0000_0000_0000

  /** -EINVAL as an unsigned 64-bit value. */
  const MINUS_EINVAL: int := WORD - 22

  function Wrap(x: int): (r: int)
    ensures 0 <= r < WORD
  {
    x % WORD
  }

  function Sum(xs: seq<nat>): nat {
    if xs == [] then 0 else Sum(xs[..|xs| - 1]) + xs[|xs| - 1]
  }

  function SumOfSquares(xs: seq<nat>): nat {
    if xs == [] then 0 else SumOfSquares(xs[..|xs| - 1]) + xs[|xs| - 1] * xs[|xs| - 1]
  }

  // ----- The mathematical variance -----

  ghost function SquaredDeviations(xs: seq<nat>, mean: real): real {
    if xs == [] then 0.0
    else
      var d := xs[|xs| - 1] as real - mean;
      SquaredDeviations(xs[..|xs| - 1], mean) + d * d
  }

  /** The mean squared distance to the mean, of the whole population. */
  ghost function PopulationVariance(xs: seq<nat>): real
    requires xs != []
  {
    SquaredDeviations(xs, Sum(xs) as real / |xs| as real) / |xs| as real
  }

  lemma {:induction false} DeviationsExpand(xs: seq<nat>, m: real)
    ensures SquaredDeviations(xs, m)
         == SumOfSquares(xs) as real - 2.0 * m * Sum(xs) as real + |xs| as real * (m * m)
  {
    if xs != [] {
      var front, x := xs[..|xs| - 1], xs[|xs| - 1];
      DeviationsExpand(front, m);
      SquareOfDifference(x, m);
      DeviationStep(SumOfSquares(front) as real, (x * x) as real, Sum(front) as real, x as real,
                    |front| as real, 2.0 * m, m * m);
    }
  }

  lemma DeviationStep(q: real, dq: real, s: real, ds: real, n: real, a: real, b: real)
    ensures (q - a * s + n * b) + (dq - a * ds + b) == (q + dq) - a * (s + ds) + (n + 1.0) * b
  {
    DistributeReal(a, s, ds);
    DistributeReal(b, n, 1.0);
  }

  lemma DistributeReal(k: real, a: real, b: real)
    ensures k * (a + b) == k * a + k * b && a * k == k * a && b * k == k * b
  {
  }

  lemma SquareOfDifference(x: nat, m: real)
    ensures (x as real - m) * (x as real - m) == (x * x) as real - 2.0 * m * x as real + m * m
  {
    assert (x * x) as real == x as real * x as real;
  }

  lemma MeanProducts(n: real, m: real, s: real)
    requires s == n * m
    ensures m * s == n * (m * m) && s * s == n * (n * (m * m))
  {
    assert m * s == n * (m * m);
    assert s * s == (n * m) * s == n * (m * s);
  }

  lemma QuotientIs(a: real, b: real, x: real)
    requires b > 0.0 && a == b * x
    ensures a / b == x
  {
  }

  lemma Reassociate(n: real, x: real, a: real, b: real)
    requires a == n * (n * x) && b == n * n
    ensures a == b * x
  {
  }

  lemma ScaledQuotient(n: real, d: real, a: real, b: real)
    requires n > 0.0 && b > 0.0 && a == n * d && b == n * n
    ensures d / n == a / b
  {
    var x := d / n;
    assert d == n * x;
    Reassociate(n, x, a, b);
    QuotientIs(a, b, x);
  }

  lemma DeviationIdentity(n: real, s: real, q: real, m: real, d: real, a: real)
    requires s == n * m
    requires d == q - 2.0 * m * s + n * (m * m)
    requires a == n * q - s * s
    ensures a == n * d
  {
    MeanProducts(n, m, s);
    var p := n * (m * m);
    assert 2.0 * m * s == 2.0 * p;
    assert d == q - p;
    assert n * (q - p) == n * q - n * p;
  }

  lemma FractionOfMoments(n: nat, s: nat, q: nat, m: real, d: real, a: int, b: int)
    requires n > 0 && m == s as real / n as real
    requires d == q as real - 2.0 * m * s as real + n as real * (m * m)
    requires a == n * q - s * s && b == n * n
    ensures b > 0 && d / n as real == a as real / b as real
  {
    SquareIsPositive(n);
    FractionOfProducts(n, s, q);
    assert s as real == n as real * m;
    DeviationIdentity(n as real, s as real, q as real, m, d, a as real);
    ScaledQuotient(n as real, d, a as real, b as real);
  }

  ghost function VarianceNumerator(xs: seq<nat>): int {
    |xs| * SumOfSquares(xs) - Sum(xs) * Sum(xs)
  }

  lemma NumeratorOf(xs: seq<nat>, n: nat, s: nat, q: nat)
    requires n == |xs| && s == Sum(xs) && q == SumOfSquares(xs)
    ensures VarianceNumerator(xs) == n * q - s * s
  {
  }

  lemma DeviationsOf(xs: seq<nat>, n: nat, s: nat, q: nat, m: real)
    requires n == |xs| && s == Sum(xs) && q == SumOfSquares(xs)
    ensures SquaredDeviations(xs, m) == q as real - 2.0 * m * s as real + n as real * (m * m)
  {
    DeviationsExpand(xs, m);
  }

  /** The variance is a fraction of integers. */
  lemma VarianceAsFraction(xs: seq<nat>, n: nat, b: int)
    requires xs != [] && n == |xs| && b == n * n
    ensures b > 0
    ensures PopulationVariance(xs) == VarianceNumerator(xs) as real / b as real
  {
    var s, q := Sum(xs), SumOfSquares(xs);
    var m := s as real / n as real;
    DeviationsOf(xs, n, s, q, m);
    NumeratorOf(xs, n, s, q);
    FractionOfMoments(n, s, q, m, SquaredDeviations(xs, m), VarianceNumerator(xs), b);
  }

  lemma SquareIsPositive(n: int)
    requires n > 0
    ensures n * n > 0
  {
  }

  lemma FractionOfProducts(n: nat, s: nat, q: nat)
    ensures (n * q - s * s) as real == n as real * q as real - s as real * s as real
    ensures (n * n) as real == n as real * n as real
  {
    ProductOfReals(n, q);
    ProductOfReals(s, s);
    ProductOfReals(n, n);
  }

  lemma ProductOfReals(a: int, b: int)
    ensures (a * b) as real == a as real * b as real
  {
  }

  lemma DivideBoth(p: real, x: real, b: real)
    requires b > 0.0
    ensures p * b <= x * b ==> p <= x
    ensures x * b < p * b ==> x < p
  {
    if x < p {
      assert (p - x) * b > 0.0;
    }
    if p <= x {
      assert (x - p) * b >= 0.0;
    }
  }

  lemma FloorIs(x: real, q: int)
    requires q as real <= x < (q + 1) as real
    ensures x.Floor == q
  {
  }

  lemma QuotientBounds(a: int, b: int, q: int)
    requires b > 0 && q == a / b
    ensures q as real * b as real <= a as real < (q + 1) as real * b as real
  {
    assert q * b <= a < (q + 1) * b;
    ProductOfReals(q, b);
    ProductOfReals(q + 1, b);
  }

  /** The quotient of the integers is the floor of the quotient of the reals. */
  lemma FloorOfQuotient(a: int, b: int)
    requires b > 0
    ensures (a as real / b as real).Floor == a / b
  {
    var q := a / b;
    var x := a as real / b as real;
    QuotientBounds(a, b, q);
    assert x * b as real == a as real;
    DivideBoth(q as real, x, b as real);
    DivideBoth((q + 1) as real, x, b as real);
    FloorIs(x, q);
  }

  // ----- Bounds -----

  ghost function ScaledDeviations(xs: seq<nat>, n: int, s: int): nat {
    if xs == [] then 0
    else
      var d := n * xs[|xs| - 1] - s;
      SquareIsNatural(d);
      ScaledDeviations(xs[..|xs| - 1], n, s) + d * d
  }

  lemma SquareIsNatural(d: int)
    ensures 0 <= d * d
  {
    if d < 0 {
      assert d * d == (-d) * (-d);
    }
  }

  lemma {:induction false} ScaledDeviationsExpand(xs: seq<nat>, n: int, s: int)
    ensures ScaledDeviations(xs, n, s) == n * n * SumOfSquares(xs) - 2 * n * s * Sum(xs) + |xs| * (s * s)
  {
    if xs != [] {
      var front, x := xs[..|xs| - 1], xs[|xs| - 1];
      ScaledDeviationsExpand(front, n, s);
      ScaledSquare(n, x, s);
      ExpandStep(n * n, 2 * n * s, s * s, SumOfSquares(front), Sum(front), |front|, x * x, x);
    }
  }

  lemma ExpandStep(a: int, b: int, c: int, q: int, t: int, k: int, dq: int, dt: int)
    ensures a * (q + dq) - b * (t + dt) + (k + 1) * c == (a * q - b * t + k * c) + (a * dq - b * dt + c)
  {
    Distribute(a, q, dq);
    Distribute(b, t, dt);
    Distribute(c, k, 1);
  }

  lemma Distribute(k: int, a: int, b: int)
    ensures k * (a + b) == k * a + k * b
  {
  }

  lemma ScaledSquare(n: int, x: int, s: int)
    ensures (n * x - s) * (n * x - s) == n * n * (x * x) - 2 * n * s * x + s * s
  {
    var a := n * x;
    assert (a - s) * (a - s) == a * a - 2 * a * s + s * s;
    assert a * a == n * n * (x * x);
    assert 2 * a * s == 2 * n * s * x;
  }

  lemma DeviationsBoundSum(n: nat, s: int, q: int, d: nat)
    requires n > 0 && d == n * n * q - 2 * n * s * s + n * (s * s)
    ensures s * s <= n * q
  {
    assert n * n * q == n * (n * q);
    assert 2 * n * s * s == 2 * (n * (s * s));
    assert d == n * (n * q - s * s) by {
      Distribute(n, n * q, -(s * s));
    }
    NaturalFactor(n, n * q - s * s);
  }

  lemma NaturalFactor(n: nat, k: int)
    requires n > 0 && n * k >= 0
    ensures k >= 0
  {
  }

  /** The square of the sum is at most the size times the sum of the squares. */
  lemma SquareOfSumIsBounded(xs: seq<nat>)
    ensures Sum(xs) * Sum(xs) <= |xs| * SumOfSquares(xs)
  {
    if xs != [] {
      ScaledDeviationsExpand(xs, |xs|, Sum(xs));
      DeviationsBoundSum(|xs|, Sum(xs), SumOfSquares(xs), ScaledDeviations(xs, |xs|, Sum(xs)));
    }
  }

  lemma {:induction false} SumAtMostSquares(xs: seq<nat>)
    ensures Sum(xs) <= SumOfSquares(xs)
  {
    if xs != [] {
      SumAtMostSquares(xs[..|xs| - 1]);
      AtMostSquare(xs[|xs| - 1]);
    }
  }

  lemma AtMostSquare(x: nat)
    ensures x <= x * x
  {
    if x > 0 {
      assert x * x == x + x * (x - 1);
    }
  }

  lemma SquareMonotone(x: nat, y: nat)
    requires x <= y
    ensures x * x <= y * y
  {
    assert x * x <= x * y <= y * y;
  }

  lemma {:induction false} SquaresAtMost(xs: seq<nat>, max: nat)
    requires forall x | x in xs :: x <= max
    ensures SumOfSquares(xs) <= |xs| * (max * max)
  {
    if xs != [] {
      var front, x := xs[..|xs| - 1], xs[|xs| - 1];
      assert forall y | y in front :: y in xs;
      SquaresAtMost(front, max);
      assert x in xs;
      SquareMonotone(x, max);
      Distribute(max * max, |front|, 1);
    }
  }

  lemma BoundedProduct(n: nat, q: nat, max: nat)
    requires q <= n * (max * max)
    ensures n * q <= (n * max) * (n * max)
  {
    assert n * q <= n * (n * (max * max));
    assert n * (n * (max * max)) == (n * max) * (n * max);
  }

  /** What the arithmetic needs in order not to wrap. */
  predicate NoWrap(xs: seq<nat>) {
    |xs| * SumOfSquares(xs) < WORD
  }

  /** It is enough that the size times the largest input is below 2^32. */
  lemma SmallInputsDoNotWrap(xs: seq<nat>, max: nat)
    requires forall x | x in xs :: x <= max
    requires |xs| * max < 0x1_0000_0000
    ensures NoWrap(xs)
  {
    SquaresAtMost(xs, max);
    BoundedProduct(|xs|, SumOfSquares(xs), max);
    SquareMonotone(|xs| * max, 0xffff_ffff);
  }

  // ----- Wrapping -----

  lemma WrapAdd(a: int, b: int)
    ensures Wrap(Wrap(a) + b) == Wrap(a + b) == Wrap(a + Wrap(b))
  {
  }

  lemma WrapMultiple(a: int, k: int)
    ensures Wrap(a + k * WORD) == Wrap(a)
  {
  }

  lemma WrapMul(a: int, b: int)
    ensures Wrap(Wrap(a) * b) == Wrap(a * b)
  {
    var k := a / WORD;
    assert a == Wrap(a) + k * WORD;
    assert a * b == Wrap(a) * b + (k * b) * WORD;
    WrapMultiple(Wrap(a) * b, k * b);
  }

  lemma WrapSquare(a: int)
    ensures Wrap(Wrap(a) * Wrap(a)) == Wrap(a * a)
  {
    WrapMul(a, Wrap(a));
    WrapMul(a, a);
  }

  lemma WrapSmall(a: int)
    requires 0 <= a < WORD
    ensures Wrap(a) == a
  {
  }

  // ----- What the overflow checks detect -----

  function Front(ys: seq<nat>): seq<nat> {
    if ys == [] then [] else ys[..|ys| - 1]
  }

  ghost predicate AreWords(ys: seq<nat>) {
    forall i | 0 <= i < |ys| :: ys[i] < WORD
  }

  /** What the second loop adds up: every square is cut off to a word. */
  ghost function WrappedSquares(xs: seq<nat>): seq<nat> {
    seq(|xs|, i requires 0 <= i < |xs| => Wrap(xs[i] * xs[i]))
  }

  /**
    The inputs for which overflow is reported.  The check at the start of an
    iteration looks at all sums but the last one, and what is compared with
    the multiplied sum is the sum of all terms but the last one.
   */
  ghost predicate Reports(xs: seq<nat>) {
    || Sum(Front(xs)) >= WORD
    || Wrap(Sum(xs) * Sum(xs)) < Sum(Front(xs))
    || Sum(Front(WrappedSquares(xs))) >= WORD
    || Wrap(|xs| * SumOfSquares(xs)) < Sum(Front(WrappedSquares(xs)))
  }

  /** Before iteration `i` of either loop, which adds up `ys`. */
  ghost predicate Adding(ys: seq<nat>, i: nat, acc: int, previous: int) {
    && i <= |ys|
    && acc == Wrap(Sum(ys[..i]))
    && previous == (if i == 0 then 0 else Sum(ys[..i - 1]))
    && previous < WORD
  }

  lemma NextSum(ys: seq<nat>, i: nat)
    requires i < |ys|
    ensures Sum(ys[..i + 1]) == Sum(ys[..i]) + ys[i]
  {
    assert ys[..i + 1][..i] == ys[..i];
  }

  lemma {:induction false} PrefixSum(ys: seq<nat>, k: nat)
    requires k <= |ys|
    ensures Sum(ys[..k]) <= Sum(ys)
    decreases |ys|
  {
    if k == |ys| {
      assert ys[..k] == ys;
    } else {
      PrefixSum(Front(ys), k);
      assert Front(ys)[..k] == ys[..k];
    }
  }

  /** Adding a word once is noticed by the sum getting smaller. */
  lemma OneAddition(previous: nat, x: nat, total: nat)
    requires previous < WORD && x < WORD && total == previous + x
    ensures Wrap(total) < previous <==> total >= WORD
  {
    if total < WORD {
      WrapSmall(total);
    } else {
      WrapMultiple(total - WORD, 1);
      WrapSmall(total - WORD);
    }
  }

  /** One iteration: the check fails only if the sum of all but the last is too large. */
  lemma AddingStep(ys: seq<nat>, i: nat, acc: int, previous: int)
    requires AreWords(ys) && Adding(ys, i, acc, previous) && i < |ys|
    ensures acc < previous ==> Sum(Front(ys)) >= WORD
    ensures acc >= previous ==> Adding(ys, i + 1, Wrap(acc + ys[i]), acc)
  {
    assert Sum(ys[..0]) == 0;
    if 0 < i {
      NextSum(ys, i - 1);
      OneAddition(Sum(ys[..i - 1]), ys[i - 1], Sum(ys[..i]));
      PrefixSum(Front(ys), i);
      assert Front(ys)[..i] == ys[..i];
    }
    if acc >= previous {
      WrapSmall(Sum(ys[..i]));
      NextSum(ys, i);
    }
  }

  lemma Added(ys: seq<nat>, acc: int, previous: int)
    requires ys != [] && Adding(ys, |ys|, acc, previous)
    ensures acc == Wrap(Sum(ys)) && previous == Sum(Front(ys)) < WORD
  {
    assert ys[..|ys|] == ys;
  }

  lemma {:induction false} SumOfWrappedSquares(xs: seq<nat>)
    ensures Wrap(Sum(WrappedSquares(xs))) == Wrap(SumOfSquares(xs))
    ensures Sum(WrappedSquares(xs)) <= SumOfSquares(xs)
  {
    if xs != [] {
      var front, x := Front(xs), xs[|xs| - 1];
      SumOfWrappedSquares(front);
      assert WrappedSquares(xs)[..|xs| - 1] == WrappedSquares(front);
      AddWrapped(Sum(WrappedSquares(front)), SumOfSquares(front), x * x);
      AtMostSquare(x);
    }
  }

  lemma AddWrapped(a: int, b: int, x: nat)
    requires Wrap(a) == Wrap(b)
    ensures Wrap(a + Wrap(x)) == Wrap(b + x) && Wrap(x) <= x
  {
    WrapAdd(a, Wrap(x));
    WrapAdd(b, Wrap(x));
    WrapAdd(b, x);
  }

  /** If nothing wraps then nothing is reported. */
  lemma NoWrapIsSilent(xs: seq<nat>)
    requires xs != []
    ensures NoWrap(xs) ==> !Reports(xs) && VarianceNumerator(xs) < WORD
  {
    if NoWrap(xs) {
      NoWrapBounds(xs);
      PrefixSum(xs, |xs| - 1);
      PrefixSum(WrappedSquares(xs), |xs| - 1);
      SumOfWrappedSquares(xs);
      SilentFor(|xs|, Sum(xs), SumOfSquares(xs));
    }
  }

  lemma SilentFor(n: nat, s: nat, q: nat)
    requires 0 < n && n * q < WORD && s * s <= n * q
    ensures s <= Wrap(s * s) && q <= Wrap(n * q)
  {
    AtMostSquare(s);
    AtMostProduct(n, q);
    WrapSmall(s * s);
    WrapSmall(n * q);
  }

  lemma {:induction false} SumHas(ys: seq<nat>, i: nat)
    requires i < |ys|
    ensures ys[i] <= Sum(ys)
  {
    if i < |ys| - 1 {
      SumHas(Front(ys), i);
    }
  }

  /** A sum that is a multiple of 2^32 has a square that wraps to 0. */
  lemma SquareVanishes(s: int, k: int)
    requires s == k * 0x1_0000_0000
    ensures Wrap(s * s) == 0
  {
    assert s * s == (k * k) * WORD;
    WrapMultiple(0, k * k);
  }

  lemma ReportsSquareOfSum(xs: seq<nat>, k: nat, i: nat)
    requires Sum(xs) == k * 0x1_0000_0000 && i < |xs| - 1 && xs[i] > 0
    ensures Reports(xs)
  {
    SquareVanishes(Sum(xs), k);
    SumHas(Front(xs), i);
  }

  /** Inputs below 2^32 have squares that are not cut off. */
  lemma {:induction false} SmallSquares(xs: seq<nat>)
    requires forall i | 0 <= i < |xs| :: xs[i] < 0x1_0000_0000
    ensures Sum(WrappedSquares(xs)) == SumOfSquares(xs)
  {
    if xs != [] {
      var front, x := Front(xs), xs[|xs| - 1];
      SmallSquares(front);
      assert WrappedSquares(xs)[..|xs| - 1] == WrappedSquares(front);
      SquareMonotone(x, 0xffff_ffff);
      SquareIsNatural(x);
      WrapSmall(x * x);
    }
  }

  lemma FrontOfSquares(xs: seq<nat>)
    ensures Front(WrappedSquares(xs)) == WrappedSquares(Front(xs))
  {
  }

  lemma ReportsSumOfSquares(xs: seq<nat>)
    requires forall i | 0 <= i < |xs| - 1 :: xs[i] < 0x1_0000_0000
    requires SumOfSquares(Front(xs)) >= WORD
    ensures Reports(xs)
  {
    FrontOfSquares(xs);
    SmallSquares(Front(xs));
  }

  lemma PositiveSquare(x: nat)
    requires 0 < x < 0x1_0000_0000
    ensures 0 < Wrap(x * x)
  {
    SquareMonotone(x, 0xffff_ffff);
    AtMostSquare(x);
    WrapSmall(x * x);
  }

  lemma ReportsProduct(xs: seq<nat>, i: nat)
    requires Wrap(|xs| * SumOfSquares(xs)) == 0 && i < |xs| - 1 && 0 < xs[i] < 0x1_0000_0000
    ensures Reports(xs)
  {
    FrontOfSquares(xs);
    PositiveSquare(xs[i]);
    SumHas(WrappedSquares(Front(xs)), i);
  }

  lemma {:induction false} SumOfZeroes(ys: seq<nat>)
    requires forall i | 0 <= i < |ys| :: ys[i] == 0
    ensures Sum(ys) == 0
  {
    if ys != [] {
      SumOfZeroes(Front(ys));
    }
  }

  /** An overflow that the last input alone causes is never reported. */
  lemma LastAloneIsSilent(xs: seq<nat>)
    requires forall i | 0 <= i < |xs| - 1 :: xs[i] == 0
    ensures !Reports(xs)
  {
    FrontOfSquares(xs);
    SumOfZeroes(Front(xs));
    SumOfZeroes(WrappedSquares(Front(xs)));
  }

  /**
    Overflows that are reported, one kind for every check: a sum that does not
    fit, a square of the sum that vanishes, a sum of squares that does not
    fit, and a multiple of that sum that vanishes.
   */
  ghost predicate IsNoticed(xs: seq<nat>) {
    || Sum(Front(xs)) >= WORD
    || (Sum(xs) % 0x1_0000_0000 == 0 && exists i :: 0 <= i < |xs| - 1 && xs[i] > 0)
    || (SumOfSquares(Front(xs)) >= WORD && forall i | 0 <= i < |xs| - 1 :: xs[i] < 0x1_0000_0000)
    || (Wrap(|xs| * SumOfSquares(xs)) == 0 && exists i :: 0 <= i < |xs| - 1 && 0 < xs[i] < 0x1_0000_0000)
  }

  ghost predicate OnlyLast(xs: seq<nat>) {
    forall i | 0 <= i < |xs| - 1 :: xs[i] == 0
  }

  lemma NoticedIsReported(xs: seq<nat>)
    ensures IsNoticed(xs) ==> Reports(xs)
    ensures OnlyLast(xs) ==> !Reports(xs)
  {
    if i :| 0 <= i < |xs| - 1 && xs[i] > 0 && Sum(xs) % 0x1_0000_0000 == 0 {
      ReportsSquareOfSum(xs, Sum(xs) / 0x1_0000_0000, i);
    }
    if SumOfSquares(Front(xs)) >= WORD && forall i | 0 <= i < |xs| - 1 :: xs[i] < 0x1_0000_0000 {
      ReportsSumOfSquares(xs);
    }
    if i :| 0 <= i < |xs| - 1 && 0 < xs[i] < 0x1_0000_0000 && Wrap(|xs| * SumOfSquares(xs)) == 0 {
      ReportsProduct(xs, i);
    }
    if OnlyLast(xs) {
      LastAloneIsSilent(xs);
    }
  }

  /**
    Some overflows are missed: the square of 2^33 wraps to 0 in the last
    iteration, nothing is reported, and 0 is returned for a variance of 2^64.
   */
  lemma MissedOverflow(xs: seq<nat>)
    requires xs == [0, 0x2_0000_0000]
    ensures !Reports(xs) && VarianceNumerator(xs) == 4 * WORD
    ensures Wrap(VarianceNumerator(xs)) / 4 == 0 && PopulationVariance(xs).Floor == WORD
  {
    var x := 0x2_0000_0000;
    assert xs[..1] == [0];
    assert Sum([0]) == 0 && SumOfSquares([0]) == 0;
    assert Sum(xs) == x && SumOfSquares(xs) == x * x == 4 * WORD;
    var squares := WrappedSquares(xs);
    assert squares[..1] == [0];
    WrapMultiple(0, 4);
    WrapMultiple(0, 8);
    VarianceAsFraction(xs, 2, 4);
    FloorOfQuotient(4 * WORD, 4);
  }

  // ----- The function -----

  /** The first loop; `previous` is the sum before the last addition. */
  method AddInputs(inputs: array<nat>, size: int) returns (acc: int, previous: int, overflow: bool)
    requires 0 < size <= inputs.Length && AreWords(inputs[..size])
    ensures overflow <==> Sum(Front(inputs[..size])) >= WORD
    ensures !overflow ==> acc == Wrap(Sum(inputs[..size])) && previous == Sum(Front(inputs[..size]))
  {
    ghost var xs := inputs[..size];
    acc, previous := 0, 0;
    for i := 0 to size
      invariant Adding(xs, i, acc, previous)
    {
      AddingStep(xs, i, acc, previous);
      if acc < previous {
        return acc, previous, true;
      }
      previous := acc;
      acc := Wrap(acc + inputs[i]);
    }
    Added(xs, acc, previous);
    return acc, previous, false;
  }

  /** The second loop. */
  method AddSquares(inputs: array<nat>, size: int) returns (tempVar: int, previous: int, overflow: bool)
    requires 0 < size <= inputs.Length
    ensures overflow <==> Sum(Front(WrappedSquares(inputs[..size]))) >= WORD
    ensures !overflow ==> tempVar == Wrap(SumOfSquares(inputs[..size]))
    ensures !overflow ==> previous == Sum(Front(WrappedSquares(inputs[..size])))
  {
    ghost var squares := WrappedSquares(inputs[..size]);
    tempVar, previous := 0, 0;
    for i := 0 to size
      invariant Adding(squares, i, tempVar, previous)
    {
      AddingStep(squares, i, tempVar, previous);
      if tempVar < previous {
        return tempVar, previous, true;
      }
      previous := tempVar;
      var square := Wrap(inputs[i] * inputs[i]);
      assert square == squares[i];
      tempVar := Wrap(tempVar + square);
    }
    Added(squares, tempVar, previous);
    SumOfWrappedSquares(inputs[..size]);
    return tempVar, previous, false;
  }

  /**
    `reported` tells whether the overflow branch was taken.  Without it the
    result is the quotient of the wrapped difference.
   */
  method VarCalc(inputs: array<nat>, size: int) returns (r: int, reported: bool)
    requires 0 < size <= inputs.Length && size < 0x8000_0000
    requires AreWords(inputs[..size])
    ensures reported <==> Reports(inputs[..size])
    ensures IsNoticed(inputs[..size]) ==> reported
    ensures OnlyLast(inputs[..size]) ==> !reported
    ensures reported ==> r == MINUS_EINVAL == 0xffff_ffff_ffff_ffea
    ensures !reported ==> r == Wrap(VarianceNumerator(inputs[..size])) / (size * size)
    ensures var floor := PopulationVariance(inputs[..size]).Floor;
            r == floor <==>
              if Reports(inputs[..size]) then floor == MINUS_EINVAL else VarianceNumerator(inputs[..size]) < WORD
    ensures NoWrap(inputs[..size]) ==> !reported && r == PopulationVariance(inputs[..size]).Floor
  {
    ghost var xs := inputs[..size];
    ghost var s, q := Sum(xs), SumOfSquares(xs);
    NoWrapIsSilent(xs);
    NoticedIsReported(xs);
    var acc, previous, tempVar, overflow;
    acc, previous, overflow := AddInputs(inputs, size);
    if overflow {
      return MINUS_EINVAL, true;
    }
    WrapSquare(s);
    acc := Wrap(acc * acc);
    if acc < previous {
      return MINUS_EINVAL, true;
    }
    tempVar, previous, overflow := AddSquares(inputs, size);
    if overflow {
      return MINUS_EINVAL, true;
    }
    WrapProduct(q, size, tempVar);
    tempVar := Wrap(tempVar * size);
    if tempVar < previous {
      return MINUS_EINVAL, true;
    }
    QuotientStep(xs, size, s, q, tempVar, acc);
    return Wrap(tempVar - acc) / Wrap(size * size), false;
  }

  lemma WrapProduct(total: nat, n: nat, t: int)
    requires t == Wrap(total)
    ensures Wrap(t * n) == Wrap(n * total)
  {
    WrapMul(total, n);
    assert total * n == n * total;
  }

  lemma QuotientStep(xs: seq<nat>, n: nat, s: nat, q: nat, tempVar: int, acc: int)
    requires xs != [] && n == |xs| < 0x8000_0000 && s == Sum(xs) && q == SumOfSquares(xs)
    requires tempVar == Wrap(n * q) && acc == Wrap(s * s)
    ensures Wrap(n * n) == n * n > 0
    ensures Wrap(tempVar - acc) == Wrap(VarianceNumerator(xs))
    ensures Wrap(tempVar - acc) / (n * n) == PopulationVariance(xs).Floor <==> VarianceNumerator(xs) < WORD
  {
    NumeratorOf(xs, n, s, q);
    WrapDifference(n * q, s * s);
    DivisorFits(n);
    SquareOfSumIsBounded(xs);
    FloorOfVariance(xs, n, VarianceNumerator(xs), n * n);
  }

  lemma FloorOfVariance(xs: seq<nat>, n: nat, v: nat, d: nat)
    requires xs != [] && n == |xs| && v == VarianceNumerator(xs) && d == n * n <= WORD
    ensures d > 0 && (Wrap(v) / d == PopulationVariance(xs).Floor <==> v < WORD)
  {
    VarianceAsFraction(xs, n, d);
    FloorOfQuotient(v, d);
    WrappedQuotient(v, d);
  }

  lemma NoWrapBounds(xs: seq<nat>)
    requires xs != [] && NoWrap(xs)
    ensures Sum(xs) < WORD && SumOfSquares(xs) < WORD
    ensures Sum(xs) * Sum(xs) <= |xs| * SumOfSquares(xs) < WORD
    ensures 0 <= VarianceNumerator(xs) < WORD
  {
    SquareOfSumIsBounded(xs);
    SumAtMostSquares(xs);
    AtMostProduct(|xs|, SumOfSquares(xs));
    SquareIsNatural(Sum(xs));
  }

  lemma AtMostProduct(n: int, q: int)
    requires 0 < n && 0 <= q
    ensures q <= q * n
  {
    assert q * n == q + q * (n - 1);
  }

  lemma WrapDifference(a: int, b: int)
    ensures Wrap(Wrap(a) - Wrap(b)) == Wrap(a - b)
  {
    WrapAdd(a, -Wrap(b));
    var k := b / WORD;
    assert b == Wrap(b) + k * WORD;
    WrapMultiple(a - b, k);
  }

  /** A wrapped numerator gives the right quotient only if it did not wrap. */
  lemma WrappedQuotient(a: nat, b: nat)
    requires 0 < b <= WORD
    ensures Wrap(a) / b == a / b <==> a < WORD
  {
    if a >= WORD {
      LessByAWord(a);
      SmallerQuotient(Wrap(a), a, b, Wrap(a) / b, a / b, Wrap(a) % b, a % b);
    }
  }

  lemma LessByAWord(a: nat)
    requires a >= WORD
    ensures Wrap(a) + WORD <= a
  {
  }

  lemma SmallerQuotient(x: int, a: int, b: int, p: int, q: int, r: int, t: int)
    requires 0 < b && x + b <= a
    requires x == p * b + r && a == q * b + t && 0 <= r && t < b
    ensures p < q
  {
    Distribute(b, q, -p);
    PositiveFactor(b, q - p);
  }

  lemma PositiveFactor(n: int, k: int)
    requires n > 0 && n * k > 0
    ensures k > 0
  {
  }

  lemma DivisorFits(size: int)
    requires 0 < size < 0x8000_0000
    ensures Wrap(size * size) == size * size > 0
  {
    assert size * size <= 0x7fff_ffff * 0x7fff_ffff;
    assert size * size > 0;
    WrapSmall(size * size);
  }

  /** The statement for small inputs, in the terms of a caller. */
  lemma SmallInputsGiveVariance(xs: seq<nat>, max: nat)
    requires xs != [] && (forall x | x in xs :: x <= max) && |xs| * max < 0x1_0000_0000
    ensures NoWrap(xs)
    ensures PopulationVariance(xs).Floor == (|xs| * SumOfSquares(xs) - Sum(xs) * Sum(xs)) / (|xs| * |xs|)
    ensures 0 <= |xs| * SumOfSquares(xs) - Sum(xs) * Sum(xs) < WORD
  {
    SmallInputsDoNotWrap(xs, max);
    NoWrapBounds(xs);
    VarianceAsFraction(xs, |xs|, |xs| * |xs|);
    SquareIsPositive(|xs|);
    FloorOfQuotient(|xs| * SumOfSquares(xs) - Sum(xs) * Sum(xs), |xs| * |xs|);
  }
}
