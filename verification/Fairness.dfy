/** Jain's fairness index as `PrintFairness` computes it: sums in 64-bit unsigned arithmetic,
    one division at the end. */
module Fairness {

  const WORD := 0x1_0000_0000_0000_0000

  function Sum(xs: seq<nat>): nat {
    if xs == [] then 0 else Sum(xs[..|xs| - 1]) + xs[|xs| - 1]
  }

  function SumSquares(xs: seq<nat>): nat {
    if xs == [] then 0 else SumSquares(xs[..|xs| - 1]) + xs[|xs| - 1] * xs[|xs| - 1]
  }

  /** What a uint64_t keeps of a number. */
  function Wrap(n: nat): nat {
    n % WORD
  }

  lemma WrapAdd(a: nat, b: nat)
    ensures Wrap(Wrap(a) + b) == Wrap(a + b)
    ensures Wrap(Wrap(a) + Wrap(b)) == Wrap(a + b)
  {
    var x, y, c := a / WORD, b / WORD, a % WORD + b % WORD;
    assert a == x * WORD + a % WORD && b == y * WORD + b % WORD && c == c / WORD * WORD + c % WORD;
    WrapPart(c / WORD, c % WORD, c);
    WrapPart(y + c / WORD, c % WORD, a % WORD + b);
    WrapPart(x + y + c / WORD, c % WORD, a + b);
  }

  lemma WrapPart(q: nat, r: nat, n: nat)
    requires r < WORD && n == q * WORD + r
    ensures Wrap(n) == r
  {
  }

  /** 64 bits are kept. */
  lemma WrapIs(n: nat)
    ensures 0 <= Wrap(n) < 18446744073709551616 && (n - Wrap(n)) % 18446744073709551616 == 0
  {
    WrapPart(n / WORD, n % WORD, n);
    assert n - n % WORD == WORD * (n / WORD);
  }

  lemma SumsGrow(xs: seq<nat>, i: nat)
    requires i < |xs|
    ensures Sum(xs[..i + 1]) == Sum(xs[..i]) + xs[i]
    ensures SumSquares(xs[..i + 1]) == SumSquares(xs[..i]) + xs[i] * xs[i]
  {
    assert xs[..i + 1][..i] == xs[..i];
  }

  lemma NothingSummed()
    ensures Sum([]) == 0 && SumSquares([]) == 0 && Wrap(0) == 0
  {
  }

  /** The loop over the counters and the two products, wrapping around as uint64_t does. */
  method Sums(rxBytes: seq<nat>) returns (sum: nat, sumSquares: nat, numerator: nat, denominator: nat)
    ensures sum == Wrap(Sum(rxBytes)) && sumSquares == Wrap(SumSquares(rxBytes))
    ensures numerator == Wrap(sum * sum) && denominator == Wrap(|rxBytes| * sumSquares)
  {
    hide Wrap, Sum, SumSquares;
    NothingSummed();
    sum, sumSquares := 0, 0;
    for i := 0 to |rxBytes|
      invariant sum == Wrap(Sum(rxBytes[..i])) && sumSquares == Wrap(SumSquares(rxBytes[..i]))
    {
      SumsGrow(rxBytes, i);
      var square := Wrap(rxBytes[i] * rxBytes[i]);
      WrapAdd(Sum(rxBytes[..i]), rxBytes[i]);
      WrapAdd(SumSquares(rxBytes[..i]), rxBytes[i] * rxBytes[i]);
      sum := Wrap(sum + rxBytes[i]);
      sumSquares := Wrap(sumSquares + square);
    }
    assert rxBytes[..|rxBytes|] == rxBytes;
    numerator := Wrap(sum * sum);
    denominator := Wrap(|rxBytes| * sumSquares);
  }

  // ---------------------------------------------------------------- the values fit

  lemma {:induction false} SumBound(xs: seq<nat>, bound: nat)
    requires forall i :: 0 <= i < |xs| ==> xs[i] <= bound
    ensures Sum(xs) <= |xs| * bound && SumSquares(xs) <= |xs| * (bound * bound)
  {
    if xs != [] {
      var x := xs[|xs| - 1];
      SumBound(xs[..|xs| - 1], bound);
      SquareGrows(x, bound);
      assert |xs| * bound == (|xs| - 1) * bound + bound;
      assert |xs| * (bound * bound) == (|xs| - 1) * (bound * bound) + bound * bound;
    }
  }

  lemma SquareGrows(x: nat, y: nat)
    requires x <= y
    ensures x * x <= y * y
  {
  }

  /** With the counters bounded so that their sum fits 32 bits, nothing wraps around. */
  lemma NoWrap(xs: seq<nat>, bound: nat)
    requires forall i :: 0 <= i < |xs| ==> xs[i] <= bound
    requires |xs| * bound < 0x1_0000_0000
    ensures Sum(xs) < WORD && SumSquares(xs) < WORD
    ensures Sum(xs) * Sum(xs) < WORD && |xs| * SumSquares(xs) < WORD
  {
    SumBound(xs, bound);
    ProductsFit(|xs|, bound, Sum(xs), SumSquares(xs));
  }

  lemma ProductsFit(n: nat, b: nat, s: nat, q: nat)
    requires s <= n * b && q <= n * (b * b) && n * b < 0x1_0000_0000
    ensures s < WORD && q < WORD && s * s < WORD && n * q < WORD
  {
    SquareGrows(s, n * b);
    SquareGrows(n * b, 0xFFFF_FFFF);
    Regroup(n, b);
    MulGrows(n, q, n * (b * b));
    if n > 0 {
      MulGrows(q, 1, n);
    }
  }

  lemma NonNegative(a: nat, b: nat)
    ensures a * b >= 0
  {
  }

  lemma Regroup(n: nat, b: nat)
    ensures n * (n * (b * b)) == (n * b) * (n * b)
  {
    calc {
      n * (n * (b * b));
      n * ((n * b) * b);
      n * (b * (n * b));
      (n * b) * (n * b);
    }
  }

  lemma MulGrows(n: nat, x: nat, y: nat)
    requires x <= y
    ensures n * x <= n * y
  {
  }

  // ---------------------------------------------------------------- the index

  /** Jain's index of the counters, exactly. */
  ghost function Index(xs: seq<nat>): real
    requires |xs| * SumSquares(xs) > 0
  {
    (Sum(xs) * Sum(xs)) as real / (|xs| * SumSquares(xs)) as real
  }

  ghost predicate AllEqual(xs: seq<nat>) {
    forall i, j :: 0 <= i < j < |xs| ==> xs[i] == xs[j]
  }

  /** The sum of the squared distances to `y`. */
  ghost function Spread(xs: seq<nat>, y: int): nat {
    if xs == [] then 0
    else
      var d := xs[|xs| - 1] - y;
      SquareNonNegative(d);
      Spread(xs[..|xs| - 1], y) + d * d
  }

  lemma SquareNonNegative(d: int)
    ensures d * d >= 0 && (d * d == 0 <==> d == 0)
  {
  }

  lemma SquareOfDifference(x: int, y: int)
    ensures (x - y) * (x - y) == x * x - 2 * (y * x) + y * y
  {
  }

  lemma SquareOfSum(x: int, y: int)
    ensures (x + y) * (x + y) == x * x + 2 * (y * x) + y * y
  {
  }

  lemma Distribute(n: int, x: int, y: int)
    ensures n * (x + y) == n * x + n * y && (n + 1) * x == n * x + x
  {
  }

  lemma {:induction false} SpreadIs(xs: seq<nat>, y: int)
    ensures Spread(xs, y) == SumSquares(xs) - 2 * (y * Sum(xs)) + |xs| * (y * y)
  {
    if xs != [] {
      var front, x := xs[..|xs| - 1], xs[|xs| - 1];
      SpreadIs(front, y);
      SquareOfDifference(x, y);
      Distribute(y, Sum(front), x);
      Distribute(|front|, y * y, 0);
    }
  }

  lemma {:induction false} SpreadZero(xs: seq<nat>, y: int)
    ensures Spread(xs, y) == 0 <==> forall i :: 0 <= i < |xs| ==> xs[i] == y
  {
    if xs != [] {
      SpreadZero(xs[..|xs| - 1], y);
      SquareNonNegative(xs[|xs| - 1] - y);
    }
  }

  /** What the square of the sum lacks, counter by counter. */
  lemma LackStep(xs: seq<nat>)
    requires xs != []
    ensures var front, x := xs[..|xs| - 1], xs[|xs| - 1];
      |xs| * SumSquares(xs) - Sum(xs) * Sum(xs)
      == (|front| * SumSquares(front) - Sum(front) * Sum(front)) + Spread(front, x)
  {
    var front, x := xs[..|xs| - 1], xs[|xs| - 1];
    SpreadIs(front, x);
    Lack(|front|, Sum(front), SumSquares(front), x);
  }

  lemma Lack(n: int, s: int, q: int, x: int)
    ensures (n + 1) * (q + x * x) - (s + x) * (s + x) == (n * q - s * s) + (q - 2 * (x * s) + n * (x * x))
  {
    SquareOfSum(s, x);
    Distribute(n, q, x * x);
    Distribute(n, q + x * x, 0);
  }

  /** The square of the sum is at most n times the sum of squares, with equality exactly for
      equal counters; and it is at least the sum of squares. */
  lemma {:induction false} SumsCompare(xs: seq<nat>)
    ensures Sum(xs) * Sum(xs) <= |xs| * SumSquares(xs)
    ensures Sum(xs) * Sum(xs) == |xs| * SumSquares(xs) <==> AllEqual(xs)
    ensures SumSquares(xs) <= Sum(xs) * Sum(xs)
  {
    if xs != [] {
      var front, x := xs[..|xs| - 1], xs[|xs| - 1];
      SumsCompare(front);
      LackStep(xs);
      SpreadZero(front, x);
      EqualFront(xs);
      SquareOfSum(Sum(front), x);
      NonNegative(x, Sum(front));
    }
  }

  lemma EqualFront(xs: seq<nat>)
    requires xs != []
    ensures var front, x := xs[..|xs| - 1], xs[|xs| - 1];
      AllEqual(xs) <==> AllEqual(front) && forall i :: 0 <= i < |front| ==> front[i] == x
  {
    var front, x := xs[..|xs| - 1], xs[|xs| - 1];
    if AllEqual(front) && forall i :: 0 <= i < |front| ==> front[i] == x {
      forall i, j | 0 <= i < j < |xs| ensures xs[i] == xs[j] {
        assert front[i] == xs[i];
      }
    }
  }

  lemma {:induction false} SquaresPositive(xs: seq<nat>)
    ensures SumSquares(xs) > 0 <==> exists i :: 0 <= i < |xs| && xs[i] > 0
  {
    if xs != [] {
      SquaresPositive(xs[..|xs| - 1]);
      SquareNonNegative(xs[|xs| - 1]);
      assert forall i :: 0 <= i < |xs| - 1 ==> xs[..|xs| - 1][i] == xs[i];
    }
  }

  lemma DivideBoth(a: nat, b: nat, n: nat)
    requires b > 0 && n > 0 && a <= b && b <= n * a
    ensures 1.0 / n as real <= a as real / b as real <= 1.0
    ensures a as real / b as real == 1.0 <==> a == b
  {
    var x, y, m := a as real, b as real, n as real;
    assert (n * a) as real == m * x;
    Quotient(x, y);
    Quotient(1.0, m);
    QuotientAtLeast(x, y, m);
  }

  lemma Quotient(x: real, y: real)
    requires y > 0.0
    ensures x / y * y == x
    ensures x <= y ==> x / y <= 1.0
    ensures x / y == 1.0 <==> x == y
  {
  }

  lemma QuotientAtLeast(x: real, y: real, m: real)
    requires y > 0.0 && m > 0.0 && y <= m * x
    ensures 1.0 / m <= x / y
  {
    var p, q := 1.0 / m, x / y;
    assert p * m == 1.0 && q * y == x;
  }

  /** Within the bound and with some byte received, what is divided are the exact sums, and the
      index lies between 1/n and 1, reaching 1 exactly when all counters are equal. */
  lemma IndexRange(xs: seq<nat>, bound: nat)
    requires forall i :: 0 <= i < |xs| ==> xs[i] <= bound
    requires |xs| * bound < 0x1_0000_0000 && exists i :: 0 <= i < |xs| && xs[i] > 0
    ensures |xs| * SumSquares(xs) > 0
    ensures Wrap(Sum(xs)) == Sum(xs) && Wrap(SumSquares(xs)) == SumSquares(xs)
    ensures Wrap(Sum(xs) * Sum(xs)) == Sum(xs) * Sum(xs)
    ensures Wrap(|xs| * SumSquares(xs)) == |xs| * SumSquares(xs)
    ensures Index(xs) * (|xs| * SumSquares(xs)) as real == (Sum(xs) * Sum(xs)) as real
    ensures 1.0 / |xs| as real <= Index(xs) <= 1.0
    ensures Index(xs) == 1.0 <==> AllEqual(xs)
  {
    hide Wrap, Index, Sum, SumSquares;
    NoWrap(xs, bound);
    SquaresPositive(xs);
    Positive(|xs|, SumSquares(xs));
    IndexBetween(xs);
    WrapSmall(Sum(xs));
    WrapSmall(SumSquares(xs));
    WrapSmall(Sum(xs) * Sum(xs));
    WrapSmall(|xs| * SumSquares(xs));
  }

  lemma Positive(a: nat, b: nat)
    requires a > 0 && b > 0
    ensures a * b > 0
  {
  }

  lemma WrapSmall(n: nat)
    requires n < WORD
    ensures Wrap(n) == n
  {
  }

  lemma IndexBetween(xs: seq<nat>)
    requires |xs| * SumSquares(xs) > 0
    ensures Index(xs) * (|xs| * SumSquares(xs)) as real == (Sum(xs) * Sum(xs)) as real
    ensures |xs| > 0 && 1.0 / |xs| as real <= Index(xs) <= 1.0
    ensures Index(xs) == 1.0 <==> AllEqual(xs)
  {
    hide Sum, SumSquares, AllEqual;
    var a, b := Sum(xs) * Sum(xs), |xs| * SumSquares(xs);
    SumsCompare(xs);
    MulGrows(|xs|, SumSquares(xs), a);
    Quotient(a as real, b as real);
    DivideBoth(a, b, |xs|);
  }
}
