/** Jain's fairness index over a group of byte counters, in 64-bit arithmetic. */
module Fairness {
  import opened Collections
  import opened Reals
  import opened Words

  /** The largest per-counter value for which a group of twenty never overflows. */
  const SAFE := 214748364
  const GROUP := 20

  function Squares(xs: seq<nat>): nat {
    if xs == [] then 0 else Squares(xs[..|xs| - 1]) + xs[|xs| - 1] * xs[|xs| - 1]
  }

  /** The sum of (x - xs[i])^2. */
  function Gaps(xs: seq<nat>, x: nat): nat {
    if xs == [] then 0 else Gaps(xs[..|xs| - 1], x) + Square(x - xs[|xs| - 1])
  }

  function Square(d: int): nat {
    Nonnegative(d);
    d * d
  }

  lemma Nonnegative(d: int)
    ensures d * d >= 0
    ensures d * d == 0 ==> d == 0
  {
  }

  predicate AllEqual(xs: seq<nat>) {
    forall i, j :: 0 <= i < |xs| && 0 <= j < |xs| ==> xs[i] == xs[j]
  }

  predicate AllAre(xs: seq<nat>, x: nat) {
    forall i :: 0 <= i < |xs| ==> xs[i] == x
  }

  predicate AtMost(xs: seq<nat>, x: nat) {
    forall i :: 0 <= i < |xs| ==> xs[i] <= x
  }

  lemma {:induction false} GapsAre(xs: seq<nat>, x: nat)
    ensures Gaps(xs, x) == Squares(xs) + |xs| * (x * x) - 2 * (x * Sum(xs))
  {
    if xs != [] {
      var n := |xs| - 1;
      GapsAre(xs[..n], x);
      GapStep(n, Squares(xs[..n]), Sum(xs[..n]), x, xs[n]);
    }
  }

  lemma GapStep(n: nat, q: nat, s: nat, x: nat, y: nat)
    ensures q + n * (x * x) - 2 * (x * s) + Square(x - y) == (q + y * y) + (n + 1) * (x * x) - 2 * (x * (s + y))
  {
    assert Square(x - y) == x * x + y * y - 2 * (x * y);
    assert (n + 1) * (x * x) == n * (x * x) + x * x;
    assert x * (s + y) == x * s + x * y;
  }

  lemma {:induction false} NoGaps(xs: seq<nat>, x: nat)
    ensures Gaps(xs, x) == 0 <==> AllAre(xs, x)
  {
    if xs != [] {
      var n := |xs| - 1;
      NoGaps(xs[..n], x);
      Nonnegative(x - xs[n]);
      assert AllAre(xs, x) <==> AllAre(xs[..n], x) && xs[n] == x;
    }
  }

  /** Cauchy-Schwarz for the counters, with its case of equality. */
  lemma {:induction false} SumSquaredBound(xs: seq<nat>)
    ensures Sum(xs) * Sum(xs) <= |xs| * Squares(xs)
    ensures Sum(xs) * Sum(xs) == |xs| * Squares(xs) <==> AllEqual(xs)
  {
    if xs != [] {
      var n := |xs| - 1;
      var front, x := xs[..n], xs[n];
      SumSquaredBound(front);
      GapsAre(front, x);
      NoGaps(front, x);
      Expand(n, Sum(front), Squares(front), x);
      assert |xs| * Squares(xs) - Sum(xs) * Sum(xs) == (n * Squares(front) - Sum(front) * Sum(front)) + Gaps(front, x);
      EqualSplits(xs);
    }
  }

  lemma EqualSplits(xs: seq<nat>)
    requires xs != []
    ensures AllEqual(xs) <==> AllEqual(xs[..|xs| - 1]) && AllAre(xs[..|xs| - 1], xs[|xs| - 1])
  {
    var n := |xs| - 1;
    if AllEqual(xs) {
      assert forall i :: 0 <= i < n ==> xs[i] == xs[n];
    }
    if AllAre(xs[..n], xs[n]) {
      assert forall i :: 0 <= i < n ==> xs[i] == xs[..n][i];
    }
  }

  lemma Expand(n: nat, s: nat, q: nat, x: nat)
    ensures (n + 1) * (q + x * x) - (s + x) * (s + x) == (n * q - s * s) + (q + n * (x * x) - 2 * (x * s))
  {
    assert (n + 1) * (q + x * x) == n * q + n * (x * x) + q + x * x;
    assert (s + x) * (s + x) == s * s + 2 * (x * s) + x * x;
  }

  /** Counters are not negative, so the square of the sum is at least the sum of the squares. */
  lemma {:induction false} SquaresBound(xs: seq<nat>)
    ensures Squares(xs) <= Sum(xs) * Sum(xs)
  {
    if xs != [] {
      var n := |xs| - 1;
      var s, x := Sum(xs[..n]), xs[n];
      SquaresBound(xs[..n]);
      assert (s + x) * (s + x) == s * s + 2 * (s * x) + x * x;
      assert s * x >= 0;
    }
  }

  lemma {:induction false} ZeroSquares(xs: seq<nat>)
    ensures Squares(xs) == 0 <==> AllAre(xs, 0)
  {
    if xs != [] {
      var n := |xs| - 1;
      ZeroSquares(xs[..n]);
      Nonnegative(xs[n]);
      assert AllAre(xs, 0) <==> AllAre(xs[..n], 0) && xs[n] == 0;
    }
  }

  /** Every product and sum of the computation for `xs` stays below 2^64. */
  predicate Fits(xs: seq<nat>) {
    |xs| * Squares(xs) < WORD64
  }

  /** The exact condition for computing without wrap-around: the denominator fits. Then the square of the sum and
      everything summed on the way fit too. */
  lemma FitsExactly(xs: seq<nat>)
    ensures Fits(xs) <==> Sum(xs) * Sum(xs) < WORD64 && |xs| * Squares(xs) < WORD64
    ensures Fits(xs) && xs != [] ==> Sum(xs) < WORD64 && Squares(xs) < WORD64
  {
    hide Sum, Squares;
    SumSquaredBound(xs);
    AtLeastItself(Sum(xs), Sum(xs));
    if xs != [] { AtLeastItself(|xs|, Squares(xs)); }
  }

  lemma AtLeastItself(n: nat, x: nat)
    requires n > 0 || x == 0
    ensures n * x >= x
  {
  }

  /** Twenty counters, none above SAFE, fit. */
  lemma SafeFits(xs: seq<nat>)
    requires |xs| <= GROUP && AtMost(xs, SAFE)
    ensures Fits(xs)
  {
    SquaresAtMost(xs, SAFE);
    Product(|xs|, Squares(xs), GROUP, GROUP * (SAFE * SAFE));
  }

  lemma {:induction false} SquaresAtMost(xs: seq<nat>, c: nat)
    requires AtMost(xs, c)
    ensures Squares(xs) <= |xs| * (c * c)
  {
    if xs != [] {
      var n := |xs| - 1;
      SquaresAtMost(xs[..n], c);
      Product(xs[n], xs[n], c, c);
      assert |xs| * (c * c) == n * (c * c) + c * c;
    }
  }

  /** SAFE is the largest such bound: with SAFE + 1 in each of twenty counters the products wrap. */
  lemma SafeIsLargest(xs: seq<nat>)
    requires |xs| == GROUP && AllAre(xs, SAFE + 1)
    ensures !Fits(xs)
  {
    SumOfEqual(xs, SAFE + 1);
    SumSquaredBound(xs);
  }

  lemma Product(a: nat, b: nat, c: nat, d: nat)
    requires a <= c && b <= d
    ensures a * b <= c * d
  {
    assert a * b <= c * b <= c * d;
  }

  lemma {:induction false} SumOfEqual(xs: seq<nat>, c: nat)
    requires AllAre(xs, c)
    ensures Sum(xs) == |xs| * c
  {
    if xs != [] {
      SumOfEqual(xs[..|xs| - 1], c);
    }
  }

  /** The printed quotient: 0/0, a positive number over 0, or a number. */
  datatype Index = NotANumber | Infinite | Index(value: real)

  function Quotient(a: nat, b: nat): Index {
    if b > 0 then Index(a as real / b as real) else if a == 0 then NotANumber else Infinite
  }

  /** Jain's index in exact arithmetic. */
  function JainIndex(xs: seq<nat>): Index {
    Quotient(Sum(xs) * Sum(xs), |xs| * Squares(xs))
  }

  class Counters {
    var bytes: seq<nat>

    /** InitializeCounters, for one group. */
    method Initialize()
      modifies this
      ensures |bytes| == old(|bytes|) && AllAre(bytes, 0)
    {
      for i := 0 to |bytes|
        invariant |bytes| == old(|bytes|) && forall k :: 0 <= k < i ==> bytes[k] == 0
      {
        bytes := bytes[i := 0];
      }
    }

    /** A trace callback: `size` more bytes arrived at sink `index`. */
    method TraceSink(index: nat, size: nat)
      requires index < |bytes|
      modifies this
      ensures bytes == old(bytes)[index := (old(bytes)[index] + size) % WORD64]
    {
      bytes := bytes[index := (bytes[index] + size) % WORD64];
    }

    /** Prints the quotient of the wrapped products; it is Jain's index whenever they fit. */
    method PrintFairness() returns (fairness: Index)
      requires bytes != []
      ensures fairness == Quotient(Wrap64(Sum(bytes) * Sum(bytes)), Wrap64(|bytes| * Squares(bytes)))
      ensures Fits(bytes) ==> fairness == JainIndex(bytes)
    {
      hide Sum, Squares, Add64, Mul64, Quotient;
      var sum, sumSquares := 0, 0;
      NothingSummed();
      for i := 0 to |bytes|
        invariant sum == Wrap64(Sum(bytes[..i])) && sumSquares == Wrap64(Squares(bytes[..i]))
      {
        OneMore(bytes, i);
        sum := Add64(sum, bytes[i]);
        sumSquares := Add64(sumSquares, Mul64(bytes[i], bytes[i]));
      }
      assert bytes[..|bytes|] == bytes;
      WrappedQuotient(bytes, sum, sumSquares);
      fairness := Quotient(Mul64(sum, sum), Mul64(|bytes|, sumSquares));
    }
  }

  lemma WrappedQuotient(xs: seq<nat>, sum: nat, sumSquares: nat)
    requires sum == Wrap64(Sum(xs)) && sumSquares == Wrap64(Squares(xs))
    ensures Mul64(sum, sum) == Wrap64(Sum(xs) * Sum(xs)) && Mul64(|xs|, sumSquares) == Wrap64(|xs| * Squares(xs))
    ensures Fits(xs) ==> Quotient(Mul64(sum, sum), Mul64(|xs|, sumSquares)) == JainIndex(xs)
  {
    hide Sum, Squares, Quotient, Mul64, Wrap64;
    FitsExactly(xs);
    WrapProduct(Sum(xs), Sum(xs));
    WrapProduct(|xs|, Squares(xs));
    Wrapped(Sum(xs), Sum(xs));
    Wrapped(|xs|, Squares(xs));
  }

  lemma NothingSummed()
    ensures Sum([]) == 0 && Squares([]) == 0
  {
  }

  lemma OneMore(xs: seq<nat>, i: nat)
    requires i < |xs|
    ensures Add64(Wrap64(Sum(xs[..i])), xs[i]) == Wrap64(Sum(xs[..i + 1]))
    ensures Add64(Wrap64(Squares(xs[..i])), Mul64(xs[i], xs[i])) == Wrap64(Squares(xs[..i + 1]))
  {
    assert xs[..i + 1][..i] == xs[..i];
    AddWraps(Sum(xs[..i]), xs[i]);
    AddWraps(Squares(xs[..i]), xs[i] * xs[i]);
  }

  lemma Wrapped(a: nat, b: nat)
    ensures Mul64(a, b) == Wrap64(a * b)
    ensures a * b < WORD64 ==> Mul64(a, b) == a * b
  {
  }

  /** Factors may be wrapped before multiplying. */
  lemma WrapProduct(a: nat, b: nat)
    ensures Mul64(Wrap64(a), Wrap64(b)) == Mul64(a, b) == Mul64(a, Wrap64(b))
  {
    hide Mul64, Wrap64;
    WrapFactor(a, b);
    WrapFactor(b, Wrap64(a));
    WrapFactor(b, a);
  }

  lemma WrapFactor(a: nat, b: nat)
    ensures Mul64(a, b) == Mul64(b, a) == Mul64(b, Wrap64(a))
  {
    var k, r := a / WORD64, a % WORD64;
    assert a * b == b * r + (k * b) * WORD64;
    WrapMultiple(b * r, k * b);
  }

  /** Jain's index lies between 1/n and 1 and is 1 exactly when all counters are equal; it is 0/0 exactly when all are
      zero. */
  lemma JainBounds(xs: seq<nat>)
    requires xs != []
    ensures JainIndex(xs).NotANumber? <==> AllAre(xs, 0)
    ensures !JainIndex(xs).Infinite?
    ensures JainIndex(xs).Index? ==> 1.0 / |xs| as real <= JainIndex(xs).value <= 1.0
    ensures JainIndex(xs).Index? ==> (JainIndex(xs).value == 1.0 <==> AllEqual(xs))
  {
    hide Sum, Squares, AllEqual, AllAre;
    ZeroSquares(xs);
    SumSquaredBound(xs);
    if Squares(xs) > 0 {
      AtLeastItself(|xs|, Squares(xs));
      IndexBounds(xs, JainIndex(xs).value);
    } else {
      assert |xs| * Squares(xs) == 0;
      Nonnegative(Sum(xs));
    }
  }

  /** One counter at 2^31 and nineteen at zero: the denominator wraps to zero, and infinity is printed. */
  lemma WrapPrintsInfinity(xs: seq<nat>)
    requires |xs| == GROUP && xs[0] == 0x8000_0000 && AllAre(xs[1..], 0)
    ensures !Fits(xs) && JainIndex(xs) == Index(1.0 / 20.0)
    ensures Quotient(Wrap64(Sum(xs) * Sum(xs)), Wrap64(|xs| * Squares(xs))).Infinite?
  {
    OnlyFirst(xs);
  }

  lemma {:induction false} OnlyFirst(xs: seq<nat>)
    requires xs != [] && AllAre(xs[1..], 0)
    ensures Sum(xs) == xs[0] && Squares(xs) == xs[0] * xs[0]
  {
    if |xs| > 1 {
      var n := |xs| - 1;
      assert xs[1..][n - 1] == xs[n];
      assert forall i :: 0 <= i < n - 1 ==> xs[..n][1..][i] == xs[1..][i];
      OnlyFirst(xs[..n]);
    } else {
      assert xs == [xs[0]] && xs[..0] == [];
    }
  }

  lemma IndexBounds(xs: seq<nat>, v: real)
    requires xs != [] && Squares(xs) > 0 && |xs| * Squares(xs) > 0
    requires v == (Sum(xs) * Sum(xs)) as real / (|xs| * Squares(xs)) as real
    ensures 1.0 / |xs| as real <= v <= 1.0
    ensures v == 1.0 <==> AllEqual(xs)
  {
    hide Sum, Squares, AllEqual;
    SumSquaredBound(xs);
    SquaresBound(xs);
    Divide(Sum(xs) * Sum(xs), |xs|, Squares(xs), v);
  }

  lemma Divide(a: nat, n: nat, q: nat, v: real)
    requires n > 0 && q > 0 && n * q > 0 && q <= a <= n * q && v == a as real / (n * q) as real
    ensures 1.0 / n as real <= v <= 1.0 && (v == 1.0 <==> a == n * q) && v * (n * q) as real == a as real
  {
    Divided(a as real, (n * q) as real);
    CastProduct(n, q);
    QuotientBounds(a as real, n as real, q as real, (n * q) as real, v);
  }

  lemma QuotientBounds(a: real, n: real, q: real, m: real, v: real)
    requires n > 0.0 && q > 0.0 && m == n * q && m > 0.0 && q <= a <= m && v * m == a
    ensures 1.0 / n <= v <= 1.0 && (v == 1.0 <==> a == m)
  {
    var w := 1.0 / n;
    Divided(1.0, n);
    Associate(w, n, q);
    Scaled(v, 1.0, m);
    Scaled(w, v, m);
  }

  lemma Associate(w: real, n: real, q: real)
    ensures w * (n * q) == (w * n) * q
  {
  }
}
