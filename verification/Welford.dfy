/** The one-pass mean and second moment of the scheduler benchmark, over the reals. */
module Welford {

  datatype PhaseResult = PhaseResult(time: real, rate: real, period: real)

  datatype Result = Result(init: PhaseResult, run: PhaseResult)

  ghost function Sum(xs: seq<real>): real {
    if xs == [] then 0.0 else Sum(xs[..|xs| - 1]) + xs[|xs| - 1]
  }

  /** The sum of the squared deviations from `m`. */
  ghost function SquaredDeviations(xs: seq<real>, m: real): real {
    if xs == [] then 0.0
    else SquaredDeviations(xs[..|xs| - 1], m) + Times(xs[|xs| - 1] - m, xs[|xs| - 1] - m)
  }

  function Times(a: real, b: real): real {
    a * b
  }

  /** What moving the centre from `a` to `b` adds to the squared deviations of `n` numbers with the given sum. */
  ghost function Shift(a: real, b: real, sum: real, n: real): real {
    2.0 * (a - b) * (sum - n * a) + n * (a - b) * (a - b)
  }

  /** `average` is the arithmetic mean of `xs`, and `moment2` their sum of squared deviations from it. */
  ghost predicate Tracks(xs: seq<real>, average: real, moment2: real) {
    && (|xs| > 0 ==> average * |xs| as real == Sum(xs))
    && moment2 == SquaredDeviations(xs, average)
  }

  /** Moving the centre: the deviations from `b` in terms of those from `a`. */
  lemma {:induction false} Recentre(xs: seq<real>, a: real, b: real)
    ensures SquaredDeviations(xs, b) == SquaredDeviations(xs, a) + Shift(a, b, Sum(xs), |xs| as real)
  {
    if xs == [] {
      EmptyShift(a, b);
    } else {
      hide Shift, Times;
      var front, x := xs[..|xs| - 1], xs[|xs| - 1];
      Recentre(front, a, b);
      assert |xs| as real == |front| as real + 1.0;
      ShiftStep(a, b, Sum(front), |front| as real, x);
    }
  }

  lemma EmptyShift(a: real, b: real)
    ensures Shift(a, b, 0.0, 0.0) == 0.0
  {
  }

  lemma ShiftStep(a: real, b: real, sum: real, n: real, x: real)
    ensures Shift(a, b, sum, n) + Times(x - b, x - b) == Times(x - a, x - a) + Shift(a, b, sum + x, n + 1.0)
  {
    var u, v := a - b, x - a;
    assert x - b == v + u;
    assert (v + u) * (v + u) == v * v + 2.0 * u * v + u * u;
    assert 2.0 * u * ((sum + x) - (n + 1.0) * a) == 2.0 * u * (sum - n * a) + 2.0 * u * v;
    assert (n + 1.0) * u * u == n * u * u + u * u;
  }

  lemma StepIdentity(c: real, d: real, e: real)
    requires c * e == d
    ensures (c - 1.0) * (e * e) + (d - e) * (d - e) == d * (d - e)
  {
    assert d - e == (c - 1.0) * e;
    var k := c - 1.0;
    assert k * (e * e) + (k * e) * (k * e) == (k * e) * ((1.0 + k) * e);
  }

  /** The expressions of the ACCUMULATE macro, for one field. */
  function NextAverage(average: real, x: real, count: nat): real
    requires count > 0
  {
    average + (x - average) / count as real
  }

  function NextMoment(moment2: real, average: real, x: real, count: nat): real
    requires count > 0
  {
    moment2 + Times(x - average, x - NextAverage(average, x, count))
  }

  /** One more sample. With no samples yet, any starting average will do. */
  lemma Accumulated(xs: seq<real>, average: real, moment2: real, x: real)
    requires Tracks(xs, average, moment2)
    ensures Tracks(xs + [x], NextAverage(average, x, |xs| + 1), NextMoment(moment2, average, x, |xs| + 1))
  {
    hide NextAverage, Shift, Times, SquaredDeviations, Sum;
    var n := |xs|;
    var next := NextAverage(average, x, n + 1);
    var e := Increment(average, x, n + 1);
    MeanExtends(xs, x, next);
    MeanMoves(n as real, average, e, x, Sum(xs), xs == []);
    Recentre(xs, average, next);
    MomentMoves(n as real, average, e, x, Sum(xs));
  }

  lemma Increment(average: real, x: real, count: nat) returns (e: real)
    requires count > 0
    ensures count as real * e == x - average && NextAverage(average, x, count) == average + e
  {
    e := (x - average) / count as real;
  }

  lemma MeanExtends(xs: seq<real>, x: real, m: real)
    ensures Sum(xs + [x]) == Sum(xs) + x
    ensures SquaredDeviations(xs + [x], m) == SquaredDeviations(xs, m) + Times(x - m, x - m)
    ensures xs == [] ==> Sum(xs) == 0.0
  {
    assert (xs + [x])[..|xs|] == xs;
  }

  lemma MomentMoves(n: real, average: real, e: real, x: real, sum: real)
    requires (n + 1.0) * e == x - average && sum == average * n
    ensures var next := average + e;
            Shift(average, next, sum, n) + Times(x - next, x - next) == Times(x - average, x - next)
  {
    var next := average + e;
    StepIdentity(n + 1.0, x - average, e);
    assert sum - n * average == 0.0;
    assert n * (average - next) * (average - next) == n * (e * e);
  }

  lemma MeanMoves(n: real, average: real, e: real, x: real, sum: real, first: bool)
    requires (n + 1.0) * e == x - average
    requires if first then n == 0.0 && sum == 0.0 else average * n == sum
    ensures (average + e) * (n + 1.0) == sum + x
  {
    assert (average + e) * (n + 1.0) == average * n + average + (n + 1.0) * e;
  }

  /** One column of the results. */
  ghost function Column(results: seq<Result>, field: Result -> real): seq<real> {
    seq(|results|, i requires 0 <= i < |results| => field(results[i]))
  }

  lemma ColumnGrows(results: seq<Result>, n: nat, field: Result -> real)
    requires n < |results|
    ensures Column(results[..n + 1], field) == Column(results[..n], field) + [field(results[n])]
  {
  }

  ghost function InitTime(): Result -> real { (r: Result) => r.init.time }
  ghost function InitRate(): Result -> real { (r: Result) => r.init.rate }
  ghost function InitPeriod(): Result -> real { (r: Result) => r.init.period }
  ghost function RunTime(): Result -> real { (r: Result) => r.run.time }
  ghost function RunRate(): Result -> real { (r: Result) => r.run.rate }
  ghost function RunPeriod(): Result -> real { (r: Result) => r.run.period }

  ghost predicate Follows(results: seq<Result>, average: Result, moment2: Result, field: Result -> real) {
    Tracks(Column(results, field), field(average), field(moment2))
  }

  /** All six columns. */
  ghost predicate AllFollow(results: seq<Result>, average: Result, moment2: Result) {
    && Follows(results, average, moment2, InitTime()) && Follows(results, average, moment2, InitRate())
    && Follows(results, average, moment2, InitPeriod()) && Follows(results, average, moment2, RunTime())
    && Follows(results, average, moment2, RunRate()) && Follows(results, average, moment2, RunPeriod())
  }

  function NextPhase(average: PhaseResult, x: PhaseResult, count: nat): PhaseResult
    requires count > 0
  {
    PhaseResult(NextAverage(average.time, x.time, count), NextAverage(average.rate, x.rate, count),
                NextAverage(average.period, x.period, count))
  }

  function NextPhaseMoment(moment2: PhaseResult, average: PhaseResult, x: PhaseResult, count: nat): PhaseResult
    requires count > 0
  {
    PhaseResult(
      NextMoment(moment2.time, average.time, x.time, count),
      NextMoment(moment2.rate, average.rate, x.rate, count),
      NextMoment(moment2.period, average.period, x.period, count))
  }

  lemma FieldFollows(results: seq<Result>, n: nat, average: Result, moment2: Result, average': Result,
                     moment2': Result, field: Result -> real)
    requires n < |results| && Follows(results[..n], average, moment2, field)
    requires field(average') == NextAverage(field(average), field(results[n]), n + 1)
    requires field(moment2') == NextMoment(field(moment2), field(average), field(results[n]), n + 1)
    ensures Follows(results[..n + 1], average', moment2', field)
  {
    ColumnGrows(results, n, field);
    Accumulated(Column(results[..n], field), field(average), field(moment2), field(results[n]));
  }

  /** All six columns, field by field. */
  ghost predicate MeansAre(results: seq<Result>, average: Result, moment2: Result) {
    && Tracks(seq(|results|, i requires 0 <= i < |results| => results[i].init.time),
              average.init.time, moment2.init.time)
    && Tracks(seq(|results|, i requires 0 <= i < |results| => results[i].init.rate),
              average.init.rate, moment2.init.rate)
    && Tracks(seq(|results|, i requires 0 <= i < |results| => results[i].init.period),
              average.init.period, moment2.init.period)
    && Tracks(seq(|results|, i requires 0 <= i < |results| => results[i].run.time),
              average.run.time, moment2.run.time)
    && Tracks(seq(|results|, i requires 0 <= i < |results| => results[i].run.rate),
              average.run.rate, moment2.run.rate)
    && Tracks(seq(|results|, i requires 0 <= i < |results| => results[i].run.period),
              average.run.period, moment2.run.period)
  }

  /** BenchSuite::Log, up to the square roots: nothing is logged for fewer than two runs. */
  method Log(results: seq<Result>) returns (logged: bool, average: Result, moment2: Result)
    ensures logged <==> |results| >= 2
    ensures logged ==> MeansAre(results, average, moment2)
  {
    var zero := PhaseResult(0.0, 0.0, 0.0);
    average, moment2 := Result(zero, zero), Result(zero, zero);
    if |results| < 2 { return false, average, moment2; }
    average := results[0];
    hide NextAverage, NextMoment, Follows;
    NothingFollows(average, moment2);
    for n := 0 to |results|
      invariant AllFollow(results[..n], average, moment2)
    {
      var run := results[n];
      var count := n + 1;
      var average' := Result(NextPhase(average.init, run.init, count), NextPhase(average.run, run.run, count));
      var moment2' := Result(NextPhaseMoment(moment2.init, average.init, run.init, count),
                             NextPhaseMoment(moment2.run, average.run, run.run, count));
      FieldFollows(results, n, average, moment2, average', moment2', InitTime());
      FieldFollows(results, n, average, moment2, average', moment2', InitRate());
      FieldFollows(results, n, average, moment2, average', moment2', InitPeriod());
      FieldFollows(results, n, average, moment2, average', moment2', RunTime());
      FieldFollows(results, n, average, moment2, average', moment2', RunRate());
      FieldFollows(results, n, average, moment2, average', moment2', RunPeriod());
      average, moment2 := average', moment2';
    }
    assert results[..|results|] == results;
    ColumnsAre(results, average, moment2);
    return true, average, moment2;
  }

  lemma ColumnsAre(results: seq<Result>, average: Result, moment2: Result)
    requires AllFollow(results, average, moment2)
    ensures MeansAre(results, average, moment2)
  {
    hide Tracks;
    assert Column(results, InitTime()) == seq(|results|, i requires 0 <= i < |results| => results[i].init.time);
    assert Column(results, InitRate()) == seq(|results|, i requires 0 <= i < |results| => results[i].init.rate);
    assert Column(results, InitPeriod()) == seq(|results|, i requires 0 <= i < |results| => results[i].init.period);
    assert Column(results, RunTime()) == seq(|results|, i requires 0 <= i < |results| => results[i].run.time);
    assert Column(results, RunRate()) == seq(|results|, i requires 0 <= i < |results| => results[i].run.rate);
    assert Column(results, RunPeriod()) == seq(|results|, i requires 0 <= i < |results| => results[i].run.period);
  }

  lemma NothingFollows(average: Result, moment2: Result)
    requires moment2 == Result(PhaseResult(0.0, 0.0, 0.0), PhaseResult(0.0, 0.0, 0.0))
    ensures AllFollow([], average, moment2)
  {
  }
}
