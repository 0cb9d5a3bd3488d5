/** The scheduler benchmark: a population of events, each of which schedules its successor, run by the simulator. */
module EventLoop {
  import opened Collections

  datatype RunResult = RunResult(pop: nat, events: nat)

  /** `times` are those for which events have been scheduled: first the drawn delays of the population, then, for each
      callback but the last, a drawn delay after it. Every one of them has been called back or is pending. */
  ghost predicate Scheduled(times: seq<nat>, fired: seq<nat>, queue: multiset<nat>, delay: nat -> nat, drawn: nat,
                            n: nat) {
    && n <= |times| <= n + |fired|
    && (forall j :: 0 <= j < n ==> times[j] == delay(drawn + j))
    && (forall k {:trigger fired[k]} :: 0 <= k < |times| - n ==> times[n + k] == fired[k] + delay(drawn + n + k))
    && multiset(times) == multiset(fired) + queue
  }

  lemma FirstScheduled(times: seq<nat>, queue: multiset<nat>, delay: nat -> nat, drawn: nat, n: nat)
    requires Scheduled(times, [], queue, delay, drawn, n)
    ensures Scheduled(times + [delay(drawn + n)], [], queue + multiset{delay(drawn + n)}, delay, drawn, n + 1)
  {
  }

  lemma NextFired(times: seq<nat>, fired: seq<nat>, queue: multiset<nat>, delay: nat -> nat, drawn: nat, n: nat, t: nat)
    requires Scheduled(times, fired, queue, delay, drawn, n) && t in queue
    ensures Scheduled(times, fired + [t], queue - multiset{t}, delay, drawn, n)
  {
  }

  lemma NextScheduled(times: seq<nat>, fired: seq<nat>, queue: multiset<nat>, delay: nat -> nat, drawn: nat, n: nat)
    requires Scheduled(times, fired, queue, delay, drawn, n) && |times| + 1 == n + |fired|
    ensures
      var t := fired[|fired| - 1] + delay(drawn + |times|);
      Scheduled(times + [t], fired, queue + multiset{t}, delay, drawn, n)
  {
  }

  /** A callback at `t`, with its successor at `next` or, at the stop, without one. */
  lemma Called(times: seq<nat>, fired: seq<nat>, queue: multiset<nat>, delay: nat -> nat, drawn: nat, n: nat,
               t: nat, next: nat)
    requires Scheduled(times, fired, queue, delay, drawn, n) && t in queue
    requires |times| == n + |fired| && next == t + delay(drawn + |times|)
    ensures Scheduled(times, fired + [t], queue - multiset{t}, delay, drawn, n)
    ensures Scheduled(times + [next], fired + [t], queue - multiset{t} + multiset{next}, delay, drawn, n)
  {
    hide Scheduled;
    NextFired(times, fired, queue, delay, drawn, n, t);
    NextScheduled(times, fired + [t], queue - multiset{t}, delay, drawn, n);
  }

  class Bench {
    const population: nat
    const total: nat
    var count: nat                   // callbacks that have scheduled a successor
    var queue: multiset<nat>         // times of the pending events
    var now: nat
    var stopped: bool
    ghost var fired: seq<nat>        // the times of the callbacks so far
    var draws: nat                   // delays drawn so far

    constructor (population: nat, total: nat)
      ensures this.population == population && this.total == total
    {
      this.population, this.total := population, total;
      count, queue, now, stopped, fired, draws := 0, multiset{}, 0, false, [], 0;
    }

    predicate InOrder(times: seq<nat>) {
      forall i, j :: 0 <= i < j < |times| ==> times[i] <= times[j]
    }

    lemma NoneInOrder()
      ensures InOrder([])
    {
    }

    lemma OrderGrows(times: seq<nat>, t: nat)
      requires InOrder(times) && forall u :: u in times ==> u <= t
      ensures InOrder(times + [t])
    {
      assert forall i :: 0 <= i < |times| ==> times[i] in times;
    }

    /** No pending event lies in the past, time never went back, and until the stop the population is constant. */
    ghost predicate Valid()
      reads this
    {
      && (forall t :: t in queue ==> now <= t)
      && count <= total && InOrder(fired) && (forall t :: t in fired ==> t <= now)
      && if stopped then count == total && |fired| == total + 1 && |queue| + 1 == population
         else |queue| == population && |fired| == count
    }

    /** The earliest pending time, whichever of equally early events the scheduler picks. */
    method Earliest() returns (t: nat)
      requires |queue| > 0
      ensures t in queue && forall u :: u in queue ==> t <= u
    {
      var times := set u: nat | u in queue;
      SomeInMultiset(queue);
      assert forall u :: u in queue <==> u in times;
      t := Pick(times);
      var rest := times - {t};
      while rest != {}
        invariant t in queue && rest <= times && forall u :: u in times && u !in rest ==> t <= u
        decreases rest
      {
        var u := Pick(rest);
        rest := rest - {u};
        if u < t { t := u; }
      }
    }

    /** The event function. `delay` gives the stream of random delays. */
    method Cb(delay: nat -> nat)
      requires (forall t :: t in queue ==> now <= t) && InOrder(fired) && (forall t :: t in fired ==> t <= now)
      requires !stopped && count <= total && |fired| == count && |queue| + 1 == population
      modifies this
      ensures Valid() && now == old(now) && fired == old(fired) + [now]
      ensures stopped <==> old(count) == total
      ensures count == old(count) + if stopped then 0 else 1
      ensures stopped ==> queue == old(queue) && draws == old(draws)
      ensures !stopped ==> queue == old(queue) + multiset{now + delay(old(draws))} && draws == old(draws) + 1
    {
      hide InOrder;
      OrderGrows(fired, now);
      fired := fired + [now];
      if count >= total {
        stopped := true;
        return;
      }
      var after := delay(draws);
      draws := draws + 1;
      queue := queue + multiset{now + after};
      count := count + 1;
    }

    /** Schedules the population, then runs events in time order until the stop. With a population of at least one,
        exactly `total + 1` callbacks happen and `total` of them count; otherwise there is nothing to run. */
    method Run(delay: nat -> nat) returns (result: RunResult, ghost times: seq<nat>)
      modifies this
      ensures InOrder(fired) && forall t, u :: t in fired && u in queue ==> t <= u
      ensures population >= 1 ==> stopped && |fired| == total + 1 && result == RunResult(population, total)
      ensures population == 0 ==> !stopped && fired == [] && result == RunResult(0, 0)
      ensures Scheduled(times, fired, queue, delay, old(draws), population) && |times| == population + result.events
    {
      hide Scheduled, InOrder;
      NoneInOrder();
      ghost var drawn := draws;
      count, queue, now, stopped, fired := 0, multiset{}, 0, false, [];
      times := [];
      NothingScheduled(delay, drawn);
      for i := 0 to population
        invariant |queue| == i && count == 0 && now == 0 && !stopped && fired == []
        invariant |times| == i && draws == drawn + i && Scheduled(times, fired, queue, delay, drawn, i)
      {
        FirstScheduled(times, queue, delay, drawn, i);
        queue := queue + multiset{delay(draws)};
        times := times + [delay(draws)];
        draws := draws + 1;
      }
      while |queue| > 0 && !stopped
        invariant Valid() && (population == 0 ==> fired == []) && |times| == population + count
        invariant draws == drawn + |times| && Scheduled(times, fired, queue, delay, drawn, population)
        decreases total + 1 - |fired|
      {
        times := RunNext(delay, times, drawn);
      }
      result := RunResult(population, count);
    }

    /** The simulator runs one event. */
    method RunNext(delay: nat -> nat, ghost times: seq<nat>, ghost drawn: nat) returns (ghost times': seq<nat>)
      requires Valid() && !stopped && |queue| > 0 && draws == drawn + |times| && |times| == population + count
      requires Scheduled(times, fired, queue, delay, drawn, population)
      modifies this
      ensures Valid() && |fired| == |old(fired)| + 1 && draws == drawn + |times'| && |times'| == population + count
      ensures Scheduled(times', fired, queue, delay, drawn, population)
    {
      hide Scheduled, InOrder;
      var t := Earliest();
      ghost var next := t + delay(draws);
      Called(times, fired, queue, delay, drawn, population, t, next);
      now := t;
      queue := queue - multiset{t};
      Cb(delay);
      times' := if stopped then times else times + [next];
    }
  }

  lemma NothingScheduled(delay: nat -> nat, drawn: nat)
    ensures Scheduled([], [], multiset{}, delay, drawn, 0)
  {
  }
}
