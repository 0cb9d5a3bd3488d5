/** What happened to each test in a run of the test runner, and what the summary and the exit status say about it. */
module TestHistory {
  import opened TestQueue

  /** A run with the actions that made it. */
  ghost predicate IsTrace(c: Config, run: seq<State>, acts: seq<Action>) {
    && |run| == |acts| + 1 && run[0] == Init(c)
    && forall i :: 0 <= i < |acts| ==> Enabled(c, run[i], acts[i]) && run[i + 1] == Step(c, run[i], acts[i])
  }

  /** Every run was made by some actions. */
  lemma {:induction false} RunHasActions(c: Config, run: seq<State>) returns (acts: seq<Action>)
    requires IsRun(c, run)
    ensures IsTrace(c, run, acts)
  {
    acts := [];
    for n := 0 to |run| - 1
      invariant |acts| == n
      invariant forall i :: 0 <= i < n ==> Enabled(c, run[i], acts[i]) && run[i + 1] == Step(c, run[i], acts[i])
    {
      assert Follows(c, run[n], run[n + 1]);
      var a :| Enabled(c, run[n], a) && Step(c, run[n], a) == run[n + 1];
      acts := acts + [a];
    }
  }

  /** The action ends the run of test `id`, at the worker that runs it. */
  ghost predicate EndsTest(s: State, a: Action, id: int) {
    a.Finish? && a.w < |s.workers| && s.workers[a.w].Running? && s.workers[a.w].job.id == id
  }

  /** A worker that has taken test `id` looks at the signal flag. */
  ghost predicate ChecksTest(s: State, a: Action, id: int) {
    a.Check? && a.w < |s.workers| && s.workers[a.w].Holding? && s.workers[a.w].job.id == id
  }

  /** The return codes with which test `id` ended in the first `n` actions. */
  ghost function Codes(run: seq<State>, acts: seq<Action>, n: nat, id: int): seq<int>
    requires n <= |acts| < |run|
  {
    if n == 0 then []
    else Codes(run, acts, n - 1, id) + if EndsTest(run[n - 1], acts[n - 1], id) then [acts[n - 1].returncode] else []
  }

  /** For each time a worker looked at the signal flag on behalf of test `id`: whether the signal had come. */
  ghost function Signals(run: seq<State>, acts: seq<Action>, n: nat, id: int): seq<bool>
    requires n <= |acts| < |run|
  {
    if n == 0 then []
    else
      Signals(run, acts, n - 1, id)
      + if ChecksTest(run[n - 1], acts[n - 1], id) then [Interrupt in acts[..n - 1]] else []
  }

  // ----- what is known of each test from the place where it is

  /** Codes and signals of every test so far, and whether the signal has come. */
  datatype Past = Past(codes: int -> seq<int>, signals: int -> seq<bool>, interrupted: bool)

  ghost function PastOf(run: seq<State>, acts: seq<Action>, n: nat): Past
    requires n <= |acts| < |run|
  {
    Past(id => Codes(run, acts, n, id), id => Signals(run, acts, n, id), Interrupt in acts[..n])
  }

  /** What action `a` in state `s` adds. */
  ghost predicate Extends(past: Past, past': Past, s: State, a: Action) {
    && (forall id :: past'.codes(id) == past.codes(id) + if EndsTest(s, a, id) then [a.returncode] else [])
    && (forall id :: past'.signals(id) == past.signals(id) + if ChecksTest(s, a, id) then [past.interrupted] else [])
    && (past'.interrupted <==> past.interrupted || a == Interrupt)
  }

  ghost predicate Untouched(past: Past, id: int) {
    past.signals(id) == [] && past.codes(id) == []
  }

  ghost predicate Started(past: Past, id: int) {
    past.signals(id) == [false] && past.codes(id) == []
  }

  /** A result: handed back as interrupted, or as skipped, or with the one return code that the run of the test
      reported. */
  ghost predicate Over(past: Past, job: Job) {
    && past.signals(job.id) == [job.isBreak]
    && past.codes(job.id) == if job.isBreak || job.isSkip then [] else [job.returncode]
  }

  ghost predicate WorkerHistory(past: Past, w: Worker) {
    (w.Holding? ==> Untouched(past, w.job.id)) && (w.Running? ==> Started(past, w.job.id))
  }

  /** The history of every test, by the place where it is. */
  ghost predicate History(past: Past, s: State) {
    && (s.threadExit <==> past.interrupted)
    && (forall id :: id >= s.sent ==> Untouched(past, id))
    && (forall k :: 0 <= k < |s.input| ==> Untouched(past, s.input[k].id))
    && (forall w :: 0 <= w < |s.workers| ==> WorkerHistory(past, s.workers[w]))
    && (forall k :: 0 <= k < |s.output| ==> Over(past, s.output[k]))
    && (forall k :: 0 <= k < |s.returned| ==> Over(past, s.returned[k]))
  }

  lemma {:induction false} TraceInv(c: Config, run: seq<State>, acts: seq<Action>, n: nat)
    requires IsTrace(c, run, acts) && n <= |acts|
    ensures Inv(c, run[n])
  {
    if n == 0 {
      InitInv(c);
    } else {
      TraceInv(c, run, acts, n - 1);
      assert run[n - 1 + 1] == Step(c, run[n - 1], acts[n - 1]);
      StepInv(c, run[n - 1], acts[n - 1]);
    }
  }

  /** A test in a worker's hands is nowhere else. */
  lemma OnlyHere(c: Config, s: State, w: nat)
    requires Inv(c, s) && w < |s.workers| && (s.workers[w].Holding? || s.workers[w].Running?)
    ensures
      var id := s.workers[w].job.id;
      && 0 <= id < s.sent
      && (forall v :: 0 <= v < |s.workers| && v != w ==> Slot(s.workers[v]) != id)
      && (forall k :: 0 <= k < |s.input| ==> s.input[k].id != id)
      && (forall k :: 0 <= k < |s.output| ==> s.output[k].id != id)
      && (forall k :: 0 <= k < |s.returned| ==> s.returned[k].id != id)
  {
    var id := s.workers[w].job.id;
    assert WorkerOk(c, s.workers[w]);
    var slots := Slots(s.workers);
    assert slots[w] == id;
    AtMostOnce(s, id);
    assert id in multiset(slots);
    forall v | 0 <= v < |s.workers| && v != w
      ensures Slot(s.workers[v]) != id
    {
      SlotsOnce(slots, v, w);
    }
    NoneIn(s.input, id);
    NoneIn(s.output, id);
    NoneIn(s.returned, id);
  }

  lemma SlotsOnce(slots: seq<int>, v: nat, w: nat)
    requires v < |slots| && w < |slots| && v != w && multiset(slots)[slots[w]] <= 1
    ensures slots[v] != slots[w]
  {
    var a, b := if v < w then v else w, if v < w then w else v;
    assert slots == slots[..b] + [slots[b]] + slots[b + 1..];
    assert multiset(slots) == multiset(slots[..b]) + multiset{slots[b]} + multiset(slots[b + 1..]);
    assert slots[..b][a] == slots[a] && slots[a] in multiset(slots[..b]);
  }

  lemma NoneIn(jobs: seq<Job>, id: int)
    requires multiset(Ids(jobs))[id] == 0
    ensures forall k :: 0 <= k < |jobs| ==> jobs[k].id != id
  {
    forall k | 0 <= k < |jobs|
      ensures jobs[k].id != id
    {
      assert Ids(jobs)[k] in multiset(Ids(jobs));
    }
  }

  lemma {:induction false} RunHistory(c: Config, run: seq<State>, acts: seq<Action>, n: nat)
    requires IsTrace(c, run, acts) && n <= |acts|
    ensures History(PastOf(run, acts, n), run[n])
  {
    if n == 0 {
      var slots := Slots(run[0].workers);
      assert |slots| == |run[0].workers|;
    } else {
      hide History;
      RunHistory(c, run, acts, n - 1);
      TraceInv(c, run, acts, n - 1);
      assert run[n - 1 + 1] == Step(c, run[n - 1], acts[n - 1]);
      PastExtends(run, acts, n - 1);
      HistoryStep(c, PastOf(run, acts, n - 1), PastOf(run, acts, n), run[n - 1], acts[n - 1]);
    }
  }

  lemma PastExtends(run: seq<State>, acts: seq<Action>, n: nat)
    requires n < |acts| < |run|
    ensures Extends(PastOf(run, acts, n), PastOf(run, acts, n + 1), run[n], acts[n])
  {
    assert acts[..n + 1] == acts[..n] + [acts[n]];
  }

  /** A test that the action does not touch keeps its history. */
  lemma Unmoved(past: Past, past': Past, s: State, a: Action, id: int)
    requires Extends(past, past', s, a) && !EndsTest(s, a, id) && !ChecksTest(s, a, id)
    ensures past'.codes(id) == past.codes(id) && past'.signals(id) == past.signals(id)
  {
  }

  lemma HistoryStep(c: Config, past: Past, past': Past, s: State, a: Action)
    requires Inv(c, s) && Enabled(c, s, a) && History(past, s) && Extends(past, past', s, a)
    ensures History(past', Step(c, s, a))
  {
    match a {
      case Check(w) => CheckHistory(c, past, past', s, w);
      case Finish(w, rc) => FinishHistory(c, past, past', s, w, rc);
      case _ => QuietHistory(c, past, past', s, a);
    }
  }

  /** Actions that end no test and look at no flag only move tests on. */
  lemma QuietHistory(c: Config, past: Past, past': Past, s: State, a: Action)
    requires Enabled(c, s, a) && History(past, s) && Extends(past, past', s, a) && !a.Check? && !a.Finish?
    ensures History(past', Step(c, s, a))
  {
    forall id
      ensures Untouched(past, id) ==> Untouched(past', id)
      ensures Started(past, id) ==> Started(past', id)
    {
      Unmoved(past, past', s, a, id);
    }
    forall job: Job
      ensures Over(past, job) ==> Over(past', job)
    {
      Unmoved(past, past', s, a, job.id);
    }
    hide Untouched, Started, Over, Extends;
    QuietMoves(c, past, past', s, a);
  }

  lemma QuietMoves(c: Config, past: Past, past': Past, s: State, a: Action)
    requires Enabled(c, s, a) && History(past, s) && !a.Check? && !a.Finish?
    requires past'.interrupted <==> past.interrupted || a == Interrupt
    requires forall id :: Untouched(past, id) ==> Untouched(past', id)
    requires forall id :: Started(past, id) ==> Started(past', id)
    requires forall job: Job :: Over(past, job) ==> Over(past', job)
    ensures History(past', Step(c, s, a))
  {
    hide Untouched, Started, Over;
    match a {
      case Get(w) => assert Untouched(past, s.input[0].id);
      case Collect => assert Over(past, s.output[0]);
      case _ =>
    }
  }

  /** Every test but the one in the hands of worker `w` keeps its history. */
  ghost predicate OthersKeep(past: Past, s: State, w: nat) {
    && (forall id :: id >= s.sent ==> Untouched(past, id))
    && (forall k :: 0 <= k < |s.input| ==> Untouched(past, s.input[k].id))
    && (forall v :: 0 <= v < |s.workers| && v != w ==> WorkerHistory(past, s.workers[v]))
    && (forall k :: 0 <= k < |s.output| ==> Over(past, s.output[k]))
    && (forall k :: 0 <= k < |s.returned| ==> Over(past, s.returned[k]))
  }

  lemma KeepOthers(c: Config, past: Past, past': Past, s: State, a: Action)
    requires Inv(c, s) && Enabled(c, s, a) && History(past, s) && Extends(past, past', s, a) && (a.Check? || a.Finish?)
    ensures OthersKeep(past', s, a.w)
  {
    OnlyHere(c, s, a.w);
    var id := s.workers[a.w].job.id;
    forall other | other != id
      ensures Untouched(past, other) ==> Untouched(past', other)
      ensures Started(past, other) ==> Started(past', other)
    {
      Unmoved(past, past', s, a, other);
    }
    forall job: Job | job.id != id
      ensures Over(past, job) ==> Over(past', job)
    {
      Unmoved(past, past', s, a, job.id);
    }
    hide Inv, Untouched, Started, Over, Extends;
    OthersApart(past, past', s, a.w, id);
  }

  lemma OthersApart(past: Past, past': Past, s: State, w: nat, id: int)
    requires History(past, s) && id < s.sent
    requires forall v :: 0 <= v < |s.workers| && v != w ==> Slot(s.workers[v]) != id
    requires forall k :: 0 <= k < |s.input| ==> s.input[k].id != id
    requires forall k :: 0 <= k < |s.output| ==> s.output[k].id != id
    requires forall k :: 0 <= k < |s.returned| ==> s.returned[k].id != id
    requires forall other :: other != id && Untouched(past, other) ==> Untouched(past', other)
    requires forall other :: other != id && Started(past, other) ==> Started(past', other)
    requires forall job: Job :: job.id != id && Over(past, job) ==> Over(past', job)
    ensures OthersKeep(past', s, w)
  {
    hide Untouched, Started, Over;
    forall v | 0 <= v < |s.workers| && v != w
      ensures WorkerHistory(past', s.workers[v])
    {
      assert WorkerHistory(past, s.workers[v]);
    }
  }

  lemma CheckHistory(c: Config, past: Past, past': Past, s: State, w: nat)
    requires Inv(c, s) && Enabled(c, s, Check(w)) && History(past, s) && Extends(past, past', s, Check(w))
    ensures History(past', Step(c, s, Check(w)))
  {
    var s' := Step(c, s, Check(w));
    var job := s.workers[w].job;
    KeepOthers(c, past, past', s, Check(w));
    assert WorkerHistory(past, s.workers[w]) && WorkerOk(c, s.workers[w]);
    assert past'.codes(job.id) == [] && past'.signals(job.id) == [s.threadExit] && !job.isBreak;
    hide Inv, Untouched, Extends, History, OthersKeep;
    ExitStays(past, past', s, Check(w));
    Moved(past', s, s', w);
  }

  lemma ExitStays(past: Past, past': Past, s: State, a: Action)
    requires History(past, s) && Extends(past, past', s, a) && a != Interrupt
    ensures past'.interrupted <==> s.threadExit
  {
  }

  lemma FinishHistory(c: Config, past: Past, past': Past, s: State, w: nat, rc: int)
    requires Inv(c, s) && Enabled(c, s, Finish(w, rc)) && History(past, s) && Extends(past, past', s, Finish(w, rc))
    ensures History(past', Step(c, s, Finish(w, rc)))
  {
    var s' := Step(c, s, Finish(w, rc));
    var job := s.workers[w].job;
    KeepOthers(c, past, past', s, Finish(w, rc));
    assert WorkerHistory(past, s.workers[w]) && WorkerOk(c, s.workers[w]);
    assert past'.codes(job.id) == [rc] && past'.signals(job.id) == [false] && !job.isBreak && !job.isSkip;
    hide Inv, Untouched, Extends, History, OthersKeep;
    ExitStays(past, past', s, Finish(w, rc));
    Moved(past', s, s', w);
  }

  /** One worker's job has moved on, with its history; nothing else has changed. */
  lemma Moved(past: Past, s: State, s': State, w: nat)
    requires OthersKeep(past, s, w) && w < |s.workers| == |s'.workers| && (s'.threadExit <==> past.interrupted)
    requires s'.sent == s.sent && s'.input == s.input && s'.returned == s.returned
    requires forall v :: 0 <= v < |s.workers| && v != w ==> s'.workers[v] == s.workers[v]
    requires WorkerHistory(past, s'.workers[w])
    requires s'.output == s.output || (|s'.output| == |s.output| + 1 && s'.output[..|s.output|] == s.output)
    requires s'.output != s.output ==> Over(past, s'.output[|s.output|])
    ensures History(past, s')
  {
    hide WorkerHistory, Over, Untouched;
    forall k | 0 <= k < |s'.output|
      ensures Over(past, s'.output[k])
    {
      if k < |s.output| {
        assert s'.output[k] == s.output[k];
      }
    }
  }

  // ----- the summary

  ghost function IdsOf(jobs: seq<Job>, kind: Kind): set<int> {
    set i | 0 <= i < |jobs| && Is(jobs[i], kind) :: jobs[i].id
  }

  predicate IdsDistinct(jobs: seq<Job>) {
    forall i, j :: 0 <= i < j < |jobs| ==> jobs[i].id != jobs[j].id
  }

  lemma {:induction false} TallyOfIds(jobs: seq<Job>, kind: Kind)
    requires IdsDistinct(jobs)
    ensures Number(TallyOf(jobs), kind) == |IdsOf(jobs, kind)|
  {
    if jobs == [] {
      assert IdsOf(jobs, kind) == {};
    } else {
      var n := |jobs| - 1;
      var front, last := jobs[..n], jobs[n];
      TallyOfIds(front, kind);
      IdsOfMore(jobs, kind);
      CountNumber(TallyOf(front), last, kind);
      assert last.id !in IdsOf(front, kind);
      hide Is, Number, IdsOf;
    }
  }

  lemma IdsOfMore(jobs: seq<Job>, kind: Kind)
    requires jobs != []
    ensures
      var n := |jobs| - 1;
      IdsOf(jobs, kind) == IdsOf(jobs[..n], kind) + if Is(jobs[n], kind) then {jobs[n].id} else {}
  {
    var n := |jobs| - 1;
    var front := jobs[..n];
    assert forall i :: 0 <= i < n ==> front[i] == jobs[i];
    forall id | id in IdsOf(front, kind)
      ensures id in IdsOf(jobs, kind)
    {
      var i :| 0 <= i < n && Is(front[i], kind) && front[i].id == id;
      assert Is(jobs[i], kind) && jobs[i].id == id;
    }
    forall id | id in IdsOf(jobs, kind) && (id != jobs[n].id || !Is(jobs[n], kind))
      ensures id in IdsOf(front, kind)
    {
      var i :| 0 <= i < |jobs| && Is(jobs[i], kind) && jobs[i].id == id;
      assert i < n && Is(front[i], kind) && front[i].id == id;
    }
  }

  ghost predicate Returned(jobs: seq<Job>, id: int) {
    exists k :: 0 <= k < |jobs| && jobs[k].id == id
  }

  /** In a finished run each test is returned exactly once. */
  lemma ReturnedAre(c: Config, s: State)
    requires Inv(c, s) && |s.returned| == c.Jobs()
    ensures IdsDistinct(s.returned)
    ensures forall id :: Returned(s.returned, id) <==> 0 <= id < c.Jobs()
  {
    EachReturnsOnce(c, s);
    var ids := Ids(s.returned);
    forall i, j | 0 <= i < j < |ids|
      ensures ids[i] != ids[j]
    {
      RangeOnce(0, c.Jobs(), ids[j]);
      SlotsOnce(ids, i, j);
    }
    forall id
      ensures Returned(s.returned, id) <==> 0 <= id < c.Jobs()
    {
      RangeOnce(0, c.Jobs(), id);
      assert id in multiset(ids) <==> 0 <= id < c.Jobs();
      if id in multiset(ids) {
        var k :| 0 <= k < |ids| && ids[k] == id;
        assert s.returned[k].id == id;
      }
      if k :| 0 <= k < |s.returned| && s.returned[k].id == id {
        assert ids[k] == id && id in ids;
      }
    }
  }

  /** What becomes of every test of a finished run. Each is looked at once: it comes back interrupted exactly when the
      signal had come by then; otherwise it is run to its end exactly once, unless it is to be skipped. */
  lemma EveryTestRuns(c: Config, run: seq<State>, acts: seq<Action>, id: int)
    requires IsTrace(c, run, acts) && |run[|acts|].returned| == c.Jobs() && 0 <= id < c.Jobs()
    ensures
      var codes, signals := Codes(run, acts, |acts|, id), Signals(run, acts, |acts|, id);
      && |signals| == 1
      && |codes| == if signals == [true] || c.skips[id] then 0 else 1
  {
    var n := |acts|;
    var past, s := PastOf(run, acts, n), run[n];
    TraceInv(c, run, acts, n);
    RunHistory(c, run, acts, n);
    hide IsTrace, Codes, Signals, Conserved, QueueOk;
    OneEnd(c, past, s, id);
  }

  lemma OneEnd(c: Config, past: Past, s: State, id: int)
    requires Inv(c, s) && History(past, s) && |s.returned| == c.Jobs() && 0 <= id < c.Jobs()
    ensures |past.signals(id)| == 1
    ensures |past.codes(id)| == if past.signals(id) == [true] || c.skips[id] then 0 else 1
  {
    ReturnedAre(c, s);
    hide Conserved, QueueOk;
    assert Returned(s.returned, id);
    var k :| 0 <= k < |s.returned| && s.returned[k].id == id;
    assert Over(past, s.returned[k]) && ResultOk(c, s.threadExit, s.returned[k]);
  }

  ghost predicate Reported(past: Past, id: int, kind: Kind) {
    match kind
    case Passed => past.codes(id) == [0]
    case Failed => past.codes(id) == [1]
    case Valgrind => past.codes(id) == [2]
    case Crashed => |past.codes(id)| == 1 && past.codes(id)[0] !in {0, 1, 2}
    case Skipped => past.codes(id) == [] && past.signals(id) == [false]
    case Interrupted => past.signals(id) == [true]
  }

  lemma KindReported(past: Past, job: Job, kind: Kind)
    requires Over(past, job)
    ensures Is(job, kind) <==> Reported(past, job.id, kind)
  {
  }

  ghost function Tests(c: Config, past: Past, kind: Kind): set<int> {
    set id | 0 <= id < c.Jobs() && Reported(past, id, kind)
  }

  lemma TestsAre(c: Config, past: Past)
    ensures Tests(c, past, Passed) == set id | 0 <= id < c.Jobs() && past.codes(id) == [0]
    ensures Tests(c, past, Failed) == set id | 0 <= id < c.Jobs() && past.codes(id) == [1]
    ensures Tests(c, past, Valgrind) == set id | 0 <= id < c.Jobs() && past.codes(id) == [2]
    ensures Tests(c, past, Crashed) ==
              set id | 0 <= id < c.Jobs() && |past.codes(id)| == 1 && past.codes(id)[0] !in {0, 1, 2}
    ensures Tests(c, past, Skipped) == set id | 0 <= id < c.Jobs() && past.codes(id) == [] &&
            past.signals(id) == [false]
    ensures Tests(c, past, Interrupted) == set id | 0 <= id < c.Jobs() && past.signals(id) == [true]
  {
  }

  lemma NumberReported(c: Config, past: Past, s: State, kind: Kind)
    requires Inv(c, s) && History(past, s) && |s.returned| == c.Jobs()
    ensures Number(s.tally, kind) == |Tests(c, past, kind)|
  {
    ReturnedAre(c, s);
    TallyOfIds(s.returned, kind);
    var reported := Tests(c, past, kind);
    forall id
      ensures id in IdsOf(s.returned, kind) <==> id in reported
    {
      assert Returned(s.returned, id) <==> 0 <= id < c.Jobs();
      if 0 <= id < c.Jobs() {
        var k :| 0 <= k < |s.returned| && s.returned[k].id == id;
        KindReported(past, s.returned[k], kind);
        if id in IdsOf(s.returned, kind) {
          var i :| 0 <= i < |s.returned| && Is(s.returned[i], kind) && s.returned[i].id == id;
          assert i == k;
        }
      }
    }
    assert IdsOf(s.returned, kind) == reported;
  }

  /** The summary and the exit status of a finished run in terms of the return codes that the tests themselves
      reported. */
  lemma SummaryIsRight(c: Config, run: seq<State>, acts: seq<Action>)
    requires IsTrace(c, run, acts) && Done(c, run[|acts|])
    ensures
      var past, t := PastOf(run, acts, |acts|), run[|acts|].tally;
      && t.passed == |set id | 0 <= id < c.Jobs() && past.codes(id) == [0]|
      && t.failed == |set id | 0 <= id < c.Jobs() && past.codes(id) == [1]|
      && t.valgrind == |set id | 0 <= id < c.Jobs() && past.codes(id) == [2]|
      && t.crashed == |set id | 0 <= id < c.Jobs() && |past.codes(id)| == 1 && past.codes(id)[0] !in {0, 1, 2}|
      && t.skipped == |set id | 0 <= id < c.Jobs() && past.codes(id) == [] && past.signals(id) == [false]|
      && t.interrupted == |set id | 0 <= id < c.Jobs() && past.signals(id) == [true]|
    ensures
      var past := PastOf(run, acts, |acts|);
      ExitStatus(c, run[|acts|]) == 0 <==>
        forall id :: 0 <= id < c.Jobs() ==> past.signals(id) == [false] && (c.skips[id] || past.codes(id) == [0])
    ensures ExitStatus(c, run[|acts|]) in {0, 1}
  {
    var n := |acts|;
    TraceInv(c, run, acts, n);
    RunHistory(c, run, acts, n);
    hide IsTrace, Codes, Signals, History, Inv, PastOf, Reported;
    SummaryFrom(c, PastOf(run, acts, n), run[n]);
  }

  lemma SummaryFrom(c: Config, past: Past, s: State)
    requires Inv(c, s) && History(past, s) && |s.returned| == c.Jobs()
    ensures s.tally.passed == |set id | 0 <= id < c.Jobs() && past.codes(id) == [0]|
    ensures s.tally.failed == |set id | 0 <= id < c.Jobs() && past.codes(id) == [1]|
    ensures s.tally.valgrind == |set id | 0 <= id < c.Jobs() && past.codes(id) == [2]|
    ensures s.tally.crashed == |set id | 0 <= id < c.Jobs() && |past.codes(id)| == 1 && past.codes(id)[0] !in {0, 1, 2}|
    ensures s.tally.skipped == |set id | 0 <= id < c.Jobs() && past.codes(id) == [] && past.signals(id) == [false]|
    ensures s.tally.interrupted == |set id | 0 <= id < c.Jobs() && past.signals(id) == [true]|
    ensures ExitStatus(c, s) == 0 <==>
              forall id :: 0 <= id < c.Jobs() ==> past.signals(id) == [false] && (c.skips[id] || past.codes(id) == [0])
  {
    NumberReported(c, past, s, Passed);
    NumberReported(c, past, s, Failed);
    NumberReported(c, past, s, Valgrind);
    NumberReported(c, past, s, Crashed);
    NumberReported(c, past, s, Skipped);
    NumberReported(c, past, s, Interrupted);
    AllFine(c, past, s);
    forall id | 0 <= id < c.Jobs()
      ensures WentWell(c, past, id) <==> past.signals(id) == [false] && (c.skips[id] || past.codes(id) == [0])
    {
    }
    hide History, Inv, Tests;
    TestsAre(c, past);
  }

  ghost predicate WentWell(c: Config, past: Past, id: int)
    requires 0 <= id < c.Jobs()
  {
    past.signals(id) == [false] && (c.skips[id] || past.codes(id) == [0])
  }

  /** The exit status is 0 exactly when every test was, uninterrupted, skipped or run with return code 0. */
  lemma AllFine(c: Config, past: Past, s: State)
    requires Inv(c, s) && History(past, s) && |s.returned| == c.Jobs()
    ensures ExitStatus(c, s) == 0 <==> forall id :: 0 <= id < c.Jobs() ==> WentWell(c, past, id)
  {
    ReturnedAre(c, s);
    TallyFine(s.returned);
    forall k | 0 <= k < |s.returned|
      ensures 0 <= s.returned[k].id < c.Jobs() && (Fine(s.returned[k]) <==> WentWell(c, past, s.returned[k].id))
    {
      assert Over(past, s.returned[k]) && ResultOk(c, s.threadExit, s.returned[k]);
    }
    if forall k :: 0 <= k < |s.returned| ==> Fine(s.returned[k]) {
      forall id | 0 <= id < c.Jobs()
        ensures WentWell(c, past, id)
      {
        assert Returned(s.returned, id);
      }
    }
  }
}
