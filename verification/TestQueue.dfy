/** The test runner's dispatcher, worker threads and collector, as a state machine over all interleavings. */
module TestQueue {

  /** Jobs `0 .. |skips|` are the tests; `skips` says which are to be skipped. The stop tokens are numbered after
      them. */
  datatype Config = Config(skips: seq<bool>, workers: nat)
  {
    function Jobs(): nat { |skips| }

    function All(): nat { Jobs() + workers }

    /** What the dispatcher puts on the queue as number `id`. */
    function Original(id: nat): Job
      requires id < All()
    {
      if id < Jobs() then Job(id, false, skips[id], 0) else Job(id, true, false, 0)
    }
  }

  datatype Job = Job(id: int, isBreak: bool, isSkip: bool, returncode: int)

  /** Where a worker thread stands in its loop. */
  datatype Worker = Idle | Holding(job: Job) | Running(job: Job) | Exited(token: int)

  datatype Tally = Tally(passed: nat, failed: nat, valgrind: nat, crashed: nat, skipped: nat, interrupted: nat)
  {
    function Total(): nat { passed + failed + valgrind + crashed + skipped + interrupted }

    /** One pass through the collecting loop. */
    function Count(job: Job): Tally {
      if job.isBreak then this.(interrupted := interrupted + 1)
      else if job.isSkip then this.(skipped := skipped + 1)
      else if job.returncode == 0 then this.(passed := passed + 1)
      else if job.returncode == 1 then this.(failed := failed + 1)
      else if job.returncode == 2 then this.(valgrind := valgrind + 1)
      else this.(crashed := crashed + 1)
    }
  }

  const NOTHING := Tally(0, 0, 0, 0, 0, 0)

  /** `sent` counts what has been dispatched, `joined` the threads joined; `returned` lists the results collected. */
  datatype State = State(
    sent: nat, input: seq<Job>, workers: seq<Worker>, output: seq<Job>, threadExit: bool,
    returned: seq<Job>, tally: Tally, joined: nat)

  function Init(c: Config): State {
    State(0, [], seq(c.workers, _ => Idle), [], false, [], NOTHING, 0)
  }

  datatype Action =
    Dispatch | Interrupt | Get(w: nat) | Check(w: nat) | Finish(w: nat, returncode: int) | Collect | Join

  predicate Enabled(c: Config, s: State, a: Action) {
    match a
    case Dispatch => s.sent < c.All()
    case Interrupt => !s.threadExit
    case Get(w) => w < |s.workers| && s.workers[w].Idle? && s.input != []
    case Check(w) => w < |s.workers| && s.workers[w].Holding?
    case Finish(w, _) => w < |s.workers| && s.workers[w].Running?
    case Collect => s.sent == c.All() && |s.returned| < c.Jobs() && s.output != []
    case Join => s.sent == c.All() && |s.returned| == c.Jobs() && s.joined < |s.workers| && s.workers[s.joined].Exited?
  }

  function Step(c: Config, s: State, a: Action): State
    requires Enabled(c, s, a)
  {
    match a
    case Dispatch => s.(input := s.input + [c.Original(s.sent)], sent := s.sent + 1)
    case Interrupt => s.(threadExit := true)
    case Get(w) =>
      var job := s.input[0];
      s.(input := s.input[1..], workers := s.workers[w := if job.isBreak then Exited(job.id) else Holding(job)])
    case Check(w) =>
      var job := s.workers[w].job;
      if s.threadExit then s.(output := s.output + [job.(isBreak := true)], workers := s.workers[w := Idle])
      else if job.isSkip then s.(output := s.output + [job], workers := s.workers[w := Idle])
      else s.(workers := s.workers[w := Running(job)])
    case Finish(w, rc) =>
      s.(output := s.output + [s.workers[w].job.(returncode := rc)], workers := s.workers[w := Idle])
    case Collect =>
      s.(output := s.output[1..], returned := s.returned + [s.output[0]], tally := s.tally.Count(s.output[0]))
    case Join => s.(joined := s.joined + 1)
  }

  /** Any number of steps, by anyone, in any order. */
  ghost predicate IsRun(c: Config, run: seq<State>) {
    && |run| > 0 && run[0] == Init(c)
    && forall i :: 0 <= i < |run| - 1 ==> Follows(c, run[i], run[i + 1])
  }

  ghost predicate Follows(c: Config, s: State, s': State) {
    exists a :: Enabled(c, s, a) && Step(c, s, a) == s'
  }

  predicate Done(c: Config, s: State) {
    s.sent == c.All() && |s.returned| == c.Jobs() && s.joined == |s.workers|
  }

  // ----- the invariant

  function Ids(jobs: seq<Job>): (r: seq<int>)
    ensures |r| == |jobs| && forall k :: 0 <= k < |r| ==> r[k] == jobs[k].id
  {
    seq(|jobs|, k requires 0 <= k < |jobs| => jobs[k].id)
  }

  function Slot(w: Worker): int {
    match w
    case Idle => -1
    case Holding(job) => job.id
    case Running(job) => job.id
    case Exited(token) => token
  }

  function Slots(ws: seq<Worker>): (r: seq<int>)
    ensures |r| == |ws| && forall k :: 0 <= k < |r| ==> r[k] == Slot(ws[k])
  {
    seq(|ws|, k requires 0 <= k < |ws| => Slot(ws[k]))
  }

  function Range(lo: int, hi: int): seq<int>
    requires lo <= hi
  {
    seq(hi - lo, k => lo + k)
  }

  /** What the workers have in hand, counting a worker that is gone as keeping the token that stopped it. */
  ghost function Held(ws: seq<Worker>): multiset<int> {
    multiset(Slots(ws))[-1 := 0]
  }

  /** Everything dispatched is in exactly one place. */
  ghost predicate Conserved(s: State) {
    multiset(Ids(s.input)) + Held(s.workers) + multiset(Ids(s.output)) + multiset(Ids(s.returned)) ==
      multiset(Range(0, s.sent))
  }

  /** The input queue holds the last part of what was dispatched, in order and unchanged. */
  ghost predicate QueueOk(c: Config, s: State) {
    && s.sent <= c.All() && |s.input| <= s.sent
    && forall k :: 0 <= k < |s.input| ==> s.input[k] == c.Original(s.sent - |s.input| + k)
  }

  predicate WorkerOk(c: Config, w: Worker) {
    match w
    case Idle => true
    case Holding(job) => 0 <= job.id < c.Jobs() && job == c.Original(job.id)
    case Running(job) => 0 <= job.id < c.Jobs() && job == c.Original(job.id) && !job.isSkip
    case Exited(token) => c.Jobs() <= token < c.All()
  }

  /** A result: a test's job, marked as a break only after an interrupt. */
  predicate ResultOk(c: Config, threadExit: bool, job: Job) {
    0 <= job.id < c.Jobs() && job.isSkip == c.skips[job.id] && (job.isBreak ==> threadExit)
  }

  ghost predicate Inv(c: Config, s: State) {
    Conserved(s) && QueueOk(c, s) && LocalOk(c, s)
  }

  ghost predicate LocalOk(c: Config, s: State) {
    && |s.workers| == c.workers && s.joined <= c.workers && |s.returned| <= c.Jobs()
    && (forall w :: 0 <= w < |s.workers| ==> WorkerOk(c, s.workers[w]))
    && (forall k :: 0 <= k < |s.output| ==> ResultOk(c, s.threadExit, s.output[k]))
    && (forall k :: 0 <= k < |s.returned| ==> ResultOk(c, s.threadExit, s.returned[k]))
    && (s.joined > 0 ==> s.sent == c.All() && |s.returned| == c.Jobs())
    && (forall w :: 0 <= w < s.joined ==> s.workers[w].Exited?)
    && s.tally == TallyOf(s.returned)
  }

  function TallyOf(jobs: seq<Job>): Tally {
    if jobs == [] then NOTHING else TallyOf(jobs[..|jobs| - 1]).Count(jobs[|jobs| - 1])
  }

  lemma HeldUpdate(ws: seq<Worker>, w: nat, x: Worker)
    requires w < |ws|
    ensures Held(ws[w := x]) == (multiset(Slots(ws)) - multiset{Slot(ws[w])} + multiset{Slot(x)})[-1 := 0]
  {
    assert Slots(ws[w := x]) == Slots(ws)[w := Slot(x)];
  }

  lemma IdsAppend(jobs: seq<Job>, job: Job)
    ensures multiset(Ids(jobs + [job])) == multiset(Ids(jobs)) + multiset{job.id}
  {
    assert Ids(jobs + [job]) == Ids(jobs) + [job.id];
  }

  lemma IdsTail(jobs: seq<Job>)
    requires jobs != []
    ensures multiset(Ids(jobs)) == multiset(Ids(jobs[1..])) + multiset{jobs[0].id}
  {
    assert Ids(jobs) == [jobs[0].id] + Ids(jobs[1..]);
  }

  lemma InitInv(c: Config)
    ensures Inv(c, Init(c))
  {
    var slots := Slots(Init(c).workers);
    forall x | x != -1
      ensures x !in multiset(slots)
    {
    }
  }

  lemma StepInv(c: Config, s: State, a: Action)
    requires Inv(c, s) && Enabled(c, s, a)
    ensures Inv(c, Step(c, s, a))
  {
    hide Conserved, LocalOk, QueueOk;
    StepQueue(c, s, a);
    StepLocal(c, s, a);
    StepConserves(c, s, a);
  }

  lemma StepQueue(c: Config, s: State, a: Action)
    requires QueueOk(c, s) && Enabled(c, s, a)
    ensures QueueOk(c, Step(c, s, a))
  {
  }

  /** The head of the queue, when it is a test, is that test unchanged; otherwise it is a stop token. */
  lemma HeadOk(c: Config, s: State)
    requires QueueOk(c, s) && s.input != []
    ensures 0 <= s.input[0].id < c.All() && s.input[0] == c.Original(s.input[0].id)
  {
    assert s.input[0] == c.Original(s.sent - |s.input|);
  }

  lemma StepLocal(c: Config, s: State, a: Action)
    requires QueueOk(c, s) && LocalOk(c, s) && Enabled(c, s, a)
    ensures LocalOk(c, Step(c, s, a))
  {
    hide LocalOk, QueueOk;
    match a {
      case Get(w) =>
        HeadOk(c, s);
        GetLocal(c, s, w);
      case Check(w) => CheckLocal(c, s, w);
      case Finish(w, rc) => ReleaseLocal(c, s, w, s.workers[w].job.(returncode := rc));
      case Collect => CollectLocal(c, s);
      case _ => RestLocal(c, s, a);
    }
  }

  lemma GetLocal(c: Config, s: State, w: nat)
    requires LocalOk(c, s) && Enabled(c, s, Get(w))
    requires 0 <= s.input[0].id < c.All() && s.input[0] == c.Original(s.input[0].id)
    ensures LocalOk(c, Step(c, s, Get(w)))
  {
  }

  lemma CheckLocal(c: Config, s: State, w: nat)
    requires LocalOk(c, s) && Enabled(c, s, Check(w))
    ensures LocalOk(c, Step(c, s, Check(w)))
  {
    var job := s.workers[w].job;
    assert WorkerOk(c, s.workers[w]);
    if s.threadExit {
      ReleaseLocal(c, s, w, job.(isBreak := true));
    } else if job.isSkip {
      ReleaseLocal(c, s, w, job);
    }
  }

  /** A worker that puts its job, with a new mark or return code, on the output queue. */
  lemma ReleaseLocal(c: Config, s: State, w: nat, job: Job)
    requires LocalOk(c, s) && w < |s.workers| && (s.workers[w].Holding? || s.workers[w].Running?)
    requires job.id == s.workers[w].job.id && job.isSkip == s.workers[w].job.isSkip
    requires job.isBreak == s.workers[w].job.isBreak || s.threadExit
    ensures LocalOk(c, s.(output := s.output + [job], workers := s.workers[w := Idle]))
  {
    assert WorkerOk(c, s.workers[w]);
    assert ResultOk(c, s.threadExit, job);
  }

  lemma CollectLocal(c: Config, s: State)
    requires LocalOk(c, s) && Enabled(c, s, Collect)
    ensures LocalOk(c, Step(c, s, Collect))
  {
    assert (s.returned + [s.output[0]])[..|s.returned|] == s.returned;
    assert ResultOk(c, s.threadExit, s.output[0]);
  }

  lemma RestLocal(c: Config, s: State, a: Action)
    requires LocalOk(c, s) && Enabled(c, s, a) && (a.Dispatch? || a.Interrupt? || a.Join?)
    ensures LocalOk(c, Step(c, s, a))
  {
  }

  lemma StepConserves(c: Config, s: State, a: Action)
    requires Conserved(s) && QueueOk(c, s) && LocalOk(c, s) && Enabled(c, s, a)
    ensures Conserved(Step(c, s, a))
  {
    hide Conserved, QueueOk;
    match a {
      case Dispatch => DispatchConserves(c, s);
      case Interrupt => SamePlaces(s, Step(c, s, a));
      case Get(w) =>
        HeadOk(c, s);
        var job := s.input[0];
        GetConserves(s, w, if job.isBreak then Exited(job.id) else Holding(job));
      case Check(w) =>
        var job := s.workers[w].job;
        assert WorkerOk(c, s.workers[w]);
        ResultConserves(s, w, job);
        ResultConserves(s, w, job.(isBreak := true));
        StartConserves(s, w);
      case Finish(w, rc) =>
        assert WorkerOk(c, s.workers[w]);
        ResultConserves(s, w, s.workers[w].job.(returncode := rc));
      case Collect => CollectConserves(c, s);
      case Join => SamePlaces(s, Step(c, s, a));
    }
  }

  lemma SamePlaces(s: State, s': State)
    requires Conserved(s) && s'.input == s.input && s'.workers == s.workers && s'.output == s.output
    requires s'.returned == s.returned && s'.sent == s.sent
    ensures Conserved(s')
  {
  }

  lemma DispatchConserves(c: Config, s: State)
    requires Conserved(s) && Enabled(c, s, Dispatch)
    ensures Conserved(Step(c, s, Dispatch))
  {
    IdsAppend(s.input, c.Original(s.sent));
    assert Range(0, s.sent + 1) == Range(0, s.sent) + [s.sent];
  }

  /** A worker that takes the head of the queue. */
  lemma GetConserves(s: State, w: nat, x: Worker)
    requires Conserved(s) && w < |s.workers| && s.workers[w].Idle? && s.input != [] && Slot(x) == s.input[0].id >= 0
    ensures Conserved(s.(input := s.input[1..], workers := s.workers[w := x]))
  {
    IdsTail(s.input);
    HeldUpdate(s.workers, w, x);
    assert Slots(s.workers)[w] == -1;
  }

  /** A worker that puts the job in its hands on the output queue. */
  lemma ResultConserves(s: State, w: nat, job: Job)
    requires Conserved(s) && w < |s.workers| && Slot(s.workers[w]) == job.id >= 0
    ensures Conserved(s.(output := s.output + [job], workers := s.workers[w := Idle]))
  {
    IdsAppend(s.output, job);
    HeldUpdate(s.workers, w, Idle);
    assert Slots(s.workers)[w] == job.id;
  }

  lemma StartConserves(s: State, w: nat)
    requires Conserved(s) && w < |s.workers| && s.workers[w].Holding?
    ensures Conserved(s.(workers := s.workers[w := Running(s.workers[w].job)]))
  {
    assert Slots(s.workers[w := Running(s.workers[w].job)]) == Slots(s.workers);
  }

  lemma CollectConserves(c: Config, s: State)
    requires Conserved(s) && Enabled(c, s, Collect)
    ensures Conserved(Step(c, s, Collect))
  {
    IdsTail(s.output);
    IdsAppend(s.returned, s.output[0]);
  }

  lemma {:induction false} RunInv(c: Config, run: seq<State>, i: nat)
    requires IsRun(c, run) && i < |run|
    ensures Inv(c, run[i])
  {
    if i == 0 {
      InitInv(c);
    } else {
      RunInv(c, run, i - 1);
      assert Follows(c, run[i - 1], run[i - 1 + 1]);
      var a :| Enabled(c, run[i - 1], a) && Step(c, run[i - 1], a) == run[i];
      StepInv(c, run[i - 1], a);
    }
  }

  // ----- safety

  /** A worker leaves only once no test is left on the queue. */
  lemma NoEarlyExit(c: Config, s: State, w: nat, k: nat)
    requires Inv(c, s) && w < |s.workers| && s.workers[w].Exited? && k < |s.input|
    ensures s.input[k].isBreak && s.input[k].id > s.workers[w].token
  {
    assert WorkerOk(c, s.workers[w]);
    var token := s.workers[w].token;
    assert Slots(s.workers)[w] == token;
    assert token in Held(s.workers);
    if s.sent - |s.input| <= token {
      assert s.sent > token by { SomewhereBelow(s, token); }
      var j := token - (s.sent - |s.input|);
      assert s.input[j] == c.Original(token) && Ids(s.input)[j] == token;
      AtMostOnce(s, token);
    }
  }

  lemma SomewhereBelow(s: State, id: int)
    requires Conserved(s) && id in Held(s.workers)
    ensures 0 <= id < s.sent
  {
    assert id in multiset(Range(0, s.sent));
  }

  lemma {:induction false} RangeOnce(lo: int, hi: int, id: int)
    requires lo <= hi
    ensures multiset(Range(lo, hi))[id] == if lo <= id < hi then 1 else 0
    decreases hi - lo
  {
    if lo < hi {
      RangeOnce(lo, hi - 1, id);
      assert Range(lo, hi) == Range(lo, hi - 1) + [hi - 1];
    }
  }

  lemma AtMostOnce(s: State, id: int)
    requires Conserved(s)
    ensures multiset(Ids(s.input))[id] + Held(s.workers)[id] + multiset(Ids(s.output))[id] +
            multiset(Ids(s.returned))[id] ==
              if 0 <= id < s.sent then 1 else 0
  {
    RangeOnce(0, s.sent, id);
  }

  lemma RangeSize(lo: int, hi: int)
    requires lo <= hi
    ensures |multiset(Range(lo, hi))| == hi - lo
  {
    assert |Range(lo, hi)| == hi - lo;
  }

  /** A multiset of numbers from a range, none twice, is the whole range once it is as large. */
  lemma FillsRange(m: multiset<int>, lo: int, hi: int)
    requires lo <= hi && |m| >= hi - lo
    requires forall x :: x in m ==> lo <= x < hi && m[x] <= 1
    ensures m == multiset(Range(lo, hi))
  {
    var r := multiset(Range(lo, hi));
    RangeSize(lo, hi);
    forall x
      ensures m[x] <= r[x]
    {
      RangeOnce(lo, hi, x);
    }
    assert m <= r;
    assert r == m + (r - m);
    assert |r - m| == 0;
  }

  /** When collecting ends, every test has come back exactly once, whatever the interleaving and whenever Ctrl-C
      came. */
  lemma EachReturnsOnce(c: Config, s: State)
    requires Inv(c, s) && |s.returned| == c.Jobs()
    ensures multiset(Ids(s.returned)) == multiset(Range(0, c.Jobs()))
  {
    var m := multiset(Ids(s.returned));
    forall x | x in m
      ensures 0 <= x < c.Jobs() && m[x] <= 1
    {
      AtMostOnce(s, x);
      var k :| 0 <= k < |s.returned| && Ids(s.returned)[k] == x;
      assert ResultOk(c, s.threadExit, s.returned[k]);
    }
    assert |m| == |Ids(s.returned)|;
    FillsRange(m, 0, c.Jobs());
  }

  /** Each worker that has left consumed a token of its own. */
  lemma TokensDiffer(c: Config, s: State, v: nat, w: nat)
    requires Inv(c, s) && v < w < |s.workers| && s.workers[v].Exited? && s.workers[w].Exited?
    ensures s.workers[v].token != s.workers[w].token
  {
    var id := s.workers[w].token;
    assert WorkerOk(c, s.workers[w]);
    if s.workers[v].token == id {
      var slots := Slots(s.workers);
      assert slots == slots[..w] + [slots[w]] + slots[w + 1..];
      assert slots[v] == slots[w] == id && slots[..w][v] == id;
      assert multiset(slots) == multiset(slots[..w]) + multiset{id} + multiset(slots[w + 1..]);
      assert id in multiset(slots[..w]);
      AtMostOnce(s, id);
    }
  }

  /** At the end every worker has consumed exactly one stop token and nothing is left on either queue. */
  lemma NothingLeft(c: Config, s: State)
    requires Inv(c, s) && Done(c, s)
    ensures Held(s.workers) == multiset(Range(c.Jobs(), c.All())) && s.input == [] && s.output == []
  {
    EachReturnsOnce(c, s);
    var m := Held(s.workers);
    var slots := Slots(s.workers);
    forall w | 0 <= w < |slots|
      ensures c.Jobs() <= slots[w] < c.All()
    {
      assert WorkerOk(c, s.workers[w]) && s.workers[w].Exited?;
    }
    assert -1 !in multiset(slots);
    assert m == multiset(slots) && |m| == c.workers;
    forall x | x in m
      ensures c.Jobs() <= x < c.All() && m[x] <= 1
    {
      AtMostOnce(s, x);
      assert x in slots;
    }
    FillsRange(m, c.Jobs(), c.All());
    NoneElsewhere(c, s);
  }

  lemma NoneElsewhere(c: Config, s: State)
    requires Conserved(s) && s.sent == c.All()
    requires multiset(Ids(s.returned)) == multiset(Range(0, c.Jobs())) &&
             Held(s.workers) == multiset(Range(c.Jobs(), c.All()))
    ensures s.input == [] && s.output == []
  {
    var i, o := multiset(Ids(s.input)), multiset(Ids(s.output));
    forall x
      ensures i[x] == 0 && o[x] == 0
    {
      AtMostOnce(s, x);
      RangeOnce(0, c.Jobs(), x);
      RangeOnce(c.Jobs(), c.All(), x);
    }
    assert i == multiset{} && o == multiset{};
    assert |i| == |Ids(s.input)| && |o| == |Ids(s.output)|;
  }

  // ----- the exit status

  lemma {:induction false} TallyTotal(jobs: seq<Job>)
    ensures TallyOf(jobs).Total() == |jobs|
  {
    if jobs != [] { TallyTotal(jobs[..|jobs| - 1]); }
  }

  lemma {:induction false} TallyInterrupted(jobs: seq<Job>)
    ensures TallyOf(jobs).interrupted > 0 <==> exists job :: job in jobs && job.isBreak
  {
    if jobs != [] {
      var n := |jobs| - 1;
      TallyInterrupted(jobs[..n]);
      assert jobs == jobs[..n] + [jobs[n]];
    }
  }

  /** The result of a test that is fine: skipped, or run with return code 0. */
  predicate Fine(job: Job) {
    !job.isBreak && (job.isSkip || job.returncode == 0)
  }

  lemma {:induction false} TallyFine(jobs: seq<Job>)
    ensures TallyOf(jobs).passed + TallyOf(jobs).skipped <= |jobs|
    ensures TallyOf(jobs).passed + TallyOf(jobs).skipped == |jobs| <==> forall job :: job in jobs ==> Fine(job)
  {
    if jobs != [] {
      var n := |jobs| - 1;
      TallyFine(jobs[..n]);
      var front, t := TallyOf(jobs[..n]), TallyOf(jobs);
      assert t == front.Count(jobs[n]);
      assert t.passed + t.skipped == front.passed + front.skipped + if Fine(jobs[n]) then 1 else 0;
      assert jobs == jobs[..n] + [jobs[n]];
      if forall job :: job in jobs[..n] ==> Fine(job) {
        assert (forall job :: job in jobs ==> Fine(job)) <==> Fine(jobs[n]);
      } else {
        var job :| job in jobs[..n] && !Fine(job);
        assert job in jobs;
      }
    }
  }

  function ExitStatus(c: Config, s: State): int {
    if s.tally.passed + s.tally.skipped == c.Jobs() then 0 else 1
  }

  /** In every reachable state the six counts add up to what has been collected; at the end the exit status is 0
      exactly when no test failed, crashed, had valgrind errors or was interrupted. */
  lemma StatusIsRight(c: Config, run: seq<State>, i: nat)
    requires IsRun(c, run) && i < |run|
    ensures run[i].tally.Total() == |run[i].returned|
    ensures Done(c, run[i]) ==> run[i].tally.Total() == c.Jobs()
    ensures Done(c, run[i]) ==> (ExitStatus(c, run[i]) == 0 <==>
              var t := run[i].tally; t.failed == 0 && t.crashed == 0 && t.valgrind == 0 && t.interrupted == 0)
    ensures !run[i].threadExit ==> run[i].tally.interrupted == 0
  {
    RunInv(c, run, i);
    TallyTotal(run[i].returned);
    TallyInterrupted(run[i].returned);
    assert forall job :: job in run[i].returned ==> ResultOk(c, run[i].threadExit, job);
  }

  // ----- liveness: no deadlock, and no run goes on for ever

  /** Unless everything is finished, some thread can take a step that is not a signal. */
  lemma NoDeadlock(c: Config, s: State) returns (a: Action)
    requires Inv(c, s) && !Done(c, s) && c.workers >= 1
    ensures Enabled(c, s, a) && a != Interrupt
  {
    if s.sent < c.All() {
      return Dispatch;
    }
    if |s.returned| < c.Jobs() && s.output != [] {
      return Collect;
    }
    if |s.returned| == c.Jobs() && s.joined < |s.workers| && s.workers[s.joined].Exited? {
      return Join;
    }
    var w := SomeoneStays(c, s);
    match s.workers[w] {
      case Holding(_) => a := Check(w);
      case Running(_) => a := Finish(w, 0);
      case Idle => a := Get(w);
    }
  }

  predicate Busy(w: Worker) {
    w.Holding? || w.Running?
  }

  /** With everything dispatched and nothing to collect or join, some worker is still there, and if it is idle the
      queue is not empty. */
  lemma SomeoneStays(c: Config, s: State) returns (w: nat)
    requires Inv(c, s) && !Done(c, s) && c.workers >= 1 && s.sent == c.All()
    requires |s.returned| < c.Jobs() ==> s.output == []
    requires |s.returned| == c.Jobs() ==> s.joined < |s.workers| && !s.workers[s.joined].Exited?
    ensures w < |s.workers| && !s.workers[w].Exited? && (s.workers[w].Idle? ==> s.input != [])
  {
    if busy :| 0 <= busy < |s.workers| && Busy(s.workers[busy]) {
      return busy;
    }
    if |s.returned| < c.Jobs() {
      if s.input == [] {
        AllReturned(c, s);
      }
      w := StillIdle(c, s);
    } else {
      w := s.joined;
      if s.input == [] {
        AllTokensHeld(c, s);
        HeldFewer(s.workers, w);
      }
    }
  }

  lemma HeldFewer(ws: seq<Worker>, w: nat)
    requires w < |ws| && ws[w].Idle?
    ensures |Held(ws)| < |ws|
  {
    var slots := Slots(ws);
    assert slots[w] == -1;
    assert -1 in multiset(slots);
    assert |multiset(slots)| == |slots|;
  }

  /** When no test is queued, in a worker's hands or waiting to be collected, all have been collected. */
  lemma AllReturned(c: Config, s: State)
    requires Inv(c, s) && s.sent == c.All() && s.input == [] && s.output == []
    requires forall w :: 0 <= w < |s.workers| ==> !Busy(s.workers[w])
    ensures |s.returned| >= c.Jobs()
  {
    var m, r := multiset(Ids(s.returned)), multiset(Range(0, c.Jobs()));
    forall x
      ensures r[x] <= m[x]
    {
      RangeOnce(0, c.Jobs(), x);
      if 0 <= x < c.Jobs() {
        AtMostOnce(s, x);
        TestNotHeld(c, s, x);
      }
    }
    assert r <= m;
    assert m == r + (m - r);
    RangeSize(0, c.Jobs());
    assert |m| == |Ids(s.returned)|;
  }

  lemma TestNotHeld(c: Config, s: State, id: int)
    requires Inv(c, s) && 0 <= id < c.Jobs() && forall w :: 0 <= w < |s.workers| ==> !Busy(s.workers[w])
    ensures Held(s.workers)[id] == 0
  {
    forall w | 0 <= w < |s.workers|
      ensures Slots(s.workers)[w] != id
    {
      assert WorkerOk(c, s.workers[w]);
    }
    assert id !in Slots(s.workers);
    assert id !in multiset(Slots(s.workers));
  }

  /** A queue that is not empty still holds the last token, so the workers cannot all have had one. */
  lemma StillIdle(c: Config, s: State) returns (w: nat)
    requires Inv(c, s) && c.workers >= 1 && s.sent == c.All() && s.input != []
    requires forall v :: 0 <= v < |s.workers| ==> !Busy(s.workers[v])
    ensures w < |s.workers| && !s.workers[w].Exited?
  {
    w := 0;
    while w < |s.workers| && s.workers[w].Exited?
      invariant w <= |s.workers| && forall v :: 0 <= v < w ==> s.workers[v].Exited?
    {
      w := w + 1;
    }
    if w == |s.workers| {
      TokensTaken(c, s);
      AllExitedHold(s.workers);
    }
  }

  lemma AllExitedHold(ws: seq<Worker>)
    requires forall v :: 0 <= v < |ws| ==> ws[v].Exited? && Slot(ws[v]) >= 0
    ensures |Held(ws)| == |ws|
  {
    var slots := Slots(ws);
    assert -1 !in slots;
    assert Held(ws) == multiset(slots);
  }

  lemma TokenTaken(c: Config, s: State, x: int)
    requires Inv(c, s) && c.workers >= 1 && s.sent == c.All() && s.input != []
    requires forall v :: 0 <= v < |s.workers| ==> !Busy(s.workers[v])
    ensures Held(s.workers)[x] <= multiset(Range(c.Jobs(), c.All() - 1))[x]
  {
    hide Conserved;
    RangeOnce(c.Jobs(), c.All() - 1, x);
    AtMostOnce(s, x);
    if x in Held(s.workers) {
      assert x in Slots(s.workers);
      var w :| 0 <= w < |s.workers| && Slots(s.workers)[w] == x;
      assert WorkerOk(c, s.workers[w]);
      NoEarlyExit(c, s, w, |s.input| - 1);
      assert s.input[|s.input| - 1] == c.Original(s.sent - |s.input| + (|s.input| - 1));
    }
  }

  /** While a token is still queued, the workers that are not busy have had fewer tokens than there are workers. */
  lemma TokensTaken(c: Config, s: State)
    requires Inv(c, s) && c.workers >= 1 && s.sent == c.All() && s.input != []
    requires forall v :: 0 <= v < |s.workers| ==> !Busy(s.workers[v])
    ensures |Held(s.workers)| < c.workers
    ensures forall v :: 0 <= v < |s.workers| && s.workers[v].Exited? ==> Slot(s.workers[v]) >= 0
  {
    var m, r := Held(s.workers), multiset(Range(c.Jobs(), c.All() - 1));
    forall x
      ensures m[x] <= r[x]
    {
      TokenTaken(c, s, x);
    }
    assert m <= r;
    assert r == m + (r - m);
    RangeSize(c.Jobs(), c.All() - 1);
    forall v | 0 <= v < |s.workers| && s.workers[v].Exited?
      ensures Slot(s.workers[v]) >= 0
    {
      assert WorkerOk(c, s.workers[v]);
    }
  }

  /** Once all tests are back and the queue is empty, every token is with a worker. */
  lemma AllTokensHeld(c: Config, s: State)
    requires Inv(c, s) && s.sent == c.All() && s.input == []
    ensures |Held(s.workers)| >= c.workers
  {
    var m, r := Held(s.workers), multiset(Range(c.Jobs(), c.All()));
    forall x
      ensures r[x] <= m[x]
    {
      RangeOnce(c.Jobs(), c.All(), x);
      if c.Jobs() <= x < c.All() {
        AtMostOnce(s, x);
        TokenNoResult(c, s, s.output, x);
        TokenNoResult(c, s, s.returned, x);
      }
    }
    assert r <= m;
    assert m == r + (m - r);
    RangeSize(c.Jobs(), c.All());
  }

  lemma TokenNoResult(c: Config, s: State, jobs: seq<Job>, id: int)
    requires id >= c.Jobs() && forall k :: 0 <= k < |jobs| ==> ResultOk(c, s.threadExit, jobs[k])
    ensures multiset(Ids(jobs))[id] == 0
  {
    assert forall k :: 0 <= k < |jobs| ==> Ids(jobs)[k] == jobs[k].id < c.Jobs();
    assert id !in Ids(jobs);
  }

  /** Steps still to come, at most. */
  function Work(w: Worker): nat {
    match w
    case Idle => 0
    case Holding(_) => 3
    case Running(_) => 2
    case Exited(_) => 0
  }

  function TotalWork(ws: seq<Worker>): nat {
    if ws == [] then 0 else TotalWork(ws[..|ws| - 1]) + Work(ws[|ws| - 1])
  }

  function Remaining(c: Config, s: State): int {
    5 * (c.All() - s.sent) + 4 * |s.input| + TotalWork(s.workers) + |s.output| + (|s.workers| - s.joined) +
      (if s.threadExit then 0 else 1)
  }

  lemma {:induction false} WorkUpdate(ws: seq<Worker>, w: nat, x: Worker)
    requires w < |ws|
    ensures TotalWork(ws[w := x]) == TotalWork(ws) - Work(ws[w]) + Work(x)
  {
    var n := |ws| - 1;
    if w == n {
      assert ws[w := x][..n] == ws[..n];
    } else {
      WorkUpdate(ws[..n], w, x);
      assert ws[w := x][..n] == ws[..n][w := x];
    }
  }

  lemma RemainingBounded(c: Config, s: State)
    requires Inv(c, s)
    ensures Remaining(c, s) >= 0
  {
  }

  lemma StepDescends(c: Config, s: State, a: Action)
    requires Inv(c, s) && Enabled(c, s, a)
    ensures 0 <= Remaining(c, Step(c, s, a)) < Remaining(c, s)
  {
    hide Inv, TotalWork;
    StepInv(c, s, a);
    RemainingBounded(c, Step(c, s, a));
    match a {
      case Get(w) =>
        var job := s.input[0];
        WorkUpdate(s.workers, w, if job.isBreak then Exited(job.id) else Holding(job));
      case Check(w) =>
        WorkUpdate(s.workers, w, Idle);
        WorkUpdate(s.workers, w, Running(s.workers[w].job));
      case Finish(w, rc) => WorkUpdate(s.workers, w, Idle);
      case _ =>
    }
  }

  /** Every run, under every scheduling and with the signal at any moment, ends within this many steps. */
  lemma {:induction false} RunsEnd(c: Config, run: seq<State>)
    requires IsRun(c, run)
    ensures |run| - 1 + Remaining(c, run[|run| - 1]) <= Remaining(c, Init(c)) && Remaining(c, run[|run| - 1]) >= 0
  {
    var n := |run| - 1;
    if n > 0 {
      var front := run[..n];
      forall i | 0 <= i < |front| - 1
        ensures Follows(c, front[i], front[i + 1])
      {
        assert Follows(c, run[i], run[i + 1]);
      }
      RunsEnd(c, front);
      RunInv(c, run, n - 1);
      assert Follows(c, run[n - 1], run[n - 1 + 1]);
      var a :| Enabled(c, run[n - 1], a) && Step(c, run[n - 1], a) == run[n];
      StepDescends(c, run[n - 1], a);
    }
  }

  ghost predicate Stuck(c: Config, s: State) {
    forall a :: Enabled(c, s, a) ==> a == Interrupt
  }

  /** The main result: a run that can go no further, signals aside, has finished: all tests back exactly once, every
      worker stopped by a token of its own, every thread joined. */
  lemma StuckMeansDone(c: Config, run: seq<State>)
    requires IsRun(c, run) && c.workers >= 1
    requires Stuck(c, run[|run| - 1])
    ensures
      var s := run[|run| - 1];
      && Done(c, s) && s.input == [] && s.output == []
      && multiset(Ids(s.returned)) == multiset(Range(0, c.Jobs()))
      && Held(s.workers) == multiset(Range(c.Jobs(), c.All()))
      && s.tally.Total() == c.Jobs()
  {
    var s := run[|run| - 1];
    RunInv(c, run, |run| - 1);
    if !Done(c, s) {
      var a := NoDeadlock(c, s);
    }
    EachReturnsOnce(c, s);
    NothingLeft(c, s);
    StatusIsRight(c, run, |run| - 1);
  }

  // ----- the collecting loop of the main thread

  /** The kinds of results, in the order in which the summary lists them. */
  datatype Kind = Passed | Failed | Valgrind | Crashed | Skipped | Interrupted

  predicate Is(job: Job, kind: Kind) {
    match kind
    case Passed => !job.isBreak && !job.isSkip && job.returncode == 0
    case Failed => !job.isBreak && !job.isSkip && job.returncode == 1
    case Valgrind => !job.isBreak && !job.isSkip && job.returncode == 2
    case Crashed => !job.isBreak && !job.isSkip && job.returncode !in {0, 1, 2}
    case Skipped => !job.isBreak && job.isSkip
    case Interrupted => job.isBreak
  }

  function Number(t: Tally, kind: Kind): nat {
    match kind
    case Passed => t.passed
    case Failed => t.failed
    case Valgrind => t.valgrind
    case Crashed => t.crashed
    case Skipped => t.skipped
    case Interrupted => t.interrupted
  }

  /** The places of the results of one kind. */
  ghost function Where(jobs: seq<Job>, kind: Kind): set<int> {
    set i | 0 <= i < |jobs| && Is(jobs[i], kind)
  }

  lemma CountNumber(t: Tally, job: Job, kind: Kind)
    ensures Number(t.Count(job), kind) == Number(t, kind) + if Is(job, kind) then 1 else 0
  {
  }

  lemma {:induction false} TallyCounts(jobs: seq<Job>, kind: Kind)
    ensures Number(TallyOf(jobs), kind) == |Where(jobs, kind)|
  {
    if jobs == [] {
      assert Where(jobs, kind) == {};
    } else {
      var n := |jobs| - 1;
      TallyCounts(jobs[..n], kind);
      CountNumber(TallyOf(jobs[..n]), jobs[n], kind);
      WhereGrows(jobs, kind);
      hide Is, Number, Where;
    }
  }

  lemma WhereGrows(jobs: seq<Job>, kind: Kind)
    requires jobs != []
    ensures
      var n := |jobs| - 1;
      |Where(jobs, kind)| == |Where(jobs[..n], kind)| + if Is(jobs[n], kind) then 1 else 0
  {
    hide Is;
    var n := |jobs| - 1;
    assert Where(jobs, kind) == Where(jobs[..n], kind) + if Is(jobs[n], kind) then {n} else {};
  }

  /** Takes `jobs` results off the output queue and counts them. */
  method CollectResults(results: seq<Job>) returns (tally: Tally)
    ensures tally == TallyOf(results) && tally.Total() == |results|
    ensures forall kind :: Number(tally, kind) == |Where(results, kind)|
    ensures tally.passed + tally.skipped == |results| <==> forall job :: job in results ==> Fine(job)
  {
    forall kind
      ensures Number(TallyOf(results), kind) == |Where(results, kind)|
    {
      TallyCounts(results, kind);
    }
    var passed, failed, valgrind, crashed, skipped := 0, 0, 0, 0, 0;
    ghost var interrupted := 0;
    for i := 0 to |results|
      invariant TallyOf(results[..i]) == Tally(passed, failed, valgrind, crashed, skipped, interrupted)
    {
      assert results[..i + 1][..i] == results[..i];
      var job := results[i];
      if job.isBreak {
        interrupted := interrupted + 1;
        continue;
      }
      if job.isSkip {
        skipped := skipped + 1;
      } else if job.returncode == 0 {
        passed := passed + 1;
      } else if job.returncode == 1 {
        failed := failed + 1;
      } else if job.returncode == 2 {
        valgrind := valgrind + 1;
      } else {
        crashed := crashed + 1;
      }
    }
    assert results[..|results|] == results;
    TallyTotal(results);
    TallyFine(results);
    tally := Tally(passed, failed, valgrind, crashed, skipped,
                   |results| - (passed + failed + valgrind + crashed + skipped));
  }
}
