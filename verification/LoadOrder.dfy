/** The order in which the Python bindings load the ns-3 libraries: rounds of libraries whose dependencies are all
    loaded. */
module LoadOrder {
  import opened Collections

  type Lib = string

  type Deps = map<Lib, seq<Lib>>

  predicate CanBeLoaded(deps: Deps, lib: Lib, current: seq<Lib>) {
    lib in deps && forall d :: d in deps[lib] ==> d in current
  }

  /** The pending libraries that can be loaded, in pending order. */
  function Loadable(deps: Deps, pending: seq<Lib>, current: seq<Lib>): seq<Lib> {
    if pending == [] then []
    else
      var n := |pending| - 1;
      Loadable(deps, pending[..n], current) + if CanBeLoaded(deps, pending[n], current) then [pending[n]] else []
  }

  lemma {:induction false} LoadableMember(deps: Deps, pending: seq<Lib>, current: seq<Lib>)
    ensures forall lib :: lib in Loadable(deps, pending, current) <==> lib in pending && CanBeLoaded(deps, lib, current)
  {
    if pending != [] {
      var n := |pending| - 1;
      LoadableMember(deps, pending[..n], current);
      assert pending == pending[..n] + [pending[n]];
    }
  }

  lemma {:induction false} LoadableDistinct(deps: Deps, pending: seq<Lib>, current: seq<Lib>)
    requires Distinct(pending)
    ensures Distinct(Loadable(deps, pending, current))
  {
    if pending != [] {
      var n := |pending| - 1;
      LoadableDistinct(deps, pending[..n], current);
      LoadableMember(deps, pending[..n], current);
    }
  }

  /** `x` stands before `y` in the list. */
  ghost predicate Before(list: seq<Lib>, x: Lib, y: Lib) {
    exists i, j :: 0 <= i < j < |list| && list[i] == x && list[j] == y
  }

  /** The libraries of `s` stand in the order of `list`. */
  ghost predicate InOrder(list: seq<Lib>, s: seq<Lib>) {
    forall a, b :: 0 <= a < b < |s| ==> Before(list, s[a], s[b])
  }

  lemma {:induction false} LoadableInOrder(list: seq<Lib>, deps: Deps, pending: seq<Lib>, current: seq<Lib>)
    requires InOrder(list, pending)
    ensures InOrder(list, Loadable(deps, pending, current))
  {
    if pending != [] {
      var n := |pending| - 1;
      var front := Loadable(deps, pending[..n], current);
      assert InOrder(list, pending[..n]) by {
        assert forall a :: 0 <= a < n ==> pending[..n][a] == pending[a];
      }
      LoadableInOrder(list, deps, pending[..n], current);
      LoadableMember(deps, pending[..n], current);
      forall a | 0 <= a < |front|
        ensures Before(list, front[a], pending[n])
      {
        assert front[a] in front;
        var i :| 0 <= i < n && pending[..n][i] == front[a];
        assert Before(list, pending[i], pending[n]);
      }
    }
  }

  lemma SelfInOrder(s: seq<Lib>)
    ensures InOrder(s, s)
  {
  }

  /** modules_that_can_be_loaded: the pending libraries all of whose dependencies are loaded, in pending order. */
  method ModulesThatCanBeLoaded(deps: Deps, pending: seq<Lib>, current: seq<Lib>) returns (modules: seq<Lib>)
    requires forall lib :: lib in pending ==> lib in deps
    ensures modules == Loadable(deps, pending, current)
    ensures forall lib :: lib in modules <==> lib in pending && forall d :: d in deps[lib] ==> d in current
    ensures InOrder(pending, modules)
  {
    hide InOrder;
    LoadableMeans(deps, pending, current);
    hide CanBeLoaded;
    modules := [];
    for i := 0 to |pending|
      invariant modules == Loadable(deps, pending[..i], current)
    {
      assert pending[..i + 1][..i] == pending[..i] && pending[i] in pending;
      var canBeLoaded := true;
      var dependencies := deps[pending[i]];
      for j := 0 to |dependencies|
        invariant canBeLoaded && forall d :: d in dependencies[..j] ==> d in current
      {
        if dependencies[j] !in current {
          canBeLoaded := false;
          break;
        }
      }
      assert canBeLoaded ==> dependencies[..|dependencies|] == dependencies;
      LoadedMeans(deps, pending[i], current);
      if !canBeLoaded { continue; }
      modules := modules + [pending[i]];
    }
    assert pending[..|pending|] == pending;
  }

  lemma LoadedMeans(deps: Deps, lib: Lib, current: seq<Lib>)
    requires lib in deps
    ensures CanBeLoaded(deps, lib, current) <==> forall d :: d in deps[lib] ==> d in current
  {
  }

  lemma LoadableMeans(deps: Deps, pending: seq<Lib>, current: seq<Lib>)
    requires forall lib :: lib in pending ==> lib in deps
    ensures forall lib ::
              lib in Loadable(deps, pending, current) <==> lib in pending && forall d :: d in deps[lib] ==> d in current
    ensures InOrder(pending, Loadable(deps, pending, current))
  {
    LoadableMember(deps, pending, current);
    SelfInOrder(pending);
    LoadableInOrder(pending, deps, pending, current);
  }

  // ----- the graph

  /** Each library after the first is a dependency of the one before. */
  ghost predicate IsChain(deps: Deps, c: seq<Lib>) {
    |c| > 0 && (|c| > 1 ==> c[0] in deps && c[1] in deps[c[0]] && IsChain(deps, c[1..]))
  }

  ghost predicate IsCycle(deps: Deps, c: seq<Lib>) {
    |c| > 1 && IsChain(deps, c) && c[0] == c[|c| - 1]
  }

  ghost predicate Closed(deps: Deps) {
    forall lib, d :: lib in deps && d in deps[lib] ==> d in deps
  }

  ghost predicate Acyclic(deps: Deps) {
    forall c :: !IsCycle(deps, c)
  }

  // ----- rounds

  function Flatten(steps: seq<seq<Lib>>): seq<Lib> {
    if steps == [] then [] else Flatten(steps[..|steps| - 1]) + steps[|steps| - 1]
  }

  lemma {:induction false} FlattenMember(steps: seq<seq<Lib>>, lib: Lib)
    ensures lib in Flatten(steps) <==> exists i :: 0 <= i < |steps| && lib in steps[i]
  {
    if steps != [] {
      var n := |steps| - 1;
      FlattenMember(steps[..n], lib);
      if i :| 0 <= i < |steps| && lib in steps[i] {
        assert i < n ==> lib in steps[..n][i];
      }
      if lib in Flatten(steps[..n]) {
        var i :| 0 <= i < n && lib in steps[..n][i];
        assert lib in steps[i];
      }
    }
  }

  /** A library of round `i` depends on earlier rounds only, and, unless `i` is 0, on something in round `i - 1`. */
  ghost predicate Placed(deps: Deps, steps: seq<seq<Lib>>, i: nat, lib: Lib)
    requires i < |steps|
  {
    && lib in deps
    && (forall d :: d in deps[lib] ==> d in Flatten(steps[..i]))
    && (i > 0 ==> exists d :: d in deps[lib] && d in steps[i - 1])
  }

  ghost predicate Layered(deps: Deps, steps: seq<seq<Lib>>) {
    forall i, lib :: 0 <= i < |steps| && lib in steps[i] ==> Placed(deps, steps, i, lib)
  }

  /** No chain out of a library of round `i` has more than `i` links. */
  lemma {:induction false} ChainsAreShort(deps: Deps, steps: seq<seq<Lib>>, i: nat, c: seq<Lib>)
    requires Layered(deps, steps) && i < |steps| && IsChain(deps, c) && c[0] in steps[i]
    ensures |c| - 1 <= i
    decreases i
  {
    if |c| > 1 {
      assert Placed(deps, steps, i, c[0]);
      FlattenMember(steps[..i], c[1]);
      var k :| 0 <= k < i && c[1] in steps[..i][k];
      ChainsAreShort(deps, steps, k, c[1..]);
    }
  }

  /** Some chain out of a library of round `i` has exactly `i` links. */
  lemma {:induction false} ChainExists(deps: Deps, steps: seq<seq<Lib>>, i: nat, lib: Lib) returns (c: seq<Lib>)
    requires Layered(deps, steps) && i < |steps| && lib in steps[i]
    ensures IsChain(deps, c) && c[0] == lib && |c| - 1 == i
    decreases i
  {
    if i == 0 {
      c := [lib];
    } else {
      assert Placed(deps, steps, i, lib);
      var d :| d in deps[lib] && d in steps[i - 1];
      var rest := ChainExists(deps, steps, i - 1, d);
      c := [lib] + rest;
      assert c[1..] == rest;
    }
  }

  /** A library's step number is the length of its longest dependency chain. */
  lemma StepIsLongestChain(deps: Deps, steps: seq<seq<Lib>>, i: nat, lib: Lib)
    requires Layered(deps, steps) && i < |steps| && lib in steps[i]
    ensures exists c :: IsChain(deps, c) && c[0] == lib && |c| - 1 == i
    ensures forall c :: IsChain(deps, c) && c[0] == lib ==> |c| - 1 <= i
  {
    var c := ChainExists(deps, steps, i, lib);
    forall c | IsChain(deps, c) && c[0] == lib
      ensures |c| - 1 <= i
    {
      ChainsAreShort(deps, steps, i, c);
    }
  }

  // ----- the state that the recursion updates

  /** pending_modules.remove(x): drops the first occurrence. */
  function Remove(s: seq<Lib>, x: Lib): seq<Lib> {
    if s == [] then [] else if s[0] == x then s[1..] else [s[0]] + Remove(s[1..], x)
  }

  lemma {:induction false} RemoveMember(s: seq<Lib>, x: Lib)
    requires Distinct(s)
    ensures Distinct(Remove(s, x)) && forall y :: y in Remove(s, x) <==> y in s && y != x
    ensures x in s ==> |Remove(s, x)| == |s| - 1
  {
    if s != [] {
      assert s == [s[0]] + s[1..];
      DistinctCons(s[0], s[1..]);
      RemoveMember(s[1..], x);
      DistinctCons(s[0], Remove(s[1..], x));
    }
  }

  lemma {:induction false} RemoveInOrder(list: seq<Lib>, s: seq<Lib>, x: Lib)
    requires InOrder(list, s)
    ensures InOrder(list, Remove(s, x)) && forall y :: y in Remove(s, x) ==> y in s
  {
    if s != [] {
      ConsInOrder(list, s[0], s[1..]);
      assert s == [s[0]] + s[1..];
      hide InOrder, Before;
      RemoveInOrder(list, s[1..], x);
      ConsInOrder(list, s[0], Remove(s[1..], x));
    }
  }

  lemma ConsInOrder(list: seq<Lib>, x: Lib, s: seq<Lib>)
    ensures InOrder(list, [x] + s) <==> InOrder(list, s) && forall y :: y in s ==> Before(list, x, y)
  {
    hide Before;
    var xs := [x] + s;
    assert forall k :: 0 <= k < |s| ==> xs[k + 1] == s[k];
    if InOrder(list, xs) {
      forall a, b | 0 <= a < b < |s|
        ensures Before(list, s[a], s[b])
      {
        assert Before(list, xs[a + 1], xs[b + 1]);
      }
      forall k | 0 <= k < |s|
        ensures Before(list, x, s[k])
      {
        assert Before(list, xs[0], xs[k + 1]);
      }
    }
  }

  /** Pending and loaded libraries together are all libraries, each once. */
  ghost predicate Partition(deps: Deps, pending: seq<Lib>, current: seq<Lib>) {
    && Distinct(pending) && Distinct(current)
    && (forall lib :: lib in deps <==> lib in pending || lib in current)
    && (forall lib :: lib in pending ==> lib !in current)
  }

  /** No pending library could be loaded in the round before. */
  ghost predicate Waiting(deps: Deps, pending: seq<Lib>, steps: seq<seq<Lib>>) {
    steps != [] ==> Blocked(deps, pending, Flatten(steps[..|steps| - 1]))
  }

  ghost predicate Lacks(deps: Deps, lib: Lib, current: seq<Lib>) {
    lib in deps && exists d :: d in deps[lib] && d !in current
  }

  /** Every pending library lacks a dependency. */
  ghost predicate Blocked(deps: Deps, pending: seq<Lib>, current: seq<Lib>) {
    forall lib :: lib in pending ==> Lacks(deps, lib, current)
  }

  ghost predicate AllInOrder(list: seq<Lib>, steps: seq<seq<Lib>>) {
    forall i :: 0 <= i < |steps| ==> InOrder(list, steps[i])
  }

  class Loader {
    const deps: Deps
    ghost const keys: seq<Lib>   // all libraries, in the order of the map's keys
    var pending: seq<Lib>
    var current: seq<Lib>
    var steps: seq<seq<Lib>>     // by step number

    ghost predicate Valid()
      reads this
    {
      && Partition(deps, pending, current) && current == Flatten(steps)
      && Layered(deps, steps) && Waiting(deps, pending, steps)
      && InOrder(keys, pending) && AllInOrder(keys, steps)
    }

    constructor (deps: Deps, keys: seq<Lib>)
      requires Distinct(keys) && forall lib :: lib in keys <==> lib in deps
      ensures this.deps == deps && this.keys == keys && pending == keys && Valid()
    {
      this.deps, this.keys, pending, current, steps := deps, keys, keys, [], [];
      SelfInOrder(keys);
    }

    /** One round: what can be loaded moves, in order, from `pending` to `current` and to a new step. */
    method Round() returns (progress: bool)
      requires Valid() && pending != []
      modifies this
      ensures Valid()
      ensures progress ==> |pending| < |old(pending)|
      ensures progress ==> steps == old(steps) + [Loadable(deps, old(pending), old(current))]
      ensures !progress ==> pending == old(pending) && Blocked(deps, pending, current)
    {
      hide Layered, Waiting, Distinct, Loadable, CanBeLoaded, Blocked, InOrder;
      ghost var before, p0, c0 := steps, pending, current;
      var modules := ModulesThatCanBeLoaded(deps, pending, current);
      LoadableMember(deps, pending, current);
      LoadableDistinct(deps, pending, current);
      LoadableInOrder(keys, deps, pending, current);
      if modules == [] {
        NoneLoadable(deps, pending, current);
        return false;
      }
      steps := steps + [[]];
      for k := 0 to |modules|
        invariant steps == before + [modules[..k]] && current == c0 + modules[..k]
        invariant Distinct(pending) && |pending| == |p0| - k && InOrder(keys, pending)
        invariant forall lib :: lib in pending <==> lib in p0 && lib !in modules[..k]
      {
        var module' := modules[k];
        DistinctAt(modules, k);
        RemoveMember(pending, module');
        RemoveInOrder(keys, pending, module');
        steps := steps[|steps| - 1 := steps[|steps| - 1] + [module']];
        pending := Remove(pending, module');
        current := current + [module'];
      }
      assert modules[..|modules|] == modules;
      RoundKeeps(deps, p0, c0, before, modules, pending);
      return true;
    }

    /** The recursion. When a round loads nothing the source calls itself again in the same state, without end;
        here that is the result false. */
    method DependencyOrder() returns (ok: bool)
      requires Valid()
      modifies this
      ensures Valid()
      ensures ok ==> pending == []
      ensures !ok ==> pending != [] && Blocked(deps, pending, current)
      decreases |pending|
    {
      if |pending| == 0 { return true; }
      var progress := Round();
      if !progress { return false; }
      ok := DependencyOrder();
    }
  }

  lemma NoneLoadable(deps: Deps, pending: seq<Lib>, current: seq<Lib>)
    requires Loadable(deps, pending, current) == [] && forall lib :: lib in pending ==> lib in deps
    ensures Blocked(deps, pending, current)
  {
    LoadableMember(deps, pending, current);
    forall lib | lib in pending
      ensures Lacks(deps, lib, current)
    {
      assert lib !in Loadable(deps, pending, current);
    }
  }

  lemma RoundKeeps(deps: Deps, p0: seq<Lib>, c0: seq<Lib>, before: seq<seq<Lib>>, modules: seq<Lib>, pending: seq<Lib>)
    requires Partition(deps, p0, c0) && c0 == Flatten(before) && Layered(deps, before) && Waiting(deps, p0, before)
    requires modules == Loadable(deps, p0, c0) && Distinct(pending)
    requires forall lib :: lib in pending <==> lib in p0 && lib !in modules
    ensures Partition(deps, pending, c0 + modules) && c0 + modules == Flatten(before + [modules])
    ensures Layered(deps, before + [modules]) && Waiting(deps, pending, before + [modules])
  {
    hide Loadable, Layered, CanBeLoaded, Distinct, Placed;
    LoadableMember(deps, p0, c0);
    LoadableDistinct(deps, p0, c0);
    assert (before + [modules])[..|before|] == before;
    RoundLayers(deps, p0, before, modules);
    RoundPartition(deps, p0, c0, modules, pending);
    forall lib | lib in pending
      ensures Lacks(deps, lib, c0)
    {
      NotLoadable(deps, lib, c0);
    }
  }

  lemma NotLoadable(deps: Deps, lib: Lib, current: seq<Lib>)
    requires lib in deps && !CanBeLoaded(deps, lib, current)
    ensures Lacks(deps, lib, current)
  {
  }

  lemma RoundPartition(deps: Deps, p0: seq<Lib>, c0: seq<Lib>, modules: seq<Lib>, pending: seq<Lib>)
    requires Partition(deps, p0, c0) && Distinct(pending) && Distinct(modules)
    requires forall lib :: lib in modules ==> lib in p0
    requires forall lib :: lib in pending <==> lib in p0 && lib !in modules
    ensures Partition(deps, pending, c0 + modules)
  {
    DistinctJoin(c0, modules);
  }

  lemma RoundLayers(deps: Deps, p0: seq<Lib>, before: seq<seq<Lib>>, modules: seq<Lib>)
    requires Layered(deps, before) && Waiting(deps, p0, before)
    requires forall lib :: lib in modules ==> lib in p0 && CanBeLoaded(deps, lib, Flatten(before))
    ensures Layered(deps, before + [modules])
  {
    var steps := before + [modules];
    forall i, lib | 0 <= i < |steps| && lib in steps[i]
      ensures Placed(deps, steps, i, lib)
    {
      if i < |before| {
        assert steps[..i] == before[..i];
        assert Placed(deps, before, i, lib);
      } else {
        assert steps[..i] == before;
        if i > 0 {
          assert Lacks(deps, lib, Flatten(before[..i - 1]));
          var d :| d in deps[lib] && d !in Flatten(before[..i - 1]);
          LastStep(before, d);
        }
      }
    }
  }

  lemma LastStep(steps: seq<seq<Lib>>, d: Lib)
    requires steps != [] && d in Flatten(steps) && d !in Flatten(steps[..|steps| - 1])
    ensures d in steps[|steps| - 1]
  {
  }

  // ----- when it succeeds

  ghost predicate DependsIn(deps: Deps, lib: Lib, stuck: seq<Lib>) {
    lib in deps && exists d :: d in deps[lib] && d in stuck
  }

  /** A walk of `n` links that never leaves the blocked libraries. */
  lemma {:induction false} BlockedWalk(deps: Deps, stuck: seq<Lib>, start: Lib, n: nat) returns (c: seq<Lib>)
    requires start in stuck && forall lib :: lib in stuck ==> DependsIn(deps, lib, stuck)
    ensures IsChain(deps, c) && |c| == n + 1 && c[0] == start && forall lib :: lib in c ==> lib in stuck
    decreases n
  {
    if n == 0 {
      c := [start];
    } else {
      assert DependsIn(deps, start, stuck);
      var d :| d in deps[start] && d in stuck;
      var rest := BlockedWalk(deps, stuck, d, n - 1);
      c := [start] + rest;
      assert c[1..] == rest;
    }
  }

  lemma {:induction false} Subchain(deps: Deps, c: seq<Lib>, i: nat, j: nat)
    requires IsChain(deps, c) && i < j <= |c|
    ensures IsChain(deps, c[i..j])
    decreases |c|
  {
    if i > 0 {
      Subchain(deps, c[1..], i - 1, j - 1);
      assert c[1..][i - 1..j - 1] == c[i..j];
    } else if j > 1 {
      Subchain(deps, c[1..], 0, j - 1);
      assert c[1..][0..j - 1] == c[0..j][1..];
    }
  }

  /** Some library of the list depends on a library that is not in the map. */
  ghost predicate DependsOutside(deps: Deps, pending: seq<Lib>) {
    exists lib, d :: lib in pending && lib in deps && d in deps[lib] && d !in deps
  }

  ghost predicate CycleAmong(deps: Deps, pending: seq<Lib>) {
    exists c :: IsCycle(deps, c) && forall lib :: lib in c ==> lib in pending
  }

  /** A round without progress means that a pending library depends on a library that is not there at all, or that
      pending libraries depend on each other in a cycle. */
  lemma BlockedMeansCycle(deps: Deps, pending: seq<Lib>, current: seq<Lib>)
    requires Partition(deps, pending, current) && Blocked(deps, pending, current) && pending != []
    ensures DependsOutside(deps, pending) || CycleAmong(deps, pending)
  {
    hide *;
    if !DependsOutside(deps, pending) {
      BlockedDependInside(deps, pending, current);
      var c := BlockedWalk(deps, pending, pending[0], |pending|);
      Repeat(deps, pending, c);
    }
  }

  lemma BlockedDependInside(deps: Deps, pending: seq<Lib>, current: seq<Lib>)
    requires Partition(deps, pending, current) && Blocked(deps, pending, current) && !DependsOutside(deps, pending)
    ensures forall lib :: lib in pending ==> DependsIn(deps, lib, pending)
  {
    forall lib | lib in pending
      ensures DependsIn(deps, lib, pending)
    {
      assert Lacks(deps, lib, current);
      var d :| d in deps[lib] && d !in current;
      assert d in deps;
    }
  }

  /** A chain longer than the list it stays in contains a cycle. */
  lemma Repeat(deps: Deps, pending: seq<Lib>, c: seq<Lib>)
    requires IsChain(deps, c) && |c| > |pending| && forall lib :: lib in c ==> lib in pending
    ensures CycleAmong(deps, pending)
  {
    if Distinct(c) {
      DistinctFits(c, set lib | lib in pending);
      SeqSize(pending);
    }
    var i, j :| 0 <= i < j < |c| && c[i] == c[j];
    Subchain(deps, c, i, j + 1);
    var cycle := c[i..j + 1];
    assert IsCycle(deps, cycle) && forall lib :: lib in cycle ==> lib in c;
  }

  lemma {:induction false} SeqSize(s: seq<Lib>)
    ensures |set lib | lib in s| <= |s|
  {
    if s != [] {
      var n := |s| - 1;
      SeqSize(s[..n]);
      assert (set lib | lib in s) == (set lib | lib in s[..n]) + {s[n]};
    }
  }

  /** A complete layering leaves no room for a missing dependency or a cycle. */
  lemma LayeredMeansSound(deps: Deps, steps: seq<seq<Lib>>)
    requires Layered(deps, steps) && forall lib :: lib in deps ==> lib in Flatten(steps)
    ensures Closed(deps) && Acyclic(deps)
  {
    forall lib, d | lib in deps && d in deps[lib]
      ensures d in deps
    {
      FlattenMember(steps, lib);
      var i :| 0 <= i < |steps| && lib in steps[i];
      assert Placed(deps, steps, i, lib);
      FlattenMember(steps[..i], d);
      var k :| 0 <= k < i && d in steps[..i][k];
      assert Placed(deps, steps, k, d);
    }
    forall c
      ensures !IsCycle(deps, c)
    {
      if IsCycle(deps, c) {
        CycleClimbs(deps, steps, c);
      }
    }
  }

  lemma {:induction false} ChainDescends(deps: Deps, steps: seq<seq<Lib>>, i: nat, c: seq<Lib>) returns (k: nat)
    requires Layered(deps, steps) && i < |steps| && IsChain(deps, c) && c[0] in steps[i]
    ensures k + |c| - 1 <= i && c[|c| - 1] in steps[k]
    decreases |c|
  {
    if |c| == 1 {
      k := i;
    } else {
      assert Placed(deps, steps, i, c[0]);
      FlattenMember(steps[..i], c[1]);
      var j :| 0 <= j < i && c[1] in steps[..i][j];
      k := ChainDescends(deps, steps, j, c[1..]);
    }
  }

  /** Going around a cycle once would lower the round of its first library, again and again. */
  lemma {:induction false} NoDescent(deps: Deps, steps: seq<seq<Lib>>, i: nat, c: seq<Lib>)
    requires Layered(deps, steps) && i < |steps| && IsChain(deps, c) && |c| > 1 && c[0] in steps[i]
    ensures c[0] != c[|c| - 1]
    decreases i
  {
    if c[0] == c[|c| - 1] {
      var k := ChainDescends(deps, steps, i, c);
      NoDescent(deps, steps, k, c);
    }
  }

  lemma CycleClimbs(deps: Deps, steps: seq<seq<Lib>>, c: seq<Lib>)
    requires Layered(deps, steps) && IsChain(deps, c) && |c| > 1 && forall lib :: lib in deps ==> lib in Flatten(steps)
    ensures c[0] != c[|c| - 1]
  {
    FlattenMember(steps, c[0]);
    var i :| 0 <= i < |steps| && c[0] in steps[i];
    NoDescent(deps, steps, i, c);
  }

  /** The step and the place in it of the library at place `p` of the flattened list. */
  lemma {:induction false} FlattenPlace(steps: seq<seq<Lib>>, p: nat) returns (i: nat, o: nat)
    requires p < |Flatten(steps)|
    ensures i < |steps| && o < |steps[i]| && Flatten(steps)[p] == steps[i][o]
    ensures p == |Flatten(steps[..i])| + o && Flatten(steps[..i]) <= Flatten(steps)
  {
    var n := |steps| - 1;
    if p < |Flatten(steps[..n])| {
      i, o := FlattenPlace(steps[..n], p);
      assert steps[..n][..i] == steps[..i];
    } else {
      i, o := n, p - |Flatten(steps[..n])|;
      assert Flatten(steps)[p] == steps[n][o];
    }
  }

  lemma {:induction false} FlattenGrows(steps: seq<seq<Lib>>, i: nat, k: nat)
    requires i < k <= |steps|
    ensures |Flatten(steps[..i])| + |steps[i]| <= |Flatten(steps[..k])|
    decreases k
  {
    assert steps[..k][..k - 1] == steps[..k - 1];
    if i < k - 1 {
      FlattenGrows(steps, i, k - 1);
    }
  }

  /** The longest chain of dependencies out of the library has `n` links. */
  ghost predicate Longest(deps: Deps, lib: Lib, n: nat) {
    && (exists c :: IsChain(deps, c) && c[0] == lib && |c| - 1 == n)
    && (forall c :: IsChain(deps, c) && c[0] == lib ==> |c| - 1 <= n)
  }

  /** `x` has shorter longest chains than `y`, or equally long ones and an earlier key. */
  ghost predicate Sooner(deps: Deps, keys: seq<Lib>, x: Lib, y: Lib) {
    exists m: nat, n: nat :: Longest(deps, x, m) && Longest(deps, y, n) && (m < n || (m == n && Before(keys, x, y)))
  }

  lemma FlattenSooner(deps: Deps, keys: seq<Lib>, steps: seq<seq<Lib>>, p: nat, r: nat)
    requires Layered(deps, steps) && AllInOrder(keys, steps) && p < r < |Flatten(steps)|
    ensures Sooner(deps, keys, Flatten(steps)[p], Flatten(steps)[r])
  {
    hide Flatten, Layered, IsChain;
    var i, o := FlattenPlace(steps, p);
    var k, u := FlattenPlace(steps, r);
    if k < i {
      FlattenGrows(steps, k, i);
    }
    StepIsLongestChain(deps, steps, i, steps[i][o]);
    StepIsLongestChain(deps, steps, k, steps[k][u]);
    assert Longest(deps, steps[i][o], i) && Longest(deps, steps[k][u], k);
  }

  /** In the flattened order every library comes after all its dependencies. */
  lemma DependenciesFirst(deps: Deps, steps: seq<seq<Lib>>, p: nat, d: Lib)
    requires Layered(deps, steps) && p < |Flatten(steps)|
    requires Flatten(steps)[p] in deps && d in deps[Flatten(steps)[p]]
    ensures exists r :: 0 <= r < p && Flatten(steps)[r] == d
  {
    var i, o := FlattenPlace(steps, p);
    assert Placed(deps, steps, i, Flatten(steps)[p]);
    var r :| 0 <= r < |Flatten(steps[..i])| && Flatten(steps[..i])[r] == d;
    assert Flatten(steps)[r] == d;
  }

  /** sort_to_dependencies, from the dependency map on: all rounds, then their concatenation. It succeeds exactly when
      the map is closed and acyclic, and then lists every library once, after all its dependencies. */
  method SortToDependencies(deps: Deps, keys: seq<Lib>) returns (ok: bool, sorted: seq<Lib>)
    requires Distinct(keys) && forall lib :: lib in keys <==> lib in deps
    ensures ok <==> Closed(deps) && Acyclic(deps)
    ensures ok ==> Distinct(sorted) && forall lib :: lib in sorted <==> lib in deps
    ensures ok ==> forall p, d :: 0 <= p < |sorted| && d in deps[sorted[p]] ==> exists r :: 0 <= r < p && sorted[r] == d
    ensures ok ==> forall p, r :: 0 <= p < r < |sorted| ==> Sooner(deps, keys, sorted[p], sorted[r])
  {
    var loader := new Loader(deps, keys);
    ok := loader.DependencyOrder();
    sorted := [];
    if ok {
      LayeredMeansSound(deps, loader.steps);
      for i := 0 to |loader.steps|
        invariant sorted == Flatten(loader.steps[..i])
      {
        assert loader.steps[..i + 1][..i] == loader.steps[..i];
        sorted := sorted + loader.steps[i];
      }
      assert loader.steps[..|loader.steps|] == loader.steps;
      forall p, d | 0 <= p < |sorted| && d in deps[sorted[p]]
        ensures exists r :: 0 <= r < p && sorted[r] == d
      {
        DependenciesFirst(deps, loader.steps, p, d);
      }
      forall p, r | 0 <= p < r < |sorted|
        ensures Sooner(deps, keys, sorted[p], sorted[r])
      {
        FlattenSooner(deps, keys, loader.steps, p, r);
      }
    } else {
      BlockedMeansCycle(deps, loader.pending, loader.current);
    }
  }
}
