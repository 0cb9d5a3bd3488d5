/** The object that lists attribute paths, with its two stacks and its output. */
module StaticInformation {
  import opened Collections
  import opened TypeGraph

  type Record = (TypeId, string)

  /** A path as text: every item after a slash. */
  function Render(path: seq<string>): string {
    if path == [] then "" else Render(path[..|path| - 1]) + "/" + path[|path| - 1]
  }

  /** What is recorded for a trail from `t` when `prefix` is the path to `t`: its last type and its whole path. */
  ghost function RecordOf(g: Registry, prefix: seq<string>, t: TypeId, trail: seq<nat>): Record {
    if g.IsTrail(t, trail) then (g.Visited(t, trail)[|trail|], Render(prefix + g.Labels(t, trail)))
      else (g.objectId, "")
  }

  ghost function Records(g: Registry, prefix: seq<string>, t: TypeId, trails: seq<seq<nat>>): (r: seq<Record>)
    ensures |r| == |trails| && forall k :: 0 <= k < |r| ==> r[k] == RecordOf(g, prefix, t, trails[k])
  {
    seq(|trails|, k requires 0 <= k < |trails| => RecordOf(g, prefix, t, trails[k]))
  }

  lemma RecordsJoin(g: Registry, prefix: seq<string>, t: TypeId, a: seq<seq<nat>>, b: seq<seq<nat>>)
    ensures Records(g, prefix, t, a) + Records(g, prefix, t, b) == Records(g, prefix, t, a + b)
  {
  }

  lemma RecordsPrefixed(g: Registry, prefix: seq<string>, t: TypeId, i: nat, trails: seq<seq<nat>>)
    requires i < |g.Edges(t)|
    ensures Records(g, prefix + [g.Edges(t)[i].name], g.Edges(t)[i].target, trails) ==
            Records(g, prefix, t, Prefixed(i, trails))
  {
    var e := g.Edges(t)[i];
    forall k | 0 <= k < |trails|
      ensures RecordOf(g, prefix + [e.name], e.target, trails[k]) == RecordOf(g, prefix, t, [i] + trails[k])
    {
      var trail := [i] + trails[k];
      assert trail[1..] == trails[k] && trail[0] == i;
      if g.IsTrail(e.target, trails[k]) {
        assert g.Visited(t, trail) == [t] + g.Visited(e.target, trails[k]);
        assert g.Labels(t, trail) == [e.name] + g.Labels(e.target, trails[k]);
        assert prefix + [e.name] + g.Labels(e.target, trails[k]) == prefix + g.Labels(t, trail);
      }
    }
  }

  // ----- the edges met by the three loops

  lemma {:induction false} AttributePrefix(g: Registry, attrs: seq<Attribute>, a: nat, b: nat)
    requires a <= b <= |attrs|
    ensures g.AttributeEdges(attrs[..a]) <= g.AttributeEdges(attrs[..b])
    decreases b
  {
    if a < b {
      AttributePrefix(g, attrs, a, b - 1);
      assert attrs[..b][..b - 1] == attrs[..b - 1];
    }
  }

  lemma {:induction false} ChildPrefix(g: Registry, t: TypeId, cs: seq<TypeId>, a: nat, b: nat)
    requires a <= b <= |cs|
    ensures g.ChildEdges(t, cs[..a]) <= g.ChildEdges(t, cs[..b])
    decreases b
  {
    if a < b {
      ChildPrefix(g, t, cs, a, b - 1);
      assert cs[..b][..b - 1] == cs[..b - 1];
    }
  }

  lemma {:induction false} AggregatePrefix(g: Registry, t: TypeId, ps: seq<(TypeId, TypeId)>, a: nat, b: nat)
    requires a <= b <= |ps|
    ensures g.AggregateEdges(t, ps[..a]) <= g.AggregateEdges(t, ps[..b])
    decreases b
  {
    if a < b {
      AggregatePrefix(g, t, ps, a, b - 1);
      assert ps[..b][..b - 1] == ps[..b - 1];
    }
  }

  /** `more` are the edges out of `t` that come next after the first `n`. */
  ghost predicate Next(g: Registry, t: TypeId, n: nat, more: seq<Edge>) {
    n + |more| <= |g.Edges(t)| && g.Edges(t)[n..n + |more|] == more
  }

  /** A stretch of one of three joined lists is found where it stands in the whole. */
  lemma Stretch(g: Registry, t: TypeId, a: seq<Edge>, list: seq<Edge>, b: seq<Edge>, front: seq<Edge>, more: seq<Edge>)
    requires g.Edges(t) == a + list + b && front + more <= list
    ensures Next(g, t, |a| + |front|, more)
  {
    var all, n := a + list + b, |a| + |front|;
    forall k | 0 <= k < |more|
      ensures all[n..n + |more|][k] == more[k]
    {
      assert (front + more)[|front| + k] == list[|front| + k];
    }
  }

  lemma NextAttribute(g: Registry, t: TypeId, a: nat)
    requires a < |g.Attributes(t)|
    ensures
      var attrs := g.Attributes(t);
      && Next(g, t, |g.AttributeEdges(attrs[..a])|, g.OfAttribute(attrs[a]))
      && |g.AttributeEdges(attrs[..a + 1])| == |g.AttributeEdges(attrs[..a])| + |g.OfAttribute(attrs[a])|
  {
    hide Next, g.Edges, g.OfAttribute, g.ChildEdges, g.AggregateEdges;
    var attrs := g.Attributes(t);
    var all := g.AttributeEdges(attrs);
    AttributeStep(g, attrs, a);
    AttributePrefix(g, attrs, a + 1, |attrs|);
    assert attrs[..|attrs|] == attrs;
    EdgesJoin(g, t);
    hide g.AttributeEdges;
    Stretch(g, t, [], all, g.ChildEdges(t, g.registered) + g.AggregateEdges(t, g.aggregates),
            g.AttributeEdges(attrs[..a]), g.OfAttribute(attrs[a]));
  }

  lemma AttributeStep(g: Registry, attrs: seq<Attribute>, a: nat)
    requires a < |attrs|
    ensures g.AttributeEdges(attrs[..a + 1]) == g.AttributeEdges(attrs[..a]) + g.OfAttribute(attrs[a])
  {
    assert attrs[..a + 1][..a] == attrs[..a];
  }

  lemma EdgesJoin(g: Registry, t: TypeId)
    ensures g.Edges(t) == g.AttributeEdges(g.Attributes(t)) + g.ChildEdges(t, g.registered) +
            g.AggregateEdges(t, g.aggregates)
    ensures g.Edges(t) == [] + g.AttributeEdges(g.Attributes(t)) +
            (g.ChildEdges(t, g.registered) + g.AggregateEdges(t, g.aggregates))
    ensures g.Edges(t) == g.AttributeEdges(g.Attributes(t)) + g.ChildEdges(t, g.registered) +
            g.AggregateEdges(t, g.aggregates) + []
  {
    hide g.AttributeEdges, g.ChildEdges, g.AggregateEdges;
  }

  lemma NextChild(g: Registry, t: TypeId, j: nat)
    requires j < |g.registered|
    ensures
      var n := |g.AttributeEdges(g.Attributes(t))|;
      && Next(g, t, n + |g.ChildEdges(t, g.registered[..j])|, g.OfChild(t, g.registered[j]))
      && |g.ChildEdges(t, g.registered[..j + 1])| ==
        |g.ChildEdges(t, g.registered[..j])| + |g.OfChild(t, g.registered[j])|
  {
    hide Next, g.Edges, g.OfChild, g.AttributeEdges, g.AggregateEdges;
    var cs := g.registered;
    assert g.ChildEdges(t, cs[..j + 1]) == g.ChildEdges(t, cs[..j]) + g.OfChild(t, cs[j]) by {
      assert cs[..j + 1][..j] == cs[..j];
    }
    hide g.ChildEdges;
    ChildPrefix(g, t, cs, j + 1, |cs|);
    assert cs[..|cs|] == cs;
    EdgesJoin(g, t);
    Stretch(g, t, g.AttributeEdges(g.Attributes(t)), g.ChildEdges(t, cs), g.AggregateEdges(t, g.aggregates),
            g.ChildEdges(t, cs[..j]), g.OfChild(t, cs[j]));
  }

  lemma NextAggregate(g: Registry, t: TypeId, j: nat)
    requires j < |g.aggregates|
    ensures
      var n := |g.AttributeEdges(g.Attributes(t))| + |g.ChildEdges(t, g.registered)|;
      && Next(g, t, n + |g.AggregateEdges(t, g.aggregates[..j])|, g.OfAggregate(t, g.aggregates[j]))
      && |g.AggregateEdges(t, g.aggregates[..j + 1])| ==
        |g.AggregateEdges(t, g.aggregates[..j])| + |g.OfAggregate(t, g.aggregates[j])|
  {
    hide Next, g.Edges, g.OfAggregate, g.AttributeEdges, g.ChildEdges;
    var ps := g.aggregates;
    assert g.AggregateEdges(t, ps[..j + 1]) == g.AggregateEdges(t, ps[..j]) + g.OfAggregate(t, ps[j]) by {
      assert ps[..j + 1][..j] == ps[..j];
    }
    hide g.AggregateEdges;
    AggregatePrefix(g, t, ps, j + 1, |ps|);
    assert ps[..|ps|] == ps;
    EdgesJoin(g, t);
    Stretch(g, t, g.AttributeEdges(g.Attributes(t)) + g.ChildEdges(t, g.registered), g.AggregateEdges(t, ps), [],
            g.AggregateEdges(t, ps[..j]), g.OfAggregate(t, ps[j]));
  }

  /** `out` followed by what visiting `t` records up to and including its first `n` edges. */
  ghost predicate Recorded(g: Registry, output: seq<Record>, out: seq<Record>, path: seq<string>, stack: seq<TypeId>,
                           t: TypeId, n: nat)
    requires g.Closed() && t in g.ids
  {
    t !in stack && n <= |g.Edges(t)| && output == out + Records(g, path, t, [[]] + g.Below(stack, t, n))
  }

  lemma RecordedStart(g: Registry, out: seq<Record>, path: seq<string>, stack: seq<TypeId>, t: TypeId)
    requires g.Closed() && t in g.ids && t !in stack
    ensures Recorded(g, out + [(t, Render(path))], out, path, stack, t, 0)
  {
    assert path + g.Labels(t, []) == path;
  }

  lemma RecordedStep(g: Registry, output: seq<Record>, out: seq<Record>, path: seq<string>, stack: seq<TypeId>,
                     t: TypeId, n: nat, e: Edge)
    requires g.Closed() && t in g.ids && e.target in g.ids && Recorded(g, output, out, path, stack, t, n) &&
             Next(g, t, n, [e])
    ensures Recorded(g, output + Records(g, path + [e.name], e.target, g.Trails(stack + [t], e.target)), out, path,
                     stack, t, n + 1)
  {
    hide Records, Next, Prefixed, g.Edges, g.Below, g.Trails, g.Closed;
    NextIs(g, t, n, e);
    var child := g.Trails(stack + [t], e.target);
    var below, more := [[]] + g.Below(stack, t, n), Prefixed(n, child);
    BelowStep(g, stack, t, n);
    RecordsPrefixed(g, path, t, n, child);
    RecordsJoin(g, path, t, below, more);
    assert output + Records(g, path, t, more) == out + (Records(g, path, t, below) + Records(g, path, t, more));
  }

  lemma BelowStep(g: Registry, stack: seq<TypeId>, t: TypeId, n: nat)
    requires g.Closed() && t in g.ids && t !in stack && n < |g.Edges(t)| && g.Edges(t)[n].target in g.ids
    ensures [[]] + g.Below(stack, t, n + 1) ==
            [[]] + g.Below(stack, t, n) + Prefixed(n, g.Trails(stack + [t], g.Edges(t)[n].target))
  {
    assert g.Below(stack, t, n + 1) == g.Below(stack, t, n) + Prefixed(n, g.Trails(stack + [t], g.Edges(t)[n].target));
  }

  lemma NextIs(g: Registry, t: TypeId, n: nat, e: Edge)
    requires Next(g, t, n, [e])
    ensures n < |g.Edges(t)| && g.Edges(t)[n] == e
  {
    assert g.Edges(t)[n] == g.Edges(t)[n..n + 1][0];
  }

  lemma NextStays(g: Registry, t: TypeId, n: nat, e: Edge)
    requires g.Closed() && Next(g, t, n, [e])
    ensures e.target in g.ids
  {
    g.EdgesStay(t);
    NextIs(g, t, n, e);
  }

  lemma NoEdges(g: Registry, t: TypeId)
    ensures g.AttributeEdges([]) == [] && g.ChildEdges(t, []) == [] && g.AggregateEdges(t, []) == []
    ensures |g.Edges(t)| == |g.AttributeEdges(g.Attributes(t))| + |g.ChildEdges(t, g.registered)| +
            |g.AggregateEdges(t, g.aggregates)|
  {
  }

  /** What gathering the roots one after the other records. */
  ghost function Gathered(g: Registry, roots: seq<TypeId>): seq<Record>
    requires g.Closed() && forall r :: r in roots ==> r in g.ids
  {
    if roots == [] then []
    else
      var last := roots[|roots| - 1];
      Gathered(g, roots[..|roots| - 1]) + Records(g, [], last, g.Trails([], last))
  }

  lemma NothingGathered(g: Registry)
    requires g.Closed()
    ensures Gathered(g, []) == []
  {
  }

  lemma GatheredMore(g: Registry, roots: seq<TypeId>, i: nat)
    requires g.Closed() && i < |roots| && forall r :: r in roots ==> r in g.ids
    ensures roots[i] in g.ids
    ensures Gathered(g, roots[..i + 1]) == Gathered(g, roots[..i]) + Records(g, [], roots[i], g.Trails([], roots[i]))
  {
    hide Records, g.Trails;
    var part := roots[..i + 1];
    assert part[..i] == roots[..i] && part[|part| - 1] == roots[i];
    var root := roots[i];
    assert root in roots;
  }

  class StaticInformation {
    const g: Registry
    var currentPath: seq<string>
    var alreadyProcessed: seq<TypeId>
    var output: seq<Record>

    constructor (g: Registry)
      ensures this.g == g && currentPath == [] && alreadyProcessed == [] && output == []
    {
      this.g := g;
      currentPath, alreadyProcessed, output := [], [], [];
    }

    method GetCurrentPath() returns (text: string)
      ensures text == Render(currentPath)
    {
      text := "";
      for i := 0 to |currentPath|
        invariant text == Render(currentPath[..i])
      {
        assert currentPath[..i + 1][..i] == currentPath[..i];
        text := text + "/" + currentPath[i];
      }
      assert currentPath[..|currentPath|] == currentPath;
    }

    method RecordOutput(t: TypeId)
      modifies this`output
      ensures output == old(output) + [(t, Render(currentPath))]
    {
      var text := GetCurrentPath();
      output := output + [(t, text)];
    }

    method HasAlreadyBeenProcessed(t: TypeId) returns (found: bool)
      ensures found <==> t in alreadyProcessed
    {
      for i := 0 to |alreadyProcessed|
        invariant t !in alreadyProcessed[..i]
      {
        if alreadyProcessed[i] == t { return true; }
      }
      return false;
    }

    /** Pushes one edge on both stacks, visits its target, and pops both. */
    method Follow(t: TypeId, e: Edge, ghost n: nat, ghost out: seq<Record>)
      requires g.Closed() && t in g.ids && Next(g, t, n, [e])
      requires Recorded(g, output, out, currentPath, alreadyProcessed, t, n)
      modifies this
      ensures currentPath == old(currentPath) && alreadyProcessed == old(alreadyProcessed)
      ensures Recorded(g, output, out, currentPath, alreadyProcessed, t, n + 1)
      decreases g.Fresh(alreadyProcessed), 0
    {
      assert t in g.Fresh(alreadyProcessed) && t !in g.Fresh(alreadyProcessed + [t]);
      hide Recorded, Next, Records;
      NextStays(g, t, n, e);
      RecordedStep(g, output, out, currentPath, alreadyProcessed, t, n, e);
      currentPath := currentPath + [e.name];
      alreadyProcessed := alreadyProcessed + [t];
      DoGather(e.target);
      alreadyProcessed := alreadyProcessed[..|alreadyProcessed| - 1];
      currentPath := currentPath[..|currentPath| - 1];
    }

    /** The recursive visit. It records one entry for each simple trail, in preorder, and restores both stacks. */
    method DoGather(t: TypeId)
      requires g.Closed() && t in g.ids
      modifies this
      ensures currentPath == old(currentPath) && alreadyProcessed == old(alreadyProcessed)
      ensures output == old(output) + Records(g, currentPath, t, g.Trails(alreadyProcessed, t))
      decreases g.Fresh(alreadyProcessed), 2
    {
      var processed := HasAlreadyBeenProcessed(t);
      if processed { return; }
      RecordedStart(g, output, currentPath, alreadyProcessed, t);
      ghost var out := output;
      RecordOutput(t);
      FollowAttributes(t, out);
      FollowChildren(t, out);
      FollowAggregates(t, out);
    }

    method FollowAttributes(t: TypeId, ghost out: seq<Record>)
      requires g.Closed() && t in g.ids && Recorded(g, output, out, currentPath, alreadyProcessed, t, 0)
      modifies this
      ensures currentPath == old(currentPath) && alreadyProcessed == old(alreadyProcessed)
      ensures Recorded(g, output, out, currentPath, alreadyProcessed, t, |g.AttributeEdges(g.Attributes(t))|)
      decreases g.Fresh(alreadyProcessed), 1
    {
      hide Recorded, Next, g.Edges, g.AttributeEdges, g.ChildEdges, g.AggregateEdges;
      NoEdges(g, t);
      var attrs := g.Attributes(t);
      ghost var n := 0;
      for a := 0 to |attrs|
        invariant currentPath == old(currentPath) && alreadyProcessed == old(alreadyProcessed)
        invariant n == |g.AttributeEdges(attrs[..a])| && Recorded(g, output, out, currentPath, alreadyProcessed, t, n)
      {
        NextAttribute(g, t, a);
        match attrs[a] {
          case Plain =>
          case Pointer(name, pointee) =>
            if pointee != g.objectId {
              Follow(t, Edge(name, pointee), n, out);
              n := n + 1;
            }
          case Vector(name, item) =>
            Follow(t, Edge(name + "/[i]", item), n, out);
            n := n + 1;
        }
      }
      assert attrs[..|attrs|] == attrs;
    }

    method FollowChildren(t: TypeId, ghost out: seq<Record>)
      requires g.Closed() && t in g.ids
      requires Recorded(g, output, out, currentPath, alreadyProcessed, t, |g.AttributeEdges(g.Attributes(t))|)
      modifies this
      ensures currentPath == old(currentPath) && alreadyProcessed == old(alreadyProcessed)
      ensures Recorded(g, output, out, currentPath, alreadyProcessed, t,
                       |g.AttributeEdges(g.Attributes(t))| + |g.ChildEdges(t, g.registered)|)
      decreases g.Fresh(alreadyProcessed), 1
    {
      hide Recorded, Next, g.Edges, g.AttributeEdges, g.ChildEdges, g.AggregateEdges;
      NoEdges(g, t);
      ghost var n := |g.AttributeEdges(g.Attributes(t))|;
      for j := 0 to |g.registered|
        invariant currentPath == old(currentPath) && alreadyProcessed == old(alreadyProcessed)
        invariant n == |g.AttributeEdges(g.Attributes(t))| + |g.ChildEdges(t, g.registered[..j])|
        invariant Recorded(g, output, out, currentPath, alreadyProcessed, t, n)
      {
        NextChild(g, t, j);
        var child := g.registered[j];
        if g.IsChildOf(child, t) {
          Follow(t, Edge("$" + g.Name(child), child), n, out);
          n := n + 1;
        }
      }
      assert g.registered[..|g.registered|] == g.registered;
    }

    method FollowAggregates(t: TypeId, ghost out: seq<Record>)
      requires g.Closed() && t in g.ids
      requires Recorded(g, output, out, currentPath, alreadyProcessed, t,
                        |g.AttributeEdges(g.Attributes(t))| + |g.ChildEdges(t, g.registered)|)
      modifies this
      ensures currentPath == old(currentPath) && alreadyProcessed == old(alreadyProcessed)
      ensures Recorded(g, output, out, currentPath, alreadyProcessed, t, |g.Edges(t)|)
      decreases g.Fresh(alreadyProcessed), 1
    {
      hide Recorded, Next, g.Edges, g.AttributeEdges, g.ChildEdges, g.AggregateEdges;
      NoEdges(g, t);
      ghost var base := |g.AttributeEdges(g.Attributes(t))| + |g.ChildEdges(t, g.registered)|;
      ghost var n := base;
      for j := 0 to |g.aggregates|
        invariant currentPath == old(currentPath) && alreadyProcessed == old(alreadyProcessed)
        invariant n == base + |g.AggregateEdges(t, g.aggregates[..j])|
        invariant Recorded(g, output, out, currentPath, alreadyProcessed, t, n)
      {
        NextAggregate(g, t, j);
        var item := g.aggregates[j];
        if item.0 == t || item.1 == t {
          var other := t;
          if item.0 == t { other := item.1; }
          if item.1 == t { other := item.0; }
          Follow(t, Edge("$" + g.Name(other), other), n, out);
          n := n + 1;
        }
      }
      assert g.aggregates[..|g.aggregates|] == g.aggregates;
    }

    /** Gather also calls Uniquefy, but hands it a copy of `m_output` that is then dropped: nothing is removed. */
    method Gather(t: TypeId)
      requires g.Closed() && t in g.ids && alreadyProcessed == [] && currentPath == []
      modifies this
      ensures alreadyProcessed == [] && currentPath == []
      ensures output == old(output) + Records(g, [], t, g.Trails([], t))
    {
      DoGather(t);
    }

    /** The loop over the root objects of the configuration namespace, given by their types. */
    method GatherRoots(roots: seq<TypeId>)
      requires g.Closed() && alreadyProcessed == [] && currentPath == [] && forall r :: r in roots ==> r in g.ids
      modifies this
      ensures alreadyProcessed == [] && currentPath == []
      ensures output == old(output) + Gathered(g, roots)
    {
      hide Records, Gathered, g.Trails, g.Closed;
      NothingGathered(g);
      ghost var out := output;
      for i := 0 to |roots|
        invariant alreadyProcessed == [] && currentPath == []
        invariant (forall r :: r in roots[..i] ==> r in g.ids) && output == out + Gathered(g, roots[..i])
      {
        GatheredMore(g, roots, i);
        Gather(roots[i]);
        assert roots[..i + 1] == roots[..i] + [roots[i]];
      }
      assert roots[..|roots|] == roots;
    }

    /** The paths recorded for one type. */
    method Get(t: TypeId) returns (paths: seq<string>)
      ensures paths == PathsOf(output, t)
    {
      paths := [];
      for i := 0 to |output|
        invariant paths == PathsOf(output[..i], t)
      {
        assert output[..i + 1][..i] == output[..i];
        if output[i].0 == t { paths := paths + [output[i].1]; }
      }
      assert output[..|output|] == output;
    }
  }

  function PathsOf(output: seq<Record>, t: TypeId): seq<string> {
    if output == [] then []
    else
      var last := output[|output| - 1];
      PathsOf(output[..|output| - 1], t) + if last.0 == t then [last.1] else []
  }

  /** The paths come in the order of the listing, each as often as it is listed for the type. */
  lemma {:induction false} PathsOfJoin(a: seq<Record>, b: seq<Record>, t: TypeId)
    ensures PathsOf(a + b, t) == PathsOf(a, t) + PathsOf(b, t)
    ensures |b| == 1 ==> PathsOf(b, t) == if b[0].0 == t then [b[0].1] else []
    decreases |b|
  {
    if b == [] {
      assert a + b == a;
    } else {
      var n := |b| - 1;
      PathsOfJoin(a, b[..n], t);
      assert (a + b)[..|a + b| - 1] == a + b[..n];
    }
  }

  // ----- what the listing amounts to

  /** Gather records one entry for each walk from the root that repeats no type, in preorder, and no other entry. */
  lemma GatherListsSimpleTrails(g: Registry, root: TypeId)
    requires g.Closed() && root in g.ids
    ensures
      var trails := g.Trails([], root);
      && Increasing(trails) && Distinct(trails)
      && (forall trail :: trail in trails <==> g.IsTrail(root, trail) && Distinct(g.Visited(root, trail)))
      && |Records(g, [], root, trails)| == |trails|
      && forall k :: 0 <= k < |trails| ==>
           Records(g, [], root, trails)[k] ==
             (g.Visited(root, trails[k])[|trails[k]|], Render(g.Labels(root, trails[k])))
  {
    var trails := g.Trails([], root);
    ListedInPreorder(g, [], root);
    IncreasingDistinct(trails);
    forall trail
      ensures trail in trails <==> g.IsTrail(root, trail) && Distinct(g.Visited(root, trail))
    {
      ListedIffSimple(g, [], root, trail);
    }
    forall k | 0 <= k < |trails|
      ensures RecordOf(g, [], root, trails[k]) ==
              (g.Visited(root, trails[k])[|trails[k]|], Render(g.Labels(root, trails[k])))
    {
      assert trails[k] in trails;
      assert [] + g.Labels(root, trails[k]) == g.Labels(root, trails[k]);
    }
  }

  lemma {:induction false} PathsOfMember(output: seq<Record>, t: TypeId, path: string)
    ensures path in PathsOf(output, t) <==> (t, path) in output
  {
    if output != [] {
      PathsOfMember(output[..|output| - 1], t, path);
      assert output == output[..|output| - 1] + [output[|output| - 1]];
    }
  }

  /** After Gather, a path is reported for a type exactly when some simple trail from the root to that type reads so. */
  lemma GetReportsTrails(g: Registry, root: TypeId, t: TypeId, path: string)
    requires g.Closed() && root in g.ids
    ensures path in PathsOf(Records(g, [], root, g.Trails([], root)), t) <==>
            exists trail :: g.IsSimple([], root, trail) && RecordOf(g, [], root, trail) == (t, path)
  {
    hide Records, RecordOf, g.Trails, g.IsSimple, PathsOf;
    var trails := g.Trails([], root);
    var rs := Records(g, [], root, trails);
    PathsOfMember(rs, t, path);
    ListedAre(g, root);
    if (t, path) in rs {
      var k :| 0 <= k < |rs| && rs[k] == (t, path);
      assert trails[k] in trails;
    }
    if trail :| g.IsSimple([], root, trail) && RecordOf(g, [], root, trail) == (t, path) {
      var k :| 0 <= k < |trails| && trails[k] == trail;
      assert rs[k] == (t, path);
    }
  }

  lemma ListedAre(g: Registry, root: TypeId)
    requires g.Closed() && root in g.ids
    ensures Distinct(g.Trails([], root))
    ensures forall trail :: trail in g.Trails([], root) <==> g.IsSimple([], root, trail)
  {
    ListedInPreorder(g, [], root);
    IncreasingDistinct(g.Trails([], root));
    forall trail
      ensures trail in g.Trails([], root) <==> g.IsSimple([], root, trail)
    {
      ListedIffSimple(g, [], root, trail);
    }
  }
}
