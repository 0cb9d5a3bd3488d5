/** The edges that the introspection program follows, and the walks it lists, in terms of the registry alone. */
module AttributeWalks {
  import opened Collections
  import opened Duplicates
  import opened StaticInformation
  import opened TypeGraph

  // ----- where the edges of a type come from

  /** An attribute of the type, a registered type, or a recorded pair, by its place. */
  datatype Origin = Attr(i: nat) | Child(i: nat) | Pair(i: nat)

  /** Attributes come first, then children, then pairs, each by place. */
  predicate ComesBefore(a: Origin, b: Origin) {
    match (a, b)
    case (Attr(i), Attr(j)) => i < j
    case (Attr(_), _) => true
    case (Child(i), Child(j)) => i < j
    case (Child(_), Pair(_)) => true
    case (Pair(i), Pair(j)) => i < j
    case _ => false
  }

  /** What is followed from `t`: attributes that point to a type other than the base Object, attributes that hold a
      vector, registered children of `t`, and recorded pairs with `t` on either side. */
  ghost predicate IsFollowed(g: Registry, t: TypeId, o: Origin) {
    match o
    case Attr(i) =>
      t in g.attributes && i < |g.attributes[t]| &&
      var a := g.attributes[t][i];
      (a.Pointer? && a.pointee != g.objectId) || a.Vector?
    case Child(i) => i < |g.registered| && (g.registered[i], t) in g.children
    case Pair(i) => i < |g.aggregates| && (g.aggregates[i].0 == t || g.aggregates[i].1 == t)
  }

  /** Under which label, and to which type. */
  ghost function Followed(g: Registry, t: TypeId, o: Origin): Edge
    requires IsFollowed(g, t, o)
  {
    match o
    case Attr(i) =>
      var a := g.attributes[t][i];
      if a.Pointer? then Edge(a.name, a.pointee) else Edge(a.name + "/[i]", a.item)
    case Child(i) => Edge("$" + g.Name(g.registered[i]), g.registered[i])
    case Pair(i) =>
      var partner := if g.aggregates[i].1 == t then g.aggregates[i].0 else g.aggregates[i].1;
      Edge("$" + g.Name(partner), partner)
  }

  /** Edge `k` of the list comes from the origin at place `k`. */
  ghost predicate ComeFrom(g: Registry, t: TypeId, edges: seq<Edge>, os: seq<Origin>) {
    |edges| == |os| && forall k :: 0 <= k < |os| ==> IsFollowed(g, t, os[k]) && edges[k] == Followed(g, t, os[k])
  }

  ghost predicate InOrder(os: seq<Origin>) {
    forall k, l :: 0 <= k < l < |os| ==> ComesBefore(os[k], os[l])
  }

  lemma {:induction false} AttributeOrigins(g: Registry, t: TypeId, n: nat) returns (os: seq<Origin>)
    requires n <= |g.Attributes(t)|
    ensures ComeFrom(g, t, g.AttributeEdges(g.Attributes(t)[..n]), os) && InOrder(os)
    ensures forall o :: o in os <==> o.Attr? && o.i < n && IsFollowed(g, t, o)
    ensures forall k :: 0 <= k < |os| ==> os[k] in os
  {
    if n == 0 {
      os := [];
    } else {
      var front := AttributeOrigins(g, t, n - 1);
      var attrs := g.Attributes(t);
      assert attrs[..n][..n - 1] == attrs[..n - 1];
      os := front + if g.OfAttribute(attrs[n - 1]) == [] then [] else [Attr(n - 1)];
    }
  }

  lemma {:induction false} ChildOrigins(g: Registry, t: TypeId, n: nat) returns (os: seq<Origin>)
    requires n <= |g.registered|
    ensures ComeFrom(g, t, g.ChildEdges(t, g.registered[..n]), os) && InOrder(os)
    ensures forall o :: o in os <==> o.Child? && o.i < n && IsFollowed(g, t, o)
    ensures forall k :: 0 <= k < |os| ==> os[k] in os
  {
    if n == 0 {
      os := [];
    } else {
      var front := ChildOrigins(g, t, n - 1);
      assert g.registered[..n][..n - 1] == g.registered[..n - 1];
      os := front + if g.OfChild(t, g.registered[n - 1]) == [] then [] else [Child(n - 1)];
    }
  }

  lemma {:induction false} PairOrigins(g: Registry, t: TypeId, n: nat) returns (os: seq<Origin>)
    requires n <= |g.aggregates|
    ensures ComeFrom(g, t, g.AggregateEdges(t, g.aggregates[..n]), os) && InOrder(os)
    ensures forall o :: o in os <==> o.Pair? && o.i < n && IsFollowed(g, t, o)
    ensures forall k :: 0 <= k < |os| ==> os[k] in os
  {
    if n == 0 {
      os := [];
    } else {
      var front := PairOrigins(g, t, n - 1);
      assert g.aggregates[..n][..n - 1] == g.aggregates[..n - 1];
      os := front + if g.OfAggregate(t, g.aggregates[n - 1]) == [] then [] else [Pair(n - 1)];
    }
  }

  /** The edges of a type are exactly what is followed from it, each once, in order. */
  lemma EdgesComeFrom(g: Registry, t: TypeId) returns (os: seq<Origin>)
    ensures ComeFrom(g, t, g.Edges(t), os) && InOrder(os)
    ensures forall o :: o in os <==> IsFollowed(g, t, o)
  {
    hide g.AttributeEdges, g.ChildEdges, g.AggregateEdges, Followed;
    var attrs := g.Attributes(t);
    assert attrs[..|attrs|] == attrs && g.registered[..|g.registered|] == g.registered;
    assert g.aggregates[..|g.aggregates|] == g.aggregates;
    var a := AttributeOrigins(g, t, |attrs|);
    var c := ChildOrigins(g, t, |g.registered|);
    var p := PairOrigins(g, t, |g.aggregates|);
    os := a + c + p;
  }

  // ----- walks

  /** One step of the listing, whatever its origin. */
  ghost predicate Leads(g: Registry, t: TypeId, name: string, u: TypeId) {
    exists o :: IsFollowed(g, t, o) && Followed(g, t, o) == Edge(name, u)
  }

  /** A walk that repeats no type, with the labels of its steps. */
  ghost predicate IsWalk(g: Registry, types: seq<TypeId>, labels: seq<string>) {
    && |types| == |labels| + 1 && Distinct(types)
    && forall k :: 0 <= k < |labels| ==> Leads(g, types[k], labels[k], types[k + 1])
  }

  ghost predicate WalksTo(g: Registry, root: TypeId, types: seq<TypeId>, labels: seq<string>, u: TypeId) {
    IsWalk(g, types, labels) && types[0] == root && types[|labels|] == u
  }

  /** Every label after a slash. */
  function PathText(labels: seq<string>): string {
    if labels == [] then "" else "/" + labels[0] + PathText(labels[1..])
  }

  lemma {:induction false} RenderIsText(labels: seq<string>)
    ensures Render(labels) == PathText(labels)
  {
    if labels != [] {
      RenderIsText(labels[1..]);
      RenderCons(labels[0], labels[1..]);
      assert labels == [labels[0]] + labels[1..];
    }
  }

  lemma EdgeLeads(g: Registry, t: TypeId, i: nat)
    requires i < |g.Edges(t)|
    ensures Leads(g, t, g.Edges(t)[i].name, g.Edges(t)[i].target)
  {
    var os := EdgesComeFrom(g, t);
    hide g.Edges, IsFollowed, Followed;
    assert IsFollowed(g, t, os[i]) && g.Edges(t)[i] == Followed(g, t, os[i]);
  }

  lemma LeadsAlongEdge(g: Registry, t: TypeId, name: string, u: TypeId) returns (i: nat)
    requires Leads(g, t, name, u)
    ensures i < |g.Edges(t)| && g.Edges(t)[i] == Edge(name, u)
  {
    var os := EdgesComeFrom(g, t);
    hide g.Edges, IsFollowed, Followed;
    var o :| IsFollowed(g, t, o) && Followed(g, t, o) == Edge(name, u);
    assert o in os;
    i :| 0 <= i < |os| && os[i] == o;
  }

  lemma {:induction false} TrailWalks(g: Registry, t: TypeId, trail: seq<nat>)
    requires g.IsTrail(t, trail)
    ensures
      var types, labels := g.Visited(t, trail), g.Labels(t, trail);
      && |types| == |labels| + 1
      && forall k :: 0 <= k < |labels| ==> Leads(g, types[k], labels[k], types[k + 1])
    decreases trail
  {
    hide g.Edges, Leads;
    if trail != [] {
      var next := g.Edges(t)[trail[0]].target;
      EdgeLeads(g, t, trail[0]);
      TrailWalks(g, next, trail[1..]);
      var types, labels := g.Visited(t, trail), g.Labels(t, trail);
      var types', labels' := g.Visited(next, trail[1..]), g.Labels(next, trail[1..]);
      assert types == [t] + types' && labels == [g.Edges(t)[trail[0]].name] + labels';
      forall k | 0 <= k < |labels|
        ensures Leads(g, types[k], labels[k], types[k + 1])
      {
        if k > 0 {
          assert Leads(g, types'[k - 1], labels'[k - 1], types'[k - 1 + 1]);
        }
      }
    }
  }

  lemma {:induction false} WalkTrail(g: Registry, types: seq<TypeId>, labels: seq<string>) returns (trail: seq<nat>)
    requires |types| == |labels| + 1
    requires forall k :: 0 <= k < |labels| ==> Leads(g, types[k], labels[k], types[k + 1])
    ensures g.IsTrail(types[0], trail) && g.Visited(types[0], trail) == types && g.Labels(types[0], trail) == labels
    decreases |labels|
  {
    hide g.Edges, Leads;
    if labels == [] {
      trail := [];
    } else {
      assert Leads(g, types[0], labels[0], types[0 + 1]);
      var i := LeadsAlongEdge(g, types[0], labels[0], types[1]);
      forall k | 0 <= k < |labels[1..]|
        ensures Leads(g, types[1..][k], labels[1..][k], types[1..][k + 1])
      {
        assert Leads(g, types[k + 1], labels[k + 1], types[k + 1 + 1]);
      }
      var rest := WalkTrail(g, types[1..], labels[1..]);
      trail := [i] + rest;
      assert trail[1..] == rest;
    }
  }

  /** Gathering from a root records a type with a path text exactly when some walk over attributes, children and pairs
      that repeats no type leads from the root to it and reads so. */
  lemma GatherListsWalks(g: Registry, root: TypeId, u: TypeId, text: string)
    requires g.Closed() && root in g.ids
    ensures (u, text) in Records(g, [], root, g.Trails([], root)) <==>
              exists types, labels :: WalksTo(g, root, types, labels, u) && text == PathText(labels)
  {
    hide Records, g.Trails, g.Closed, g.Edges, IsWalk, PathText, Render, Leads;
    ListedAre(g, root);
    var trails := g.Trails([], root);
    var rs := Records(g, [], root, trails);
    if (u, text) in rs {
      var k :| 0 <= k < |rs| && rs[k] == (u, text);
      assert trails[k] in trails;
      RecordIsWalk(g, root, trails[k]);
      assert WalksTo(g, root, g.Visited(root, trails[k]), g.Labels(root, trails[k]), u);
    }
    if types, labels :| WalksTo(g, root, types, labels, u) && text == PathText(labels) {
      var trail := WalkIsRecord(g, root, types, labels);
      var k :| 0 <= k < |trails| && trails[k] == trail;
      assert rs[k] == (u, text);
    }
  }

  lemma RecordIsWalk(g: Registry, root: TypeId, trail: seq<nat>)
    requires g.IsSimple([], root, trail)
    ensures
      var types, labels := g.Visited(root, trail), g.Labels(root, trail);
      && IsWalk(g, types, labels) && types[0] == root
      && RecordOf(g, [], root, trail) == (types[|labels|], PathText(labels))
  {
    hide g.Edges, Render, PathText, Leads;
    TrailWalks(g, root, trail);
    var labels := g.Labels(root, trail);
    assert [] + labels == labels;
    RenderIsText(labels);
  }

  lemma WalkIsRecord(g: Registry, root: TypeId, types: seq<TypeId>, labels: seq<string>) returns (trail: seq<nat>)
    requires IsWalk(g, types, labels) && types[0] == root
    ensures g.IsSimple([], root, trail) && RecordOf(g, [], root, trail) == (types[|labels|], PathText(labels))
  {
    hide g.Edges, Render, PathText, Leads;
    trail := WalkTrail(g, types, labels);
    assert [] + labels == labels;
    RenderIsText(labels);
  }
}
