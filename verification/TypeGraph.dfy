/** The introspection program's depth-first listing of attribute paths over the graph of type ids. */
module TypeGraph {
  import opened Collections

  type TypeId = int

  /** What matters of an attribute: whether it points to an object, holds a vector of objects, or neither. */
  datatype Attribute = Plain | Pointer(name: string, pointee: TypeId) | Vector(name: string, item: TypeId)

  datatype Edge = Edge(name: string, target: TypeId)

  /** The registered types. `ids` holds every type that any entry mentions. */
  datatype Registry = Registry(
    ids: set<TypeId>, attributes: map<TypeId, seq<Attribute>>, registered: seq<TypeId>,
    children: set<(TypeId, TypeId)>, aggregates: seq<(TypeId, TypeId)>, names: map<TypeId, string>, objectId: TypeId)
  {
    function Attributes(t: TypeId): seq<Attribute> {
      if t in attributes then attributes[t] else []
    }

    function Name(t: TypeId): string {
      if t in names then names[t] else ""
    }

    predicate IsChildOf(c: TypeId, p: TypeId) {
      (c, p) in children
    }

    ghost predicate Closed() {
      && (forall t, a :: t in attributes && a in attributes[t] ==>
            (a.Pointer? ==> a.pointee in ids) && (a.Vector? ==> a.item in ids))
      && (forall t :: t in registered ==> t in ids)
      && (forall p :: p in aggregates ==> p.0 in ids && p.1 in ids)
    }

    /** The edge that an attribute gives, if any: pointers to the base Object are not followed. */
    function OfAttribute(a: Attribute): seq<Edge> {
      match a
      case Plain => []
      case Pointer(name, pointee) => if pointee == objectId then [] else [Edge(name, pointee)]
      case Vector(name, item) => [Edge(name + "/[i]", item)]
    }

    function OfChild(t: TypeId, c: TypeId): seq<Edge> {
      if IsChildOf(c, t) then [Edge("$" + Name(c), c)] else []
    }

    function OfAggregate(t: TypeId, p: (TypeId, TypeId)): seq<Edge> {
      if p.1 == t then [Edge("$" + Name(p.0), p.0)]
      else if p.0 == t then [Edge("$" + Name(p.1), p.1)]
      else []
    }

    function AttributeEdges(attrs: seq<Attribute>): seq<Edge> {
      if attrs == [] then [] else AttributeEdges(attrs[..|attrs| - 1]) + OfAttribute(attrs[|attrs| - 1])
    }

    function ChildEdges(t: TypeId, cs: seq<TypeId>): seq<Edge> {
      if cs == [] then [] else ChildEdges(t, cs[..|cs| - 1]) + OfChild(t, cs[|cs| - 1])
    }

    function AggregateEdges(t: TypeId, ps: seq<(TypeId, TypeId)>): seq<Edge> {
      if ps == [] then [] else AggregateEdges(t, ps[..|ps| - 1]) + OfAggregate(t, ps[|ps| - 1])
    }

    /** The edges out of a type, in the order they are followed. */
    function Edges(t: TypeId): seq<Edge> {
      AttributeEdges(Attributes(t)) + ChildEdges(t, registered) + AggregateEdges(t, aggregates)
    }

    lemma {:induction false} AttributeEdgesStay(attrs: seq<Attribute>)
      requires forall a :: a in attrs ==> (a.Pointer? ==> a.pointee in ids) && (a.Vector? ==> a.item in ids)
      ensures forall e :: e in AttributeEdges(attrs) ==> e.target in ids
    {
      if attrs != [] { AttributeEdgesStay(attrs[..|attrs| - 1]); }
    }

    lemma {:induction false} ChildEdgesStay(t: TypeId, cs: seq<TypeId>)
      requires forall c :: c in cs ==> c in ids
      ensures forall e :: e in ChildEdges(t, cs) ==> e.target in ids
    {
      if cs != [] { ChildEdgesStay(t, cs[..|cs| - 1]); }
    }

    lemma {:induction false} AggregateEdgesStay(t: TypeId, ps: seq<(TypeId, TypeId)>)
      requires forall p :: p in ps ==> p.0 in ids && p.1 in ids
      ensures forall e :: e in AggregateEdges(t, ps) ==> e.target in ids
    {
      if ps != [] { AggregateEdgesStay(t, ps[..|ps| - 1]); }
    }

    lemma EdgesStay(t: TypeId)
      requires Closed()
      ensures forall i :: 0 <= i < |Edges(t)| ==> Edges(t)[i].target in ids
    {
      AttributeEdgesStay(Attributes(t));
      ChildEdgesStay(t, registered);
      AggregateEdgesStay(t, aggregates);
    }

    // ----- trails: walks named by the place of the edge taken at each type

    ghost predicate IsTrail(t: TypeId, trail: seq<nat>)
      decreases trail
    {
      trail != [] ==> trail[0] < |Edges(t)| && IsTrail(Edges(t)[trail[0]].target, trail[1..])
    }

    /** The types on a trail, its start included. */
    ghost function Visited(t: TypeId, trail: seq<nat>): (v: seq<TypeId>)
      requires IsTrail(t, trail)
      ensures |v| == |trail| + 1 && v[0] == t
      decreases trail
    {
      if trail == [] then [t] else [t] + Visited(Edges(t)[trail[0]].target, trail[1..])
    }

    ghost function Labels(t: TypeId, trail: seq<nat>): seq<string>
      requires IsTrail(t, trail)
      decreases trail
    {
      if trail == [] then [] else [Edges(t)[trail[0]].name] + Labels(Edges(t)[trail[0]].target, trail[1..])
    }

    /** The trail repeats no type and visits none of `stack`. */
    ghost predicate IsSimple(stack: seq<TypeId>, t: TypeId, trail: seq<nat>) {
      && IsTrail(t, trail)
      && Distinct(Visited(t, trail))
      && forall v :: v in Visited(t, trail) ==> v !in stack
    }

    // ----- the listing

    ghost function Fresh(stack: seq<TypeId>): set<TypeId> {
      set t | t in ids && t !in stack
    }

    /** The trails that a visit to `t`, below the types in `stack`, lists. */
    ghost function Trails(stack: seq<TypeId>, t: TypeId): seq<seq<nat>>
      requires Closed() && t in ids
      decreases Fresh(stack), 1, 0
    {
      if t in stack then [] else [[]] + Below(stack, t, |Edges(t)|)
    }

    /** Those of them that start with one of the first `n` edges. */
    ghost function Below(stack: seq<TypeId>, t: TypeId, n: nat): seq<seq<nat>>
      requires Closed() && t in ids && t !in stack && n <= |Edges(t)|
      decreases Fresh(stack), 0, n
    {
      if n == 0 then []
      else
        EdgesStay(t);
        assert Fresh(stack + [t]) < Fresh(stack) by { assert t in Fresh(stack) && t !in Fresh(stack + [t]); }
        Below(stack, t, n - 1) + Prefixed(n - 1, Trails(stack + [t], Edges(t)[n - 1].target))
    }
  }

  function Prefixed(i: nat, trails: seq<seq<nat>>): (r: seq<seq<nat>>)
    ensures |r| == |trails| && forall k :: 0 <= k < |r| ==> r[k] == [i] + trails[k]
  {
    seq(|trails|, k requires 0 <= k < |trails| => [i] + trails[k])
  }

  /** Preorder: a trail comes before its extensions, and earlier edges before later ones. */
  ghost predicate LexLess(s: seq<nat>, t: seq<nat>) {
    t != [] && (s == [] || s[0] < t[0] || (s[0] == t[0] && LexLess(s[1..], t[1..])))
  }

  ghost predicate Increasing(ts: seq<seq<nat>>) {
    forall i, j :: 0 <= i < j < |ts| ==> LexLess(ts[i], ts[j])
  }

  lemma {:induction false} LexIrreflexive(s: seq<nat>)
    ensures !LexLess(s, s)
  {
    if s != [] { LexIrreflexive(s[1..]); }
  }

  /** A simple trail from `t` is empty or goes on simply from the first edge's target. */
  lemma SimpleUnfolds(g: Registry, stack: seq<TypeId>, t: TypeId, trail: seq<nat>)
    requires trail != [] && trail[0] < |g.Edges(t)|
    ensures g.IsSimple(stack, t, trail) <==>
            t !in stack && g.IsSimple(stack + [t], g.Edges(t)[trail[0]].target, trail[1..])
  {
    var next := g.Edges(t)[trail[0]].target;
    if g.IsTrail(next, trail[1..]) {
      var rest := g.Visited(next, trail[1..]);
      assert g.Visited(t, trail) == [t] + rest;
      DistinctCons(t, rest);
    }
  }

  /** The listing holds exactly the simple trails. */
  lemma {:induction false} ListedIffSimple(g: Registry, stack: seq<TypeId>, t: TypeId, trail: seq<nat>)
    requires g.Closed() && t in g.ids
    ensures trail in g.Trails(stack, t) <==> g.IsSimple(stack, t, trail)
    decreases trail
  {
    if t in stack {
      assert g.IsTrail(t, trail) ==> t in g.Visited(t, trail);
    } else if trail != [] {
      BelowMember(g, stack, t, |g.Edges(t)|, trail);
      if trail[0] < |g.Edges(t)| {
        g.EdgesStay(t);
        SimpleUnfolds(g, stack, t, trail);
        ListedIffSimple(g, stack + [t], g.Edges(t)[trail[0]].target, trail[1..]);
      }
    }
  }

  lemma {:induction false} BelowMember(g: Registry, stack: seq<TypeId>, t: TypeId, n: nat, trail: seq<nat>)
    requires g.Closed() && t in g.ids && t !in stack && n <= |g.Edges(t)|
    ensures trail in g.Below(stack, t, n) <==>
              trail != [] && trail[0] < n &&
              (g.Edges(t)[trail[0]].target in g.ids && trail[1..] in g.Trails(stack + [t], g.Edges(t)[trail[0]].target))
  {
    hide g.Edges, g.Closed, g.Trails, Prefixed;
    if n > 0 {
      g.EdgesStay(t);
      var child := g.Trails(stack + [t], g.Edges(t)[n - 1].target);
      var front, back := g.Below(stack, t, n - 1), Prefixed(n - 1, child);
      assert g.Below(stack, t, n) == front + back;
      BelowMember(g, stack, t, n - 1, trail);
      PrefixedMember(n - 1, child, trail);
    }
  }

  lemma PrefixedMember(i: nat, trails: seq<seq<nat>>, trail: seq<nat>)
    ensures trail in Prefixed(i, trails) <==> trail != [] && trail[0] == i && trail[1..] in trails
  {
    if trail != [] && trail[0] == i && trail[1..] in trails {
      var k :| 0 <= k < |trails| && trails[k] == trail[1..];
      assert Prefixed(i, trails)[k] == trail;
    }
    if trail in Prefixed(i, trails) {
      var k :| 0 <= k < |trails| && Prefixed(i, trails)[k] == trail;
      assert trail[1..] == trails[k];
    }
  }

  /** The listing is in strict preorder; in particular it holds no trail twice. */
  lemma {:induction false} ListedInPreorder(g: Registry, stack: seq<TypeId>, t: TypeId)
    requires g.Closed() && t in g.ids
    ensures Increasing(g.Trails(stack, t))
    decreases g.Fresh(stack), 1, 0
  {
    if t !in stack {
      BelowInPreorder(g, stack, t, |g.Edges(t)|);
      var below := g.Below(stack, t, |g.Edges(t)|);
      forall j | 0 <= j < |below|
        ensures LexLess([], below[j])
      {
        BelowMember(g, stack, t, |g.Edges(t)|, below[j]);
        assert below[j] in below;
      }
    }
  }

  lemma {:induction false} BelowInPreorder(g: Registry, stack: seq<TypeId>, t: TypeId, n: nat)
    requires g.Closed() && t in g.ids && t !in stack && n <= |g.Edges(t)|
    ensures Increasing(g.Below(stack, t, n))
    decreases g.Fresh(stack), 0, n
  {
    hide g.Edges, g.Closed, g.Trails, Prefixed, LexLess, Increasing;
    NothingIncreasing();
    if n > 0 {
      g.EdgesStay(t);
      assert t in g.Fresh(stack) && t !in g.Fresh(stack + [t]);
      var child := g.Trails(stack + [t], g.Edges(t)[n - 1].target);
      var front, back := g.Below(stack, t, n - 1), Prefixed(n - 1, child);
      assert g.Below(stack, t, n) == front + back;
      BelowInPreorder(g, stack, t, n - 1);
      ListedInPreorder(g, stack + [t], g.Edges(t)[n - 1].target);
      PrefixedIncreasing(n - 1, child);
      forall i | 0 <= i < |front|
        ensures front[i] != [] && front[i][0] < n - 1
      {
        BelowMember(g, stack, t, n - 1, front[i]);
        assert front[i] in front;
      }
      JoinLater(front, n - 1, child);
    }
  }

  lemma NothingIncreasing()
    ensures Increasing([])
  {
  }

  /** Trails that start with earlier edges, followed by those that start with edge `i`. */
  lemma JoinLater(front: seq<seq<nat>>, i: nat, child: seq<seq<nat>>)
    requires Increasing(front) && Increasing(Prefixed(i, child))
    requires forall k :: 0 <= k < |front| ==> front[k] != [] && front[k][0] < i
    ensures Increasing(front + Prefixed(i, child))
  {
    hide Increasing;
    JoinIncreasing(front, Prefixed(i, child));
  }

  lemma PrefixedIncreasing(i: nat, ts: seq<seq<nat>>)
    requires Increasing(ts)
    ensures Increasing(Prefixed(i, ts))
  {
    forall a, b | 0 <= a < b < |ts|
      ensures LexLess(Prefixed(i, ts)[a], Prefixed(i, ts)[b])
    {
      assert Prefixed(i, ts)[a][1..] == ts[a] && Prefixed(i, ts)[b][1..] == ts[b];
    }
  }

  lemma JoinIncreasing(s: seq<seq<nat>>, t: seq<seq<nat>>)
    requires Increasing(s) && Increasing(t) && forall i, j :: 0 <= i < |s| && 0 <= j < |t| ==> LexLess(s[i], t[j])
    ensures Increasing(s + t)
  {
    forall i, j | 0 <= i < j < |s + t|
      ensures LexLess((s + t)[i], (s + t)[j])
    {
      if i < |s| && j >= |s| {
        assert LexLess(s[i], t[j - |s|]);
      }
    }
  }

  /** An increasing listing holds no trail twice. */
  lemma IncreasingDistinct(ts: seq<seq<nat>>)
    requires Increasing(ts)
    ensures Distinct(ts)
  {
    forall i, j | 0 <= i < j < |ts|
      ensures ts[i] != ts[j]
    {
      LexIrreflexive(ts[i]);
      assert LexLess(ts[i], ts[j]);
    }
  }
}
