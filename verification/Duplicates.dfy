/** When the listing of attribute paths holds an entry twice. */
module Duplicates {
  import opened Collections
  import opened StaticInformation
  import opened TypeGraph

  /** The entries differ exactly when the simple trails have different records. */
  lemma EntriesDiffer(g: Registry, root: TypeId)
    requires g.Closed() && root in g.ids
    ensures Distinct(Records(g, [], root, g.Trails([], root))) <==>
            forall a, b :: g.IsSimple([], root, a) && g.IsSimple([], root, b) && a != b ==>
              RecordOf(g, [], root, a) != RecordOf(g, [], root, b)
  {
    hide Records, RecordOf, g.Trails, g.IsSimple, Increasing;
    var trails := g.Trails([], root);
    var rs := Records(g, [], root, trails);
    ListedAre(g, root);
    if Distinct(rs) {
      forall a, b | g.IsSimple([], root, a) && g.IsSimple([], root, b) && a != b
        ensures RecordOf(g, [], root, a) != RecordOf(g, [], root, b)
      {
        var i :| 0 <= i < |trails| && trails[i] == a;
        var j :| 0 <= j < |trails| && trails[j] == b;
        assert rs[i] != rs[j];
      }
    } else {
      var i, j :| 0 <= i < j < |rs| && rs[i] == rs[j];
      assert trails[i] in trails && trails[j] in trails;
    }
  }

  // ----- trails, one edge longer or cut short

  ghost function End(g: Registry, t: TypeId, trail: seq<nat>): TypeId
    requires g.IsTrail(t, trail)
  {
    g.Visited(t, trail)[|trail|]
  }

  lemma {:induction false} OneEdgeMore(g: Registry, t: TypeId, p: seq<nat>, i: nat)
    requires g.IsTrail(t, p) && i < |g.Edges(End(g, t, p))|
    ensures g.IsTrail(t, p + [i])
    ensures g.Visited(t, p + [i]) == g.Visited(t, p) + [g.Edges(End(g, t, p))[i].target]
    ensures g.Labels(t, p + [i]) == g.Labels(t, p) + [g.Edges(End(g, t, p))[i].name]
    decreases p
  {
    hide g.Edges;
    if p == [] {
      assert [i][1..] == [] && [] + [i] == [i];
    } else {
      var next := g.Edges(t)[p[0]].target;
      OneEdgeMore(g, next, p[1..], i);
      assert (p + [i])[0] == p[0] && (p + [i])[1..] == p[1..] + [i];
    }
  }

  lemma {:induction false} CutShort(g: Registry, t: TypeId, a: seq<nat>, k: nat)
    requires g.IsTrail(t, a) && k < |a|
    ensures g.IsTrail(t, a[..k]) && g.Visited(t, a[..k]) == g.Visited(t, a)[..k + 1]
    ensures a[k] < |g.Edges(End(g, t, a[..k]))| && g.Visited(t, a)[k + 1] == g.Edges(End(g, t, a[..k]))[a[k]].target
    decreases a
  {
    hide g.Edges;
    var next := g.Edges(t)[a[0]].target;
    if k == 0 {
      assert a[..0] == [] && g.Visited(t, a)[..1] == [t] && g.Visited(next, a[1..])[0] == next;
    } else {
      CutShort(g, next, a[1..], k - 1);
      assert a[..k][0] == a[0] && a[..k][1..] == a[1..][..k - 1];
      assert g.Visited(t, a) == [t] + g.Visited(next, a[1..]);
    }
  }

  /** A simple trail reaches a type that has two equal edges to a type not yet visited. */
  ghost predicate EqualEdges(g: Registry, root: TypeId, p: seq<nat>, i: nat, j: nat) {
    && g.IsSimple([], root, p)
    && i < j < |g.Edges(End(g, root, p))|
    && g.Edges(End(g, root, p))[i] == g.Edges(End(g, root, p))[j]
    && g.Edges(End(g, root, p))[i].target !in g.Visited(root, p)
  }

  /** In every registry, equal edges that are reached give an entry twice. */
  lemma EqualEdgesDuplicate(g: Registry, root: TypeId, p: seq<nat>, i: nat, j: nat)
    requires g.Closed() && root in g.ids && EqualEdges(g, root, p, i, j)
    ensures !Distinct(Records(g, [], root, g.Trails([], root)))
  {
    hide g.Edges, g.IsTrail, g.Visited, g.Labels, Records, Render;
    var target := g.Edges(End(g, root, p))[i].target;
    OneEdgeMore(g, root, p, i);
    OneEdgeMore(g, root, p, j);
    DistinctSnoc(g.Visited(root, p), target);
    assert g.IsSimple([], root, p + [i]) && g.IsSimple([], root, p + [j]);
    assert RecordOf(g, [], root, p + [i]) == RecordOf(g, [], root, p + [j]);
    assert (p + [i])[|p|] != (p + [j])[|p|];
    EntriesDiffer(g, root);
  }

  lemma DistinctSnoc<T>(s: seq<T>, x: T)
    requires Distinct(s) && x !in s
    ensures Distinct(s + [x])
  {
    DistinctJoin(s, [x]);
  }

  // ----- names from which a path can be read back

  /** Slashes are separators only, dollar signs mark types, a name means one type, and one attribute of each type. */
  ghost predicate PlainNames(g: Registry) {
    && (forall t, a :: a in g.Attributes(t) && !a.Plain? ==> '/' !in a.name && (a.name == "" || a.name[0] != '$'))
    && (forall t, a, b ::
          a in g.Attributes(t) && b in g.Attributes(t) && !a.Plain? && !b.Plain? && a.name == b.name ==> a == b)
    && (forall c :: c in g.ids ==> '/' !in g.Name(c))
    && (forall c, d :: c in g.ids && d in g.ids && g.Name(c) == g.Name(d) ==> c == d)
  }

  /** Empty, or starting with a slash: what follows an item of a path. */
  predicate Tail(s: string) {
    s == "" || s[0] == '/'
  }

  /** What comes before the first slash determines the rest. */
  lemma {:induction false} SlashSplits(c: string, r: string, d: string, r': string)
    requires c + r == d + r' && '/' !in c && '/' !in d && Tail(r) && Tail(r')
    ensures c == d && r == r'
  {
    if c != [] && d != [] {
      assert (c + r)[0] == c[0] && (d + r')[0] == d[0];
      assert (c + r)[1..] == c[1..] + r && (d + r')[1..] == d[1..] + r';
      SlashSplits(c[1..], r, d[1..], r');
    } else if c == [] && d == [] {
      assert c + r == r && d + r' == r';
    } else {
      SlashInside(c, r, d, r');
      assert false;
    }
  }

  lemma SlashInside(c: string, r: string, d: string, r': string)
    requires c + r == d + r' && Tail(r) && Tail(r') && (c == []) != (d == [])
    ensures '/' in c || '/' in d
  {
    if c == [] {
      assert r == d + r' && r[0] == d[0];
    } else {
      assert r' == c + r && r'[0] == c[0];
    }
  }

  /** Edges out of `t` come from its attributes or lead to a named type. */
  ghost predicate FromAttribute(g: Registry, t: TypeId, e: Edge, a: Attribute) {
    a in g.Attributes(t) && g.OfAttribute(a) == [e]
  }

  ghost predicate ToType(g: Registry, e: Edge) {
    e.target in g.ids && e.name == "$" + g.Name(e.target)
  }

  lemma {:induction false} AttributeEdgesFrom(g: Registry, attrs: seq<Attribute>, e: Edge)
    requires e in g.AttributeEdges(attrs)
    ensures exists a :: a in attrs && g.OfAttribute(a) == [e]
  {
    var front, last := attrs[..|attrs| - 1], attrs[|attrs| - 1];
    if e in g.AttributeEdges(front) {
      AttributeEdgesFrom(g, front, e);
    } else {
      assert e in g.OfAttribute(last) && last in attrs;
    }
  }

  lemma {:induction false} ChildEdgesTo(g: Registry, t: TypeId, cs: seq<TypeId>, e: Edge)
    requires e in g.ChildEdges(t, cs) && forall c :: c in cs ==> c in g.ids
    ensures ToType(g, e)
  {
    if e in g.ChildEdges(t, cs[..|cs| - 1]) {
      ChildEdgesTo(g, t, cs[..|cs| - 1], e);
    } else {
      assert e in g.OfChild(t, cs[|cs| - 1]);
    }
  }

  lemma {:induction false} AggregateEdgesTo(g: Registry, t: TypeId, ps: seq<(TypeId, TypeId)>, e: Edge)
    requires e in g.AggregateEdges(t, ps) && forall p :: p in ps ==> p.0 in g.ids && p.1 in g.ids
    ensures ToType(g, e)
  {
    if e in g.AggregateEdges(t, ps[..|ps| - 1]) {
      AggregateEdgesTo(g, t, ps[..|ps| - 1], e);
    } else {
      assert e in g.OfAggregate(t, ps[|ps| - 1]);
    }
  }

  lemma EdgeKinds(g: Registry, t: TypeId, e: Edge)
    requires g.Closed() && e in g.Edges(t)
    ensures ToType(g, e) || exists a :: FromAttribute(g, t, e, a)
  {
    hide g.AttributeEdges, g.ChildEdges, g.AggregateEdges;
    if e in g.AttributeEdges(g.Attributes(t)) {
      AttributeEdgesFrom(g, g.Attributes(t), e);
      var a :| a in g.Attributes(t) && g.OfAttribute(a) == [e];
      assert FromAttribute(g, t, e, a);
    } else if e in g.ChildEdges(t, g.registered) {
      ChildEdgesTo(g, t, g.registered, e);
    } else {
      AggregateEdgesTo(g, t, g.aggregates, e);
    }
  }

  /** The item up to its first slash, and what an edge's label adds after that. */
  lemma EdgeName(g: Registry, t: TypeId, e: Edge) returns (head: string, more: string)
    requires g.Closed() && PlainNames(g) && e in g.Edges(t)
    ensures e.name == head + more && '/' !in head && Tail(more)
    ensures head != "" && head[0] == '$' ==> ToType(g, e) && head == "$" + g.Name(e.target)
    ensures head == "" || head[0] != '$' ==> exists a :: FromAttribute(g, t, e, a) && !a.Plain? && a.name == head
  {
    EdgeKinds(g, t, e);
    if ToType(g, e) {
      head, more := e.name, "";
    } else {
      var a :| FromAttribute(g, t, e, a);
      head, more := a.name, e.name[|a.name|..];
    }
  }

  /** Two edges out of a type whose labels read the same, whatever follows, are equal. */
  lemma EdgeReadsBack(g: Registry, t: TypeId, e: Edge, f: Edge, r: string, r': string)
    requires g.Closed() && PlainNames(g) && e in g.Edges(t) && f in g.Edges(t)
    requires Tail(r) && Tail(r') && e.name + r == f.name + r'
    ensures e == f
  {
    hide PlainNames, ToType, FromAttribute, g.Edges, g.Closed, g.OfAttribute;
    var h, m := EdgeName(g, t, e);
    var h', m' := EdgeName(g, t, f);
    assert h + (m + r) == e.name + r && h' + (m' + r') == f.name + r';
    SlashSplits(h, m + r, h', m' + r');
    if h != "" && h[0] == '$' {
      SameType(g, e, f);
    } else {
      var a :| FromAttribute(g, t, e, a) && !a.Plain? && a.name == h;
      var b :| FromAttribute(g, t, f, b) && !b.Plain? && b.name == h;
      SameAttribute(g, t, e, f, a, b);
    }
  }

  lemma SameType(g: Registry, e: Edge, f: Edge)
    requires PlainNames(g) && ToType(g, e) && ToType(g, f) && "$" + g.Name(e.target) == "$" + g.Name(f.target)
    ensures e == f
  {
    assert ("$" + g.Name(e.target))[1..] == g.Name(e.target) && ("$" + g.Name(f.target))[1..] == g.Name(f.target);
  }

  lemma SameAttribute(g: Registry, t: TypeId, e: Edge, f: Edge, a: Attribute, b: Attribute)
    requires PlainNames(g) && FromAttribute(g, t, e, a) && FromAttribute(g, t, f, b) && !a.Plain? && !b.Plain? &&
             a.name == b.name
    ensures e == f
  {
    assert [e][0] == [f][0];
  }

  lemma {:induction false} RenderCons(x: string, path: seq<string>)
    ensures Render([x] + path) == "/" + x + Render(path)
  {
    var p := [x] + path;
    if path == [] {
      assert p[..0] == [];
    } else {
      var n := |path| - 1;
      assert p[..|p| - 1] == [x] + path[..n] && p[|p| - 1] == path[n];
      RenderCons(x, path[..n]);
    }
  }

  lemma RenderTail(path: seq<string>)
    ensures Tail(Render(path)) && (Render(path) == "" <==> path == [])
  {
    if path != [] {
      assert path == [path[0]] + path[1..];
      RenderCons(path[0], path[1..]);
    }
  }

  /** With plain names, two different trails that read the same part at two equal edges. */
  lemma {:induction false} PartAtEqualEdges(g: Registry, t: TypeId, a: seq<nat>, b: seq<nat>) returns (k: nat)
    requires g.Closed() && PlainNames(g) && g.IsTrail(t, a) && g.IsTrail(t, b) && a != b
    requires Render(g.Labels(t, a)) == Render(g.Labels(t, b))
    ensures k < |a| && k < |b| && a[..k] == b[..k] && a[k] != b[k]
    ensures g.IsTrail(t, a[..k]) && a[k] < |g.Edges(End(g, t, a[..k]))| && b[k] < |g.Edges(End(g, t, a[..k]))|
    ensures g.Edges(End(g, t, a[..k]))[a[k]] == g.Edges(End(g, t, a[..k]))[b[k]]
    decreases a
  {
    hide g.Edges, g.Visited, g.Labels, Render, PlainNames, Tail;
    NoReading(g, t, a);
    NoReading(g, t, b);
    var text := ReadingOf(g, t, a);
    var text' := ReadingOf(g, t, b);
    var e, f := g.Edges(t)[a[0]], g.Edges(t)[b[0]];
    if a[0] != b[0] {
      EdgeReadsBack(g, t, e, f, text, text');
      AtStart(g, t, a);
      k := 0;
    } else {
      assert (e.name + text)[|e.name|..] == text && (e.name + text')[|e.name|..] == text';
      var k' := PartAtEqualEdges(g, e.target, a[1..], b[1..]);
      k := k' + 1;
      EndLater(g, t, a, k);
      assert b[..k] == [b[0]] + b[1..][..k'] && a[..k] == [a[0]] + a[1..][..k'];
    }
  }

  lemma NoReading(g: Registry, t: TypeId, a: seq<nat>)
    requires g.IsTrail(t, a)
    ensures Render(g.Labels(t, a)) == "" <==> a == []
  {
    hide Render;
    RenderTail(g.Labels(t, a));
  }

  /** What follows the first label of a trail. */
  lemma ReadingOf(g: Registry, t: TypeId, a: seq<nat>) returns (text: string)
    requires g.IsTrail(t, a) && a != []
    ensures text == Render(g.Labels(g.Edges(t)[a[0]].target, a[1..])) && Tail(text)
    ensures Render(g.Labels(t, a))[1..] == g.Edges(t)[a[0]].name + text
  {
    hide g.Edges, Render, Tail;
    var e := g.Edges(t)[a[0]];
    var rest := g.Labels(e.target, a[1..]);
    text := Render(rest);
    RenderTail(rest);
    RenderCons(e.name, rest);
    assert ("/" + e.name + text)[1..] == e.name + text;
  }

  lemma AtStart(g: Registry, t: TypeId, a: seq<nat>)
    ensures a[..0] == [] && g.IsTrail(t, a[..0]) && End(g, t, a[..0]) == t
  {
  }

  lemma EndLater(g: Registry, t: TypeId, a: seq<nat>, k: nat)
    requires g.IsTrail(t, a) && 0 < k < |a|
    ensures g.IsTrail(t, a[..k]) && g.IsTrail(g.Edges(t)[a[0]].target, a[1..][..k - 1])
    ensures End(g, t, a[..k]) == End(g, g.Edges(t)[a[0]].target, a[1..][..k - 1])
  {
    hide g.Edges;
    CutShort(g, t, a, k);
    assert a[..k][1..] == a[1..][..k - 1];
  }

  /** With plain names, the output holds an entry twice exactly when equal edges are reached. */
  lemma DuplicatesExactly(g: Registry, root: TypeId)
    requires g.Closed() && root in g.ids && PlainNames(g)
    ensures Distinct(Records(g, [], root, g.Trails([], root))) <==> !exists p, i, j :: EqualEdges(g, root, p, i, j)
  {
    if p, i, j :| EqualEdges(g, root, p, i, j) {
      EqualEdgesDuplicate(g, root, p, i, j);
    } else {
      EntriesDiffer(g, root);
      forall a, b | g.IsSimple([], root, a) && g.IsSimple([], root, b) && a != b
        ensures RecordOf(g, [], root, a) != RecordOf(g, [], root, b)
      {
        SameRecord(g, root, a, b);
      }
    }
  }

  lemma SameRecord(g: Registry, root: TypeId, a: seq<nat>, b: seq<nat>)
    requires g.Closed() && PlainNames(g) && g.IsSimple([], root, a) && g.IsSimple([], root, b) && a != b
    ensures RecordOf(g, [], root, a) == RecordOf(g, [], root, b) ==> exists p, i, j :: EqualEdges(g, root, p, i, j)
  {
    hide RecordOf, Render, PlainNames, g.Edges, g.Closed, g.Visited, g.Labels;
    if RecordOf(g, [], root, a) == RecordOf(g, [], root, b) {
      SameText(g, root, a, b);
      var k := PartAtEqualEdges(g, root, a, b);
      NextNotVisited(g, root, a, k);
      assert EqualEdges(g, root, a[..k], if a[k] < b[k] then a[k] else b[k], if a[k] < b[k] then b[k] else a[k]);
    }
  }

  lemma SameText(g: Registry, root: TypeId, a: seq<nat>, b: seq<nat>)
    requires g.IsTrail(root, a) && g.IsTrail(root, b) && RecordOf(g, [], root, a) == RecordOf(g, [], root, b)
    ensures Render(g.Labels(root, a)) == Render(g.Labels(root, b))
  {
    hide Render;
    assert [] + g.Labels(root, a) == g.Labels(root, a) && [] + g.Labels(root, b) == g.Labels(root, b);
  }

  lemma NextNotVisited(g: Registry, root: TypeId, a: seq<nat>, k: nat)
    requires g.IsSimple([], root, a) && k < |a|
    ensures g.IsSimple([], root, a[..k]) && a[k] < |g.Edges(End(g, root, a[..k]))|
    ensures g.Edges(End(g, root, a[..k]))[a[k]].target !in g.Visited(root, a[..k])
  {
    hide g.Edges;
    CutShort(g, root, a, k);
  }

  // ----- pairs recorded twice

  /** A pair that is recorded twice as an aggregation gives an entry twice, wherever one partner is reached before the
      other. */
  lemma RepeatedAggregate(g: Registry, root: TypeId, p: seq<nat>, a: nat, b: nat)
    requires g.Closed() && root in g.ids && g.IsSimple([], root, p)
    requires a < b < |g.aggregates| && g.aggregates[a] == g.aggregates[b]
    requires g.OfAggregate(End(g, root, p), g.aggregates[a]) != []
    requires g.OfAggregate(End(g, root, p), g.aggregates[a])[0].target !in g.Visited(root, p)
    ensures !Distinct(Records(g, [], root, g.Trails([], root)))
  {
    hide g.Edges, g.Visited, g.AttributeEdges, g.ChildEdges, g.AggregateEdges, Next, Records;
    var t, ps := End(g, root, p), g.aggregates;
    var e := g.OfAggregate(t, ps[a])[0];
    assert g.OfAggregate(t, ps[a]) == [e];
    var n := |g.AttributeEdges(g.Attributes(t))| + |g.ChildEdges(t, g.registered)|;
    var i, j := n + |g.AggregateEdges(t, ps[..a])|, n + |g.AggregateEdges(t, ps[..b])|;
    NextAggregate(g, t, a);
    NextAggregate(g, t, b);
    AggregatePrefix(g, t, ps, a + 1, b);
    NextIs(g, t, i, e);
    NextIs(g, t, j, e);
    EqualEdgesDuplicate(g, root, p, i, j);
  }

  const NODE: TypeId := 0
  const ICMP: TypeId := 1
  const ARP: TypeId := 2

  /** Three consecutive statements of GetTypicalAggregations, with the types that they name. */
  const TYPICAL := Registry(
    {NODE, ICMP, ARP}, map[], [], {}, [(NODE, ICMP), (NODE, ARP), (NODE, ICMP)],
    map[NODE := "ns3::Node", ICMP := "ns3::Icmpv4L4Protocol", ARP := "ns3::ArpL3Protocol"], 3)

  /** The program itself records one pair twice: gathering from the node lists its ICMP protocol twice. */
  lemma TypicalDuplicate()
    ensures TYPICAL.Closed() && !Distinct(Records(TYPICAL, [], NODE, TYPICAL.Trails([], NODE)))
  {
    assert TYPICAL.Visited(NODE, []) == [NODE];
    RepeatedAggregate(TYPICAL, NODE, [], 0, 2);
  }

  // ----- several roots

  /** Nothing is called as the item of a vector is written. */
  ghost predicate NoIndexNames(g: Registry) {
    forall t, a :: a in g.Attributes(t) && !a.Plain? ==> a.name != "[i]"
  }

  /** Two simple trails, from `s` and from `t`, that take edges of the same names and end at one type. */
  ghost predicate Alike(g: Registry, s: TypeId, t: TypeId, p: seq<nat>, q: seq<nat>) {
    && g.IsSimple([], s, p) && g.IsSimple([], t, q)
    && g.Labels(s, p) == g.Labels(t, q) && End(g, s, p) == End(g, t, q)
  }

  /** A label is a name, possibly with the vector mark. */
  ghost predicate IsLabel(l: string, name: string) {
    '/' !in name && name != "[i]" && (l == name || l == name + "/[i]")
  }

  ghost predicate AreLabels(ls: seq<string>) {
    forall l :: l in ls ==> exists name :: IsLabel(l, name)
  }

  lemma EdgeLabel(g: Registry, t: TypeId, e: Edge)
    requires g.Closed() && PlainNames(g) && NoIndexNames(g) && e in g.Edges(t)
    ensures exists name :: IsLabel(e.name, name)
  {
    EdgeKinds(g, t, e);
    if ToType(g, e) {
      assert e.name[0] == '$';
      assert IsLabel(e.name, e.name);
    } else {
      var a :| FromAttribute(g, t, e, a);
      assert e == [e][0];
      assert IsLabel(e.name, a.name);
    }
  }

  lemma {:induction false} TrailLabels(g: Registry, t: TypeId, trail: seq<nat>)
    requires g.Closed() && PlainNames(g) && NoIndexNames(g) && g.IsTrail(t, trail)
    ensures AreLabels(g.Labels(t, trail))
    decreases trail
  {
    hide PlainNames, NoIndexNames, g.Edges, g.Closed, IsLabel;
    if trail != [] {
      var e := g.Edges(t)[trail[0]];
      EdgeLabel(g, t, e);
      TrailLabels(g, e.target, trail[1..]);
    }
  }

  function Mark(l: string, name: string): string {
    if l == name then "" else "/[i]"
  }

  /** What follows a label's name: the vector mark, if any, and the rest of the path. */
  lemma LabelSplits(l: string, name: string, rest: string)
    requires IsLabel(l, name) && Tail(rest)
    ensures l == name + Mark(l, name) && l + rest == name + (Mark(l, name) + rest) && Tail(Mark(l, name) + rest)
  {
  }

  /** No path of labels starts with the vector mark. */
  lemma MarkIsNoLabel(ls: seq<string>, rest: string)
    requires AreLabels(ls) && Tail(rest)
    ensures Render(ls) != "/[i]" + rest
  {
    hide Render, Mark;
    RenderTail(ls);
    if Render(ls) == "/[i]" + rest {
      assert ls[0] in ls && ls == [ls[0]] + ls[1..];
      var name :| IsLabel(ls[0], name);
      var tail := Render(ls[1..]);
      RenderCons(ls[0], ls[1..]);
      RenderTail(ls[1..]);
      LabelSplits(ls[0], name, tail);
      assert ("/" + ls[0] + tail)[1..] == ls[0] + tail && ("/[i]" + rest)[1..] == "[i]" + rest;
      SlashSplits(name, Mark(ls[0], name) + tail, "[i]", rest);
    }
  }

  /** A path of labels can be read back. */
  lemma {:induction false} RenderInjective(ls: seq<string>, ks: seq<string>)
    requires AreLabels(ls) && AreLabels(ks) && Render(ls) == Render(ks)
    ensures ls == ks
  {
    hide Render;
    RenderTail(ls);
    RenderTail(ks);
    if ls != [] {
      var l, k := ls[0], ks[0];
      assert l in ls && k in ks && ls == [l] + ls[1..] && ks == [k] + ks[1..];
      RenderCons(l, ls[1..]);
      RenderCons(k, ks[1..]);
      assert forall x :: x in ls[1..] ==> x in ls;
      assert forall x :: x in ks[1..] ==> x in ks;
      var m :| IsLabel(l, m);
      var n :| IsLabel(k, n);
      FirstLabel(l, m, k, n, ls[1..], ks[1..]);
      RenderInjective(ls[1..], ks[1..]);
    }
  }

  lemma FirstLabel(l: string, m: string, k: string, n: string, ls: seq<string>, ks: seq<string>)
    requires IsLabel(l, m) && IsLabel(k, n) && AreLabels(ls) && AreLabels(ks)
    requires "/" + l + Render(ls) == "/" + k + Render(ks)
    ensures l == k && Render(ls) == Render(ks)
  {
    var r, r' := Render(ls), Render(ks);
    RenderTail(ls);
    RenderTail(ks);
    assert ("/" + l + r)[1..] == l + r && ("/" + k + r')[1..] == k + r';
    LabelSplits(l, m, r);
    LabelSplits(k, n, r');
    NoSlash(l, m);
    NoSlash(k, n);
    MarkIsNoLabel(ls, r');
    MarkIsNoLabel(ks, r);
    hide Render, AreLabels, IsLabel, Mark;
    SlashSplits(m, Mark(l, m) + r, n, Mark(k, n) + r');
    SameMark(Mark(l, m), r, Mark(k, n), r');
  }

  lemma NoSlash(l: string, name: string)
    requires IsLabel(l, name)
    ensures '/' !in name && (Mark(l, name) == "" || Mark(l, name) == "/[i]")
  {
  }

  lemma SameMark(a: string, r: string, b: string, r': string)
    requires a + r == b + r' && (a == "" || a == "/[i]") && (b == "" || b == "/[i]")
    requires r != "/[i]" + r' && r' != "/[i]" + r
    ensures a == b && r == r'
  {
    assert (a + r)[|a|..] == r && (b + r')[|b|..] == r';
  }

  ghost predicate ShareEntry(g: Registry, s: TypeId, t: TypeId)
    requires g.Closed() && s in g.ids && t in g.ids
  {
    exists r :: r in Records(g, [], s, g.Trails([], s)) && r in Records(g, [], t, g.Trails([], t))
  }

  /** Two roots record a common entry exactly when trails from them are alike. */
  lemma CommonEntry(g: Registry, s: TypeId, t: TypeId)
    requires g.Closed() && PlainNames(g) && NoIndexNames(g) && s in g.ids && t in g.ids
    ensures ShareEntry(g, s, t) <==> exists p, q :: Alike(g, s, t, p, q)
  {
    hide Records, RecordOf, PlainNames, NoIndexNames, g.Trails, g.IsSimple, g.Closed, Alike;
    ListedAre(g, s);
    ListedAre(g, t);
    var ps, qs := g.Trails([], s), g.Trails([], t);
    var rs, rt := Records(g, [], s, ps), Records(g, [], t, qs);
    if r :| r in rs && r in rt {
      var i :| 0 <= i < |rs| && rs[i] == r;
      var j :| 0 <= j < |rt| && rt[j] == r;
      assert ps[i] in ps && qs[j] in qs;
      SameEntry(g, s, t, ps[i], qs[j]);
    }
    if p, q :| Alike(g, s, t, p, q) {
      AlikeAreSimple(g, s, t, p, q);
      var i :| 0 <= i < |ps| && ps[i] == p;
      var j :| 0 <= j < |qs| && qs[j] == q;
      SameEntry(g, s, t, p, q);
      assert rs[i] == rt[j];
      assert rs[i] in Records(g, [], s, g.Trails([], s)) && rs[i] in Records(g, [], t, g.Trails([], t));
    }
  }

  lemma AlikeAreSimple(g: Registry, s: TypeId, t: TypeId, p: seq<nat>, q: seq<nat>)
    requires Alike(g, s, t, p, q)
    ensures g.IsSimple([], s, p) && g.IsSimple([], t, q)
  {
  }

  lemma SameEntry(g: Registry, s: TypeId, t: TypeId, p: seq<nat>, q: seq<nat>)
    requires g.Closed() && PlainNames(g) && NoIndexNames(g) && g.IsSimple([], s, p) && g.IsSimple([], t, q)
    ensures RecordOf(g, [], s, p) == RecordOf(g, [], t, q) <==> Alike(g, s, t, p, q)
  {
    hide Render, PlainNames, NoIndexNames, g.Closed, g.Edges;
    var ls, ks := g.Labels(s, p), g.Labels(t, q);
    assert [] + ls == ls && [] + ks == ks;
    if Render(ls) == Render(ks) {
      TrailLabels(g, s, p);
      TrailLabels(g, t, q);
      RenderInjective(ls, ks);
    }
  }

  lemma {:induction false} GatheredMember(g: Registry, roots: seq<TypeId>, r: Record)
    requires g.Closed() && forall root :: root in roots ==> root in g.ids
    ensures r in Gathered(g, roots) <==>
            exists i :: 0 <= i < |roots| && r in Records(g, [], roots[i], g.Trails([], roots[i]))
  {
    hide Records, g.Trails, g.Closed;
    if roots != [] {
      var n := |roots| - 1;
      GatheredMember(g, roots[..n], r);
      if i :| 0 <= i < |roots| && r in Records(g, [], roots[i], g.Trails([], roots[i])) {
        assert i < n ==> roots[..n][i] == roots[i];
      }
    }
  }

  /** Each root lists every entry once, and no two roots list a common one. */
  ghost predicate Separate(g: Registry, roots: seq<TypeId>)
    requires g.Closed() && forall root :: root in roots ==> root in g.ids
  {
    && (forall i :: 0 <= i < |roots| ==> Distinct(Records(g, [], roots[i], g.Trails([], roots[i]))))
    && (forall i, j, r :: 0 <= i < j < |roots| && r in Records(g, [], roots[i], g.Trails([], roots[i])) ==>
          r !in Records(g, [], roots[j], g.Trails([], roots[j])))
  }

  lemma {:induction false} GatheredSeparate(g: Registry, roots: seq<TypeId>)
    requires g.Closed() && forall root :: root in roots ==> root in g.ids
    ensures Distinct(Gathered(g, roots)) <==> Separate(g, roots)
  {
    hide Records, g.Trails, g.Closed, Distinct;
    if roots == [] {
      NoneTwice<Record>();
    } else {
      var n := |roots| - 1;
      var front := roots[..n];
      assert forall i :: 0 <= i < n ==> front[i] == roots[i];
      GatheredSeparate(g, front);
      forall r
        ensures r in Gathered(g, front) <==>
                exists i :: 0 <= i < n && r in Records(g, [], roots[i], g.Trails([], roots[i]))
      {
        GatheredMember(g, front, r);
      }
      DistinctBoth(Gathered(g, front), Records(g, [], roots[n], g.Trails([], roots[n])));
      SeparateMore(g, roots);
    }
  }

  lemma NoneTwice<T>()
    ensures Distinct<T>([])
  {
  }

  lemma SeparateMore(g: Registry, roots: seq<TypeId>)
    requires roots != [] && g.Closed() && forall root :: root in roots ==> root in g.ids
    ensures
      var n := |roots| - 1;
      var last := Records(g, [], roots[n], g.Trails([], roots[n]));
      Separate(g, roots) <==>
        && Separate(g, roots[..n]) && Distinct(last)
        && forall i, r :: 0 <= i < n && r in Records(g, [], roots[i], g.Trails([], roots[i])) ==> r !in last
  {
    hide Records, g.Trails, g.Closed, Distinct;
    var n := |roots| - 1;
    assert forall i :: 0 <= i < n ==> roots[..n][i] == roots[i];
  }

  lemma DistinctBoth<T>(a: seq<T>, b: seq<T>)
    ensures Distinct(a + b) <==> Distinct(a) && Distinct(b) && forall x :: x in a ==> x !in b
  {
    var c := a + b;
    if Distinct(c) {
      forall i, j | 0 <= i < j < |b|
        ensures b[i] != b[j]
      {
        assert c[|a| + i] != c[|a| + j];
      }
      forall i, j | 0 <= i < |a| && 0 <= j < |b|
        ensures a[i] != b[j]
      {
        assert c[i] != c[|a| + j];
      }
      forall i, j | 0 <= i < j < |a|
        ensures a[i] != a[j]
      {
        assert c[i] != c[j];
      }
    } else if Distinct(a) && Distinct(b) && forall x :: x in a ==> x !in b {
      DistinctJoin(a, b);
    }
  }

  /** After gathering all roots the output holds an entry twice exactly when equal edges are reached from some root, or
      trails from two of the roots are alike. */
  lemma DuplicatesOverRoots(g: Registry, roots: seq<TypeId>)
    requires g.Closed() && PlainNames(g) && NoIndexNames(g) && forall root :: root in roots ==> root in g.ids
    ensures
      Distinct(Gathered(g, roots)) <==>
        && (forall n, p, i, j :: 0 <= n < |roots| ==> !EqualEdges(g, roots[n], p, i, j))
        && (forall m, n, p, q :: 0 <= m < n < |roots| ==> !Alike(g, roots[m], roots[n], p, q))
  {
    hide Records, g.Trails, g.Closed, Distinct, Alike, EqualEdges, PlainNames, NoIndexNames;
    GatheredSeparate(g, roots);
    forall n | 0 <= n < |roots|
      ensures Distinct(Records(g, [], roots[n], g.Trails([], roots[n]))) <==>
              !exists p, i, j :: EqualEdges(g, roots[n], p, i, j)
    {
      DuplicatesExactly(g, roots[n]);
    }
    forall m, n | 0 <= m < n < |roots|
      ensures
        ShareEntry(g, roots[m], roots[n]) <==> exists p, q :: Alike(g, roots[m], roots[n], p, q)
    {
      CommonEntry(g, roots[m], roots[n]);
    }
  }
}
