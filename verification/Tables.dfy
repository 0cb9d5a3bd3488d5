/** The next-hop lists of all hosts together, the forwarding tables compiled from them, and their rebuilding. */
module Tables {
  import opened Collections
  import opened Links
  import opened Search
  import opened Paths

  /** What `m[a][b]` reads, where a missing entry reads as `default`. */
  function Entry<K(==), V>(m: map<Node, map<K, V>>, a: Node, b: K, default: V): V {
    if a in m && b in m[a] then m[a][b] else default
  }

  /** `m[a][b] := x` */
  function Store<K(==), V>(m: map<Node, map<K, V>>, a: Node, b: K, x: V): map<Node, map<K, V>> {
    m[a := (if a in m then m[a] else map[])[b := x]]
  }

  lemma EntryStore<K, V>(m: map<Node, map<K, V>>, a: Node, b: K, x: V, default: V)
    ensures forall v, k ::
              Entry(Store(m, a, b, x), v, k, default) == if v == a && k == b then x else Entry(m, v, k, default)
  {
  }

  type Table = map<Node, map<nat, seq<nat>>>

  type HopTable = map<Node, map<Node, seq<Node>>>

  /** What the searches from all hosts list for `v` towards `dst`. */
  function HopsTo(searches: map<Node, Search>, v: Node, dst: Node): seq<Node> {
    if dst in searches then HopsFrom(searches[dst].hops, v) else []
  }

  /** `n` is `n0` with the lists of one search appended under `host`. */
  ghost predicate Grown(n0: HopTable, n: HopTable, host: Node, hops: map<Node, seq<Node>>) {
    forall v, dst :: Entry(n, v, dst, []) == Entry(n0, v, dst, []) + if dst == host then HopsFrom(hops, v) else []
  }

  lemma GrownStart(n: HopTable, host: Node)
    ensures Grown(n, n, host, map[])
  {
  }

  lemma GrownByOne(n0: HopTable, n: HopTable, host: Node, hops: map<Node, seq<Node>>, v: Node, u: Node)
    requires Grown(n0, n, host, hops)
    ensures Grown(n0, Store(n, v, host, Entry(n, v, host, []) + [u]), host, hops[v := HopsFrom(hops, v) + [u]])
  {
    EntryStore(n, v, host, Entry(n, v, host, []) + [u], []);
  }

  /** `nextHop` holds exactly what one search from every server lists. */
  ghost predicate RoutesOk(g: Fabric, tx: nat, servers: set<Node>, nextHop: HopTable, searches: map<Node, Search>) {
    && searches.Keys == servers
    && (forall h :: h in servers ==> IsSearch(g, tx, h, searches[h]))
    && (forall v, dst :: Entry(nextHop, v, dst, []) == HopsTo(searches, v, dst))
  }

  function IndexOf(links: LinkMap, v: Node, u: Node): nat {
    if u in Neighbours(links, v) then Get(links, v, u).idx else DEFAULT_INTERFACE.idx
  }

  /** The outgoing interface of `v` for each next hop. */
  function Indices(links: LinkMap, v: Node, nexts: seq<Node>): (r: seq<nat>)
    ensures |r| == |nexts| && forall k :: 0 <= k < |r| ==> r[k] == IndexOf(links, v, nexts[k])
  {
    seq(|nexts|, k requires 0 <= k < |nexts| => IndexOf(links, v, nexts[k]))
  }

  ghost predicate Injective(addr: map<Node, nat>) {
    forall a, b :: a in addr && b in addr && addr[a] == addr[b] ==> a == b
  }

  ghost predicate IsAddress(addr: map<Node, nat>, x: nat) {
    exists dst :: dst in addr && addr[dst] == x
  }

  /** Every node's table holds, for each server address, the interfaces of its next hops, and nothing else. */
  ghost predicate TablesOk(links: LinkMap, addr: map<Node, nat>, nextHop: HopTable, tables: Table) {
    && (forall v, dst :: dst in addr ==>
        Entry(tables, v, addr[dst], []) == Indices(links, v, Entry(nextHop, v, dst, [])))
    && (forall v, x :: !IsAddress(addr, x) ==> Entry(tables, v, x, []) == [])
  }

  /** No next hop lies behind a link that is down, and none leads away from the destination. */
  lemma EntriesWork(g: Fabric, tx: nat, servers: set<Node>, nextHop: HopTable, searches: map<Node, Search>, v: Node,
                    dst: Node)
    requires RoutesOk(g, tx, servers, nextHop, searches) && Symmetric(g.links)
    ensures forall u :: u in Entry(nextHop, v, dst, []) ==>
              && Up(g.links, v, u) && dst in servers && Expands(g, dst, u)
              && exists p :: IsShortest(g, dst, p) && |p| > 1 && p[0] == v && p[1] == u
    ensures Distinct(Entry(nextHop, v, dst, []))
  {
    if Entry(nextHop, v, dst, []) != [] {
      assert Entry(nextHop, v, dst, []) == HopsTo(searches, v, dst);
      HopsWork(g, tx, dst, searches[dst], v);
    }
  }

  lemma HopsWork(g: Fabric, tx: nat, host: Node, s: Search, v: Node)
    requires IsSearch(g, tx, host, s) && Symmetric(g.links) && v in s.hops
    ensures forall u :: u in s.hops[v] ==>
              && Up(g.links, v, u) && Expands(g, host, u)
              && exists p :: IsShortest(g, host, p) && |p| > 1 && p[0] == v && p[1] == u
    ensures Distinct(s.hops[v])
  {
    assert v in s.dis;
    HopsMeaning(g, tx, host, s, v);
    forall u | u in s.hops[v]
      ensures exists p :: IsShortest(g, host, p) && |p| > 1 && p[0] == v && p[1] == u
    {
      hide IsSearch, IsShortest;
      HopBeginsShortest(g, tx, host, s, v, u);
      var p := [v] + FirstPath(g, tx, host, s, u);
    }
  }

  lemma HopBeginsShortest(g: Fabric, tx: nat, host: Node, s: Search, v: Node, u: Node)
    requires IsSearch(g, tx, host, s) && Symmetric(g.links) && v in s.hops && u in s.hops[v]
    ensures u in s.dis
    ensures IsShortest(g, host, [v] + FirstPath(g, tx, host, s, u))
  {
    HopsMeaning(g, tx, host, s, v);
    var rest := FirstPath(g, tx, host, s, u);
    var p := [v] + rest;
    assert p[1..] == rest;
    FirstFollows(s.hops, host, rest);
    ForwardingIsShortest(g, tx, host, s, p);
  }

  lemma {:induction false} FirstFollows(hops: map<Node, seq<Node>>, host: Node, p: seq<Node>)
    requires TakesFirst(hops, host, p)
    ensures Follows(hops, host, p)
  {
    if |p| > 1 {
      FirstFollows(hops, host, p[1..]);
    }
  }

  /** `m` is `m0` with every entry of every column `cols[k]` stored over it. */
  ghost predicate Overwritten(m0: map<Node, map<Node, nat>>, m: map<Node, map<Node, nat>>,
                              cols: map<Node, map<Node, nat>>) {
    forall v, k :: Entry(m, v, k, 0) == if k in cols && v in cols[k] then cols[k][v] else Entry(m0, v, k, 0)
  }

  lemma OverwrittenMore(m0: map<Node, map<Node, nat>>, m1: map<Node, map<Node, nat>>, m2: map<Node, map<Node, nat>>,
                        cols: map<Node, map<Node, nat>>, k: Node, col: map<Node, nat>)
    requires Overwritten(m0, m1, cols) && Overwritten(m1, m2, map[k := col]) && k !in cols
    ensures Overwritten(m0, m2, cols[k := col])
  {
    forall v, j
      ensures Entry(m2, v, j, 0) ==
                if j in cols[k := col] && v in cols[k := col][j] then cols[k := col][j][v] else Entry(m0, v, j, 0)
    {
      assert Entry(m2, v, j, 0) ==
             if j in map[k := col] && v in map[k := col][j] then map[k := col][j][v] else Entry(m1, v, j, 0);
    }
  }

  /** The delay columns of all searches; likewise for the other two measures. */
  function Delays(searches: map<Node, Search>): map<Node, map<Node, nat>> {
    map h | h in searches :: searches[h].m.delay
  }

  function TxDelays(searches: map<Node, Search>): map<Node, map<Node, nat>> {
    map h | h in searches :: searches[h].m.txDelay
  }

  function Rates(searches: map<Node, Search>): map<Node, map<Node, nat>> {
    map h | h in searches :: searches[h].m.bw
  }

  lemma ColumnsMore(searches: map<Node, Search>, h: Node, s: Search)
    requires h !in searches
    ensures h !in Delays(searches) && Delays(searches[h := s]) == Delays(searches)[h := s.m.delay]
    ensures h !in TxDelays(searches) && TxDelays(searches[h := s]) == TxDelays(searches)[h := s.m.txDelay]
    ensures h !in Rates(searches) && Rates(searches[h := s]) == Rates(searches)[h := s.m.bw]
  {
  }

  /** `n` is `n0` with the lists of all searches appended. */
  ghost predicate GrownAll(n0: HopTable, n: HopTable, searches: map<Node, Search>) {
    forall v, dst :: Entry(n, v, dst, []) == Entry(n0, v, dst, []) + HopsTo(searches, v, dst)
  }

  lemma GrownFromNothing(n: HopTable, searches: map<Node, Search>)
    requires GrownAll(map[], n, searches)
    ensures forall v, dst :: Entry(n, v, dst, []) == HopsTo(searches, v, dst)
  {
    forall v, dst
      ensures Entry(n, v, dst, []) == HopsTo(searches, v, dst)
    {
      assert Entry(n, v, dst, []) == [] + HopsTo(searches, v, dst);
    }
  }

  lemma GrownAllMore(n0: HopTable, n1: HopTable, n2: HopTable, searches: map<Node, Search>, host: Node, s: Search)
    requires GrownAll(n0, n1, searches) && Grown(n1, n2, host, s.hops) && host !in searches
    ensures GrownAll(n0, n2, searches[host := s])
  {
    forall v, dst
      ensures Entry(n2, v, dst, []) == Entry(n0, v, dst, []) + HopsTo(searches[host := s], v, dst)
    {
      assert Entry(n1, v, dst, []) == Entry(n0, v, dst, []) + HopsTo(searches, v, dst);
      assert Entry(n2, v, dst, []) == Entry(n1, v, dst, []) + if dst == host then HopsFrom(s.hops, v) else [];
    }
  }

  /** `t` is `t0` with the interfaces of every list in `nextHop` appended, for the listed nodes only. */
  ghost predicate Filled(links: LinkMap, addr: map<Node, nat>, nextHop: HopTable, t0: Table, t: Table,
                         nodes: set<Node>) {
    && (forall v, dst :: dst in addr ==>
          Entry(t, v, addr[dst], []) == Entry(t0, v, addr[dst], []) +
            if v in nodes then Indices(links, v, Entry(nextHop, v, dst, [])) else [])
    && (forall v, x :: !IsAddress(addr, x) ==> Entry(t, v, x, []) == Entry(t0, v, x, []))
  }

  /** `t` is `t0` with `list` appended to one entry. */
  ghost predicate Appended(t0: Table, t: Table, node: Node, x: nat, list: seq<nat>) {
    forall v, y :: Entry(t, v, y, []) == Entry(t0, v, y, []) + if v == node && y == x then list else []
  }

  lemma TouchSame(links: LinkMap, a: Node, b: Node)
    ensures SameWorking(links, Touch(links, a, b))
  {
  }

  lemma TouchKeepsTables(links: LinkMap, a: Node, b: Node, addr: map<Node, nat>, nextHop: HopTable, t: Table)
    requires TablesOk(links, addr, nextHop, t)
    ensures TablesOk(Touch(links, a, b), addr, nextHop, t)
  {
    forall v, dst | dst in addr
      ensures Entry(t, v, addr[dst], []) == Indices(Touch(links, a, b), v, Entry(nextHop, v, dst, []))
    {
      assert Indices(Touch(links, a, b), v, Entry(nextHop, v, dst, [])) ==
             Indices(links, v, Entry(nextHop, v, dst, []));
    }
  }

  lemma RoutesSame(g1: Fabric, g2: Fabric, tx: nat, servers: set<Node>, nextHop: HopTable, searches: map<Node, Search>)
    requires RoutesOk(g1, tx, servers, nextHop, searches) && g1.switches == g2.switches &&
             SameWorking(g1.links, g2.links)
    ensures RoutesOk(g2, tx, servers, nextHop, searches)
  {
    forall h | h in servers
      ensures IsSearch(g2, tx, h, searches[h])
    {
      SearchSame(g1, g2, tx, h, searches[h]);
    }
  }

  /** `m[a].clear()` */
  function Clear<K, V>(m: map<Node, map<K, V>>, a: Node): map<Node, map<K, V>> {
    m[a := map[]]
  }

  lemma EntryClear<K, V>(m: map<Node, map<K, V>>, a: Node, default: V)
    ensures forall v, k :: Entry(Clear(m, a), v, k, default) == if v == a then default else Entry(m, v, k, default)
  {
    forall v, k
      ensures Entry(Clear(m, a), v, k, default) == if v == a then default else Entry(m, v, k, default)
    {
      if v == a {
        assert k !in Clear(m, a)[a];
      }
    }
  }

  /** As Filled, for one node, with the destinations in `rest` still to do. */
  ghost predicate PartFilled(links: LinkMap, addr: map<Node, nat>, nextHop: HopTable, t0: Table, t: Table, node: Node,
                             rest: set<Node>) {
    && (forall v, dst :: dst in addr ==>
          Entry(t, v, addr[dst], []) == Entry(t0, v, addr[dst], []) +
            if v == node && dst !in rest then Indices(links, v, Entry(nextHop, v, dst, [])) else [])
    && (forall v, x :: !IsAddress(addr, x) ==> Entry(t, v, x, []) == Entry(t0, v, x, []))
  }

  lemma PartStart(links: LinkMap, addr: map<Node, nat>, nextHop: HopTable, t: Table, node: Node, rest: set<Node>)
    requires forall dst :: dst !in rest ==> Entry(nextHop, node, dst, []) == []
    ensures PartFilled(links, addr, nextHop, t, t, node, rest)
  {
  }

  lemma PartStep(links: LinkMap, addr: map<Node, nat>, nextHop: HopTable, t0: Table, t1: Table, t2: Table, node: Node,
                 rest: set<Node>, dst: Node)
    requires PartFilled(links, addr, nextHop, t0, t1, node, rest) && Injective(addr) && dst in rest
    requires dst in addr ==> Appended(t1, t2, node, addr[dst], Indices(links, node, Entry(nextHop, node, dst, [])))
    requires dst !in addr ==> t2 == t1
    ensures PartFilled(links, addr, nextHop, t0, t2, node, rest - {dst})
  {
    if dst in addr {
      assert IsAddress(addr, addr[dst]);
      forall v, d | d in addr
        ensures Entry(t2, v, addr[d], []) == Entry(t0, v, addr[d], []) +
                  if v == node && d !in rest - {dst} then Indices(links, v, Entry(nextHop, v, d, [])) else []
      {
        assert Entry(t1, v, addr[d], []) == Entry(t0, v, addr[d], []) +
                 if v == node && d !in rest then Indices(links, v, Entry(nextHop, v, d, [])) else [];
      }
    }
  }

  lemma PartEnd(links: LinkMap, addr: map<Node, nat>, nextHop: HopTable, t0: Table, t1: Table, t2: Table, node: Node,
                filled: set<Node>)
    requires Filled(links, addr, nextHop, t0, t1, filled) && PartFilled(links, addr, nextHop, t1, t2, node, {}) &&
             node !in filled
    ensures Filled(links, addr, nextHop, t0, t2, filled + {node})
  {
    forall v, d | d in addr
      ensures Entry(t2, v, addr[d], []) == Entry(t0, v, addr[d], []) +
                if v in filled + {node} then Indices(links, v, Entry(nextHop, v, d, [])) else []
    {
      assert Entry(t1, v, addr[d], []) == Entry(t0, v, addr[d], []) +
               if v in filled then Indices(links, v, Entry(nextHop, v, d, [])) else [];
    }
  }

  lemma FilledIsTables(links: LinkMap, addr: map<Node, nat>, nextHop: HopTable, t0: Table, t: Table)
    requires Filled(links, addr, nextHop, t0, t, nextHop.Keys) && forall v, x :: Entry(t0, v, x, []) == []
    ensures TablesOk(links, addr, nextHop, t)
  {
    forall v, dst | dst in addr
      ensures Entry(t, v, addr[dst], []) == Indices(links, v, Entry(nextHop, v, dst, []))
    {
      assert Entry(t0, v, addr[dst], []) == [];
      assert v !in nextHop ==> Entry(nextHop, v, dst, []) == [];
    }
  }

  lemma NoHopsNoEntries(links: LinkMap, addr: map<Node, nat>, nextHop: HopTable, t: Table, v: Node, x: nat)
    requires TablesOk(links, addr, nextHop, t) && forall dst :: Entry(nextHop, v, dst, []) == []
    ensures Entry(t, v, x, []) == []
  {
    if IsAddress(addr, x) {
      var dst :| dst in addr && addr[dst] == x;
      assert Entry(nextHop, v, dst, []) == [];
    }
  }

  lemma NothingFilled(links: LinkMap, addr: map<Node, nat>, nextHop: HopTable, t: Table)
    ensures Filled(links, addr, nextHop, t, t, {})
  {
  }

  // ----- rebuilding

  /** Two failure sequences naming the same links, in any order and either direction, leave the same working links. */
  lemma FailuresCommute(links: LinkMap, e1: seq<(Node, Node)>, e2: seq<(Node, Node)>)
    requires Symmetric(links) && forall x, y :: Failed(e1, x, y) <==> Failed(e2, x, y)
    ensures SameWorking(TakeDownAll(links, e1), TakeDownAll(links, e2))
  {
    TakeDownAllWorks(links, e1);
    TakeDownAllWorks(links, e2);
  }

  /** Next hops, with their order, and tables depend on the working links alone. */
  lemma RebuildAgrees(g1: Fabric, g2: Fabric, tx: nat, servers: set<Node>, addr: map<Node, nat>,
                      n1: HopTable, n2: HopTable, s1: map<Node, Search>, s2: map<Node, Search>,
                      t1: Table, t2: Table)
    requires g1.switches == g2.switches && SameWorking(g1.links, g2.links) && Symmetric(g1.links)
    requires RoutesOk(g1, tx, servers, n1, s1) && RoutesOk(g2, tx, servers, n2, s2)
    requires TablesOk(g1.links, addr, n1, t1) && TablesOk(g2.links, addr, n2, t2)
    ensures s1 == s2
    ensures forall v, dst :: Entry(n1, v, dst, []) == Entry(n2, v, dst, [])
    ensures forall v, x :: Entry(t1, v, x, []) == Entry(t2, v, x, [])
  {
    forall h | h in servers
      ensures s1[h] == s2[h]
    {
      SearchUnique(g1, g2, tx, h, s1[h], s2[h]);
    }
    assert s1 == s2;
    forall v, x
      ensures Entry(t1, v, x, []) == Entry(t2, v, x, [])
    {
      EntriesWorkEverywhere(g1, tx, servers, n1, s1);
      TablesAgree(g1.links, g2.links, addr, n1, n2, t1, t2, v, x);
    }
  }

  lemma EntriesWorkEverywhere(g: Fabric, tx: nat, servers: set<Node>, nextHop: HopTable, searches: map<Node, Search>)
    requires RoutesOk(g, tx, servers, nextHop, searches) && Symmetric(g.links)
    ensures forall v, dst, u :: u in Entry(nextHop, v, dst, []) ==> Up(g.links, v, u)
  {
    forall v, dst, u | u in Entry(nextHop, v, dst, [])
      ensures Up(g.links, v, u)
    {
      EntriesWork(g, tx, servers, nextHop, searches, v, dst);
    }
  }

  lemma TablesAgree(l1: LinkMap, l2: LinkMap, addr: map<Node, nat>, n1: HopTable, n2: HopTable,
                    t1: Table, t2: Table, v: Node, x: nat)
    requires SameWorking(l1, l2) && TablesOk(l1, addr, n1, t1) && TablesOk(l2, addr, n2, t2)
    requires forall w, dst :: Entry(n1, w, dst, []) == Entry(n2, w, dst, [])
    requires forall w, dst, u :: u in Entry(n1, w, dst, []) ==> Up(l1, w, u)
    ensures Entry(t1, v, x, []) == Entry(t2, v, x, [])
  {
    if IsAddress(addr, x) {
      var dst :| dst in addr && addr[dst] == x;
      var e := Entry(n1, v, dst, []);
      assert e == Entry(n2, v, dst, []);
      forall k | 0 <= k < |e|
        ensures IndexOf(l1, v, e[k]) == IndexOf(l2, v, e[k])
      {
        assert e[k] in e;
      }
      assert Indices(l1, v, e) == Indices(l2, v, e);
    }
  }

  // ----- what failures do to distances and next hops

  ghost predicate Crosses(p: seq<Node>, events: seq<(Node, Node)>) {
    |p| > 1 && (Failed(events, p[0], p[1]) || Crosses(p[1..], events))
  }

  lemma {:induction false} PathSurvives(g: Fabric, events: seq<(Node, Node)>, host: Node, p: seq<Node>)
    requires Symmetric(g.links) && IsPath(g, host, p) && !Crosses(p, events)
    ensures IsPath(g.(links := TakeDownAll(g.links, events)), host, p)
  {
    if |p| > 1 {
      PathSurvives(g, events, host, p[1..]);
      TakeDownAllWorks(g.links, events);
    }
  }

  /** Links that fail never make a distance shorter, nor a node reachable. */
  lemma NoDistanceShrinks(g: Fabric, events: seq<(Node, Node)>, tx: nat, host: Node, before: Search, after: Search,
                          v: Node)
    requires Symmetric(g.links) && IsSearch(g, tx, host, before)
    requires IsSearch(g.(links := TakeDownAll(g.links, events)), tx, host, after) && v in after.dis
    ensures v in before.dis && before.dis[v] <= after.dis[v]
  {
    TakeDownAllWorks(g.links, events);
    DistancesWithin(g.(links := TakeDownAll(g.links, events)), g, tx, host, after, before, v);
  }

  /** No failed link is on a shortest path from `v`. */
  ghost predicate Untouched(g: Fabric, host: Node, events: seq<(Node, Node)>, v: Node) {
    forall p :: IsShortest(g, host, p) && p[0] == v ==> !Crosses(p, events)
  }

  lemma UntouchedKeepsDistance(g: Fabric, events: seq<(Node, Node)>, tx: nat, host: Node, before: Search,
                               after: Search, v: Node, p: seq<Node>)
    requires Symmetric(g.links) && IsSearch(g, tx, host, before)
    requires IsSearch(g.(links := TakeDownAll(g.links, events)), tx, host, after)
    requires IsShortest(g, host, p) && p[0] == v && !Crosses(p, events)
    ensures v in before.dis && v in after.dis && after.dis[v] == before.dis[v]
  {
    var g' := g.(links := TakeDownAll(g.links, events));
    PathSurvives(g, events, host, p);
    TakeDownAllWorks(g.links, events);
    PathReaches(g', tx, host, after, p);
    DistancesWithin(g', g, tx, host, after, before, v);
    LeastHops(g, tx, host, before, v);
  }

  /** A pair none of whose shortest paths used a failed link keeps its distance and its next-hop set. */
  lemma UntouchedKeepsHops(g: Fabric, events: seq<(Node, Node)>, tx: nat, host: Node, before: Search, after: Search,
                           v: Node)
    requires Symmetric(g.links) && IsSearch(g, tx, host, before)
    requires IsSearch(g.(links := TakeDownAll(g.links, events)), tx, host, after)
    requires Untouched(g, host, events, v)
    ensures v in before.dis <==> v in after.dis
    ensures v in before.dis ==> after.dis[v] == before.dis[v]
    ensures v in before.hops <==> v in after.hops
    ensures v in before.hops ==> forall u :: u in before.hops[v] <==> u in after.hops[v]
  {
    var g' := g.(links := TakeDownAll(g.links, events));
    TakeDownAllWorks(g.links, events);
    if v in after.dis {
      DistancesWithin(g', g, tx, host, after, before, v);
    }
    if v in before.dis {
      MeasurelessFirst(g, tx, host, before, v);
      UntouchedKeepsDistance(g, events, tx, host, before, after, v, FirstPath(g, tx, host, before, v));
      HopsMeaning(g, tx, host, before, v);
      HopsMeaning(g', tx, host, after, v);
      if v != host {
        forall u
          ensures u in before.hops[v] <==> u in after.hops[v]
        {
          if u in before.hops[v] { HopStays(g, events, tx, host, before, after, v, u); }
          if u in after.hops[v] { HopWasThere(g, g', tx, host, before, after, v, u); }
        }
      }
    }
  }

  lemma MeasurelessFirst(g: Fabric, tx: nat, host: Node, s: Search, v: Node)
    requires IsSearch(g, tx, host, s) && Symmetric(g.links) && v in s.dis
    ensures IsShortest(g, host, FirstPath(g, tx, host, s, v))
  {
    LeastHops(g, tx, host, s, v);
  }

  /** Where no shortest path of `v` crosses a failed link, its hop `u` keeps its link and its distance. */
  lemma HopStaysNear(g: Fabric, events: seq<(Node, Node)>, tx: nat, host: Node, before: Search, after: Search, v: Node,
                     u: Node)
    requires Symmetric(g.links) && IsSearch(g, tx, host, before)
    requires IsSearch(g.(links := TakeDownAll(g.links, events)), tx, host, after)
    requires Untouched(g, host, events, v) && v in before.hops && u in before.hops[v]
    ensures u in before.dis && u in after.dis && after.dis[u] == before.dis[u]
    ensures Up(TakeDownAll(g.links, events), u, v)
  {
    hide IsSearch;
    HopBeginsShortest(g, tx, host, before, v, u);
    HopStep(g, tx, host, before, v, u);
    var rest := FirstPath(g, tx, host, before, u);
    var p := [v] + rest;
    assert !Crosses(p, events) && p[1..] == rest;
    MeasurelessFirst(g, tx, host, before, u);
    UntouchedKeepsDistance(g, events, tx, host, before, after, u, rest);
    TakeDownAllWorks(g.links, events);
  }

  lemma HopStays(g: Fabric, events: seq<(Node, Node)>, tx: nat, host: Node, before: Search, after: Search, v: Node,
                 u: Node)
    requires Symmetric(g.links) && IsSearch(g, tx, host, before)
    requires IsSearch(g.(links := TakeDownAll(g.links, events)), tx, host, after)
    requires Untouched(g, host, events, v) && v in before.hops && u in before.hops[v]
    requires v in before.dis && v in after.hops && v in after.dis && after.dis[v] == before.dis[v]
    ensures u in after.hops[v]
  {
    HopStaysNear(g, events, tx, host, before, after, v, u);
    hide IsSearch, Untouched;
    HopsMeaning(g, tx, host, before, v);
    HopsMeaning(g.(links := TakeDownAll(g.links, events)), tx, host, after, v);
  }

  lemma HopWasThere(g: Fabric, g': Fabric, tx: nat, host: Node, before: Search, after: Search, v: Node, u: Node)
    requires IsSearch(g, tx, host, before) && IsSearch(g', tx, host, after)
    requires g.switches == g'.switches && forall x, y :: Up(g'.links, x, y) ==> Up(g.links, x, y)
    requires v in before.hops && v in before.dis && v in after.dis && before.dis[v] == after.dis[v]
    requires v in after.hops && u in after.hops[v]
    ensures u in before.hops[v]
  {
    HopsMeaning(g, tx, host, before, v);
    HopsMeaning(g', tx, host, after, v);
    DistancesWithin(g', g, tx, host, after, before, u);
    assert u in before.q && EdgeOk(g, before.dis, u, v);
  }
}
