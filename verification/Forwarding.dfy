/** What packets do: walks along the compiled tables, one interface of the entry at every node. */
module Forwarding {
  import opened Collections
  import opened Links
  import opened Search
  import opened Paths
  import opened Tables

  /** The working interfaces of a node have indices of their own, as its devices do. */
  ghost predicate PortsDistinct(links: LinkMap) {
    forall v, u, w :: Up(links, v, u) && Up(links, v, w) && Get(links, v, u).idx == Get(links, v, w).idx ==> u == w
  }

  lemma PortsStayDistinct(links: LinkMap, events: seq<(Node, Node)>)
    requires Symmetric(links) && PortsDistinct(links)
    ensures PortsDistinct(TakeDownAll(links, events))
  {
    TakeDownAllWorks(links, events);
  }

  /** The table of `v` sends packets for address `x` out of an interface behind which `u` is. */
  ghost predicate Sends(links: LinkMap, tables: Table, x: nat, v: Node, u: Node) {
    Up(links, v, u) && Get(links, v, u).idx in Entry(tables, v, x, [])
  }

  /** Behind every interface of the entry is a working link. */
  ghost predicate EntryWorks(links: LinkMap, tables: Table, x: nat, v: Node) {
    forall i :: i in Entry(tables, v, x, []) ==> exists u :: Sends(links, tables, x, v, u) && Get(links, v, u).idx == i
  }

  /** A complete walk: the tables send the packet on at every node until it is at `host`. */
  ghost predicate IsWalk(links: LinkMap, tables: Table, x: nat, host: Node, p: seq<Node>) {
    |p| > 0 &&
    if |p| == 1 then p[0] == host else Sends(links, tables, x, p[0], p[1]) && IsWalk(links, tables, x, host, p[1..])
  }

  /** A packet under way, not necessarily arrived. */
  ghost predicate UnderWay(links: LinkMap, tables: Table, x: nat, p: seq<Node>) {
    |p| > 0 &&
    var n := |p| - 1;
    n > 0 ==> UnderWay(links, tables, x, p[..n]) && Sends(links, tables, x, p[n - 1], p[n])
  }

  /** Lists and tables are those of the searches over the working links, and `host` is a server. */
  ghost predicate Compiled(g: Fabric, tx: nat, servers: set<Node>, addr: map<Node, nat>, nextHop: HopTable,
                           searches: map<Node, Search>, tables: Table, host: Node) {
    && RoutesOk(g, tx, servers, nextHop, searches) && TablesOk(g.links, addr, nextHop, tables)
    && Symmetric(g.links) && PortsDistinct(g.links) && host in servers && host in addr
  }

  /** The tables send exactly to the next hops, over working links. */
  lemma SendsToHops(g: Fabric, tx: nat, servers: set<Node>, addr: map<Node, nat>, nextHop: HopTable,
                    searches: map<Node, Search>, tables: Table, host: Node, v: Node)
    requires Compiled(g, tx, servers, addr, nextHop, searches, tables, host)
    ensures forall u :: Sends(g.links, tables, addr[host], v, u) <==> u in HopsFrom(searches[host].hops, v)
    ensures EntryWorks(g.links, tables, addr[host], v)
  {
    EntriesWork(g, tx, servers, nextHop, searches, v, host);
    var nexts := Entry(nextHop, v, host, []);
    assert nexts == HopsFrom(searches[host].hops, v);
    var entry := Entry(tables, v, addr[host], []);
    IndicesLead(g.links, v, nexts, entry);
  }

  lemma IndicesLead(links: LinkMap, v: Node, nexts: seq<Node>, entry: seq<nat>)
    requires PortsDistinct(links) && entry == Indices(links, v, nexts) && forall u :: u in nexts ==> Up(links, v, u)
    ensures forall u :: Up(links, v, u) ==> (Get(links, v, u).idx in entry <==> u in nexts)
    ensures forall i :: i in entry ==> exists u :: u in nexts && Get(links, v, u).idx == i
  {
    forall u | Up(links, v, u)
      ensures Get(links, v, u).idx in entry <==> u in nexts
    {
      if Get(links, v, u).idx in entry {
        var k :| 0 <= k < |entry| && entry[k] == Get(links, v, u).idx;
        assert nexts[k] in nexts;
      }
      if u in nexts {
        var k :| 0 <= k < |nexts| && nexts[k] == u;
        assert entry[k] in entry;
      }
    }
    forall i | i in entry
      ensures exists u :: u in nexts && Get(links, v, u).idx == i
    {
      var k :| 0 <= k < |entry| && entry[k] == i;
      assert nexts[k] in nexts;
    }
  }

  lemma {:induction false} WalkFollows(g: Fabric, tx: nat, servers: set<Node>, addr: map<Node, nat>, nextHop: HopTable,
                                       searches: map<Node, Search>, tables: Table, host: Node, p: seq<Node>)
    requires Compiled(g, tx, servers, addr, nextHop, searches, tables, host)
    ensures host in searches
    ensures IsWalk(g.links, tables, addr[host], host, p) <==> Follows(searches[host].hops, host, p)
  {
    if |p| > 1 {
      WalkFollows(g, tx, servers, addr, nextHop, searches, tables, host, p[1..]);
      SendsToHops(g, tx, servers, addr, nextHop, searches, tables, host, p[0]);
      hide Compiled, Sends;
    }
  }

  lemma {:induction false} UnderWayTraces(g: Fabric, tx: nat, servers: set<Node>, addr: map<Node, nat>,
                                          nextHop: HopTable, searches: map<Node, Search>, tables: Table,
                                          host: Node, p: seq<Node>)
    requires Compiled(g, tx, servers, addr, nextHop, searches, tables, host)
    ensures host in searches
    ensures UnderWay(g.links, tables, addr[host], p) <==> IsTrace(searches[host].hops, p)
  {
    if |p| > 1 {
      var n := |p| - 1;
      UnderWayTraces(g, tx, servers, addr, nextHop, searches, tables, host, p[..n]);
      SendsToHops(g, tx, servers, addr, nextHop, searches, tables, host, p[n - 1]);
      hide Compiled, Sends;
    }
  }

  /** Whatever interface is taken at each node, the complete walks along the tables are exactly the minimum-hop
      paths. */
  lemma WalksAreShortest(g: Fabric, tx: nat, servers: set<Node>, addr: map<Node, nat>, nextHop: HopTable,
                         searches: map<Node, Search>, tables: Table, host: Node, p: seq<Node>)
    requires Compiled(g, tx, servers, addr, nextHop, searches, tables, host)
    ensures IsWalk(g.links, tables, addr[host], host, p) <==> IsShortest(g, host, p)
  {
    WalkFollows(g, tx, servers, addr, nextHop, searches, tables, host, p);
    ForwardingIsShortest(g, tx, host, searches[host], p);
  }

  /** A packet under way from a node that has a path to `host` never loops, passes through switches only, finds an
      entry until it is at `host`, every interface of which works, and is there after as many steps as a shortest path
      has. */
  lemma PacketsArrive(g: Fabric, tx: nat, servers: set<Node>, addr: map<Node, nat>, nextHop: HopTable,
                      searches: map<Node, Search>, tables: Table, host: Node, p: seq<Node>, shortest: seq<Node>)
    requires Compiled(g, tx, servers, addr, nextHop, searches, tables, host)
    requires UnderWay(g.links, tables, addr[host], p) && IsShortest(g, host, shortest) && shortest[0] == p[0]
    ensures Distinct(p) && forall k :: 0 < k < |p| && p[k] != host ==> p[k] in g.switches
    ensures |p| <= |shortest| && (p[|p| - 1] == host <==> |p| == |shortest|)
    ensures p[|p| - 1] != host ==> Entry(tables, p[|p| - 1], addr[host], []) != []
    ensures EntryWorks(g.links, tables, addr[host], p[|p| - 1])
  {
    UnderWayTraces(g, tx, servers, addr, nextHop, searches, tables, host, p);
    var s, last := searches[host], p[|p| - 1];
    SendsToHops(g, tx, servers, addr, nextHop, searches, tables, host, last);
    ShortestLength(g, tx, host, s, shortest);
    TraceArrives(g, tx, host, s, p);
    if last != host {
      assert s.hops[last][0] in HopsFrom(s.hops, last);
      assert Sends(g.links, tables, addr[host], last, s.hops[last][0]);
    }
  }

  lemma ShortestLength(g: Fabric, tx: nat, host: Node, s: Search, p: seq<Node>)
    requires IsSearch(g, tx, host, s) && Symmetric(g.links) && IsShortest(g, host, p)
    ensures p[0] in s.dis && |p| - 1 == s.dis[p[0]]
  {
    LeastHops(g, tx, host, s, p[0]);
  }
}
