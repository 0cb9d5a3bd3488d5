/** The driver's routing state, updated in place: routes from all servers, tables, and link failures. */
module Routers {
  import opened Collections
  import opened Links
  import opened Search
  import opened Paths
  import opened Tables
  import opened Forwarding
  import opened Words
  import Addresses

  /** The driver refuses topologies with more nodes than this. */
  const MAX_NODES := 100000

  /** The place of each node in the container. */
  function Places(nodes: seq<Node>): (r: map<Node, nat>)
    requires Distinct(nodes)
    ensures forall v :: v in r <==> v in nodes
    ensures forall i :: 0 <= i < |nodes| ==> nodes[i] in r && r[nodes[i]] == i
  {
    if nodes == [] then map[]
    else
      var n := |nodes| - 1;
      assert nodes == nodes[..n] + [nodes[n]];
      Places(nodes[..n])[nodes[n] := n]
  }

  /** The address of each node. */
  function AddressTable(nodes: seq<Node>): map<Node, nat>
    requires Distinct(nodes)
  {
    map v | v in Places(nodes) :: Addresses.NodeIdToIp(Places(nodes)[v])
  }

  class Router {
    const nodes: seq<Node>           // the node container; a node's id is its place here
    const ids: map<Node, nat>
    const switches: set<Node>
    const payload: nat               // packet payload size in bytes
    const addr: map<Node, nat>       // the address of each node

    var links: LinkMap
    var nextHop: HopTable
    var pairDelay: map<Node, map<Node, nat>>
    var pairTxDelay: map<Node, map<Node, nat>>
    var pairBw: map<Node, map<Node, nat>>    // keyed by ids instead of nodes
    var tables: map<Node, map<nat, seq<nat>>>
    ghost var searches: map<Node, Search>    // the last search from each server

    /** Node `i` of the container has id `i`, and, when it is a server, address NodeIdToIp(i). */
    constructor (nodes: seq<Node>, switches: set<Node>, payload: nat)
      requires Distinct(nodes) && |nodes| <= MAX_NODES
      ensures this.nodes == nodes && this.switches == switches && this.payload == payload
      ensures ids == Places(nodes) && addr == AddressTable(nodes)
      ensures Wired() && links == map[] && nextHop == map[] && tables == map[]
      ensures pairDelay == map[] && pairTxDelay == map[] && pairBw == map[]
    {
      this.nodes, this.switches, this.payload := nodes, switches, payload;
      ids := Places(nodes);
      addr := AddressTable(nodes);
      links, nextHop, tables := map[], map[], map[];
      pairDelay, pairTxDelay, pairBw, searches := map[], map[], map[], map[];
    }

    /** Node `i` of the container has address 11.0.0.1 plus `i` times 256, within the low 32 bits. */
    lemma AddressOfNode(i: nat)
      requires Wired() && i < |nodes|
      ensures nodes[i] in addr && addr[nodes[i]] == (0xb0000 + i) % 0x100_0000 * 256 + 1
    {
      hide Addresses.NodeIdToIp, Known, Rated, Symmetric;
      var v := nodes[i];
      assert v in ids && ids[v] == i;
      assert v in addr && addr[v] == Addresses.NodeIdToIp(ids[v]);
      Addresses.AddressOf(i);
    }

    /** Installs one link of the topology. */
    method InstallLink(a: Node, b: Node, atA: Interface, atB: Interface)
      requires Wired() && a in ids && b in ids && atA.bw > 0 && atB.bw > 0
      modifies this`links
      ensures links == AddLink(old(links), a, b, atA, atB) && Wired()
    {
      AddLinkKeeps(links, a, b, atA, atB);
      AddLinkKnows(links, a, b, atA, atB);
      StillKnown(links, AddLink(links, a, b, atA, atB), a, b);
      links := AddLink(links, a, b, atA, atB);
    }

    /** Installs the links of all topology rows, in file order. */
    method ReadTopology(rows: seq<LinkRow>)
      requires Wired() && links == map[]
      requires forall r :: r in rows ==> r.a in ids && r.b in ids && r.atA.bw > 0 && r.atB.bw > 0
      modifies this`links
      ensures links == MapOf(rows) && Wired()
      ensures Installed(links, rows)
    {
      hide WiredFor, Installed;
      for i := 0 to |rows|
        invariant links == MapOf(rows[..i]) && Wired()
      {
        var r := rows[i];
        assert r in rows && rows[..i + 1][..i] == rows[..i];
        InstallLink(r.a, r.b, r.atA, r.atB);
      }
      assert rows[..|rows|] == rows;
      MapOfInstalled(rows);
    }

    /** The first computation of all routes and tables. */
    method SetUpRoutes()
      requires Wired() && nextHop == map[] && tables == map[]
      modifies this`nextHop, this`pairDelay, this`pairTxDelay, this`pairBw, this`searches, this`tables
      ensures Routed()
      ensures Overwritten(old(pairDelay), pairDelay, Delays(searches))
      ensures Overwritten(old(pairTxDelay), pairTxDelay, TxDelays(searches))
      ensures OverwrittenById(old(pairBw), pairBw, Rates(searches))
    {
      hide WiredFor, RoutesOk, TablesOk, Filled, Linked, Accumulated, Overwritten, OverwrittenById;
      WiredIsRated();
      ghost var d0, t0, b0 := pairDelay, pairTxDelay, pairBw;
      CalculateRoutes();
      RoutesFromScratch(d0, t0, b0);
      MeasuresAccumulated(map[], d0, t0, b0);
      LinkedAfter();
      SetRoutingEntries();
      FilledIsTables(links, addr, nextHop, map[], tables);
    }

    ghost function G(): Fabric
      reads this`links
    {
      Fabric(links, switches)
    }

    ghost function Servers(): set<Node> {
      set v | v in nodes && v !in switches
    }

    /** What reading the topology establishes and no later step breaks. */
    ghost predicate Wired()
      reads this`links
    {
      WiredFor(links)
    }

    /** Links join nodes of the container only. */
    ghost predicate Known(l: LinkMap) {
      forall a, b :: Adjacent(l, a, b) ==> a in ids && b in ids
    }

    ghost predicate WiredFor(l: LinkMap) {
      && Rated(l) && Symmetric(l)
      && Known(l)
      && |nodes| <= MAX_NODES
      && (forall i :: 0 <= i < |nodes| ==> nodes[i] in ids && ids[nodes[i]] == i)
      && (forall v :: v in ids ==> ids[v] < |nodes| && nodes[ids[v]] == v)
      && addr.Keys == ids.Keys
      && (forall v :: v in addr ==> addr[v] == Addresses.NodeIdToIp(ids[v]))
    }

    ghost predicate Routed()
      reads this
    {
      && Wired()
      && RoutesOk(G(), PacketBits(payload), Servers(), nextHop, searches)
      && TablesOk(links, addr, nextHop, tables)
    }

    lemma AddressesDiffer()
      requires Wired()
      ensures Injective(addr)
    {
      hide Addresses.NodeIdToIp, Known, Rated, Symmetric;
      forall a, b | a in addr && b in addr && addr[a] == addr[b]
        ensures a == b
      {
        Addresses.SameAddress(ids[a], ids[b]);
      }
    }

    /** The first key in iteration order. */
    static method Least(s: set<Node>) returns (x: Node)
      requires s != {}
      ensures x in s && forall y :: y in s ==> x <= y
    {
      x := Pick(s);
      var rest := s - {x};
      while rest != {}
        invariant x in s && forall y :: y in s && y !in rest ==> x <= y
        decreases rest
      {
        var y := Pick(rest);
        if y < x { x := y; }
        rest := rest - {y};
      }
    }

    /** Stores a column of values, one row per node, under one key. */
    static method StoreColumn(m: map<Node, map<Node, nat>>, column: map<Node, nat>, key: Node)
        returns (r: map<Node, map<Node, nat>>)
      ensures Overwritten(m, r, map[key := column])
    {
      r := m;
      var todo := column.Keys;
      while todo != {}
        invariant todo <= column.Keys
        invariant forall v, k ::
                    Entry(r, v, k, 0) == if k == key && v in column && v !in todo then column[v] else Entry(m, v, k, 0)
        decreases todo
      {
        var v := Least(todo);
        EntryStore(r, v, key, column[v], 0);
        r := Store(r, v, key, column[v]);
        todo := todo - {v};
      }
    }

    /** The values of a column, keyed by node ids. */
    function ById(column: map<Node, nat>): (r: map<Node, nat>)
      requires column.Keys <= ids.Keys && forall a, b :: a in ids && b in ids && ids[a] == ids[b] ==> a == b
      ensures forall v :: v in column ==> ids[v] in r && r[ids[v]] == column[v]
      ensures forall v :: v in ids && ids[v] in r ==> v in column
    {
      map v | v in column :: ids[v] := column[v]
    }

    /** The body of the inner loop: looks at one neighbour `next` of the node at place `i` of the queue.
        `s` and `s'` record the variables before and after, and `done` the neighbours looked at so far. */
    method ScanLink(host: Node, i: nat, next: Node, q: seq<Node>, dis: map<Node, nat>, m: Measures,
                    ghost s: Search, ghost done: set<Node>, ghost before: HopTable)
        returns (q': seq<Node>, dis': map<Node, nat>, m': Measures, ghost s': Search)
      requires Rated(links) && Progress(G(), PacketBits(payload), host, s, i, done) && Holds(s, q, dis, m)
      requires i < |q| && next in Neighbours(links, q[i]) && next !in done && forall w :: w in done ==> w < next
      requires Grown(before, nextHop, host, s.hops)
      modifies this`nextHop
      ensures Progress(G(), PacketBits(payload), host, s', i, done + {next}) && Holds(s', q', dis', m')
      ensures Grown(before, nextHop, host, s'.hops)
      ensures i < |q'| && q'[i] == q[i] && dis'.Keys <= dis.Keys + {next}
    {
      hide Progress, Rated, Grown, Entry, HopsFrom, Add64, TransmitTime, Min, PacketBits;
      q', dis', m' := q, dis, m;
      s' := Visit(G(), PacketBits(payload), host, s, i, done, next);
      RatedLink(links, q[i], next);
      var now := q[i];
      var link := Neighbours(links, now)[next];
      if !link.up { return; }
      if next !in dis {
        dis' := dis[next := dis[now] + 1];
        m' := Measures(
          m.delay[next := Add64(m.delay[now], link.delay)],
          m.txDelay[next := Add64(m.txDelay[now], TransmitTime(PacketBits(payload), link.bw))],
          m.bw[next := Min(m.bw[now], link.bw)]);
        if next in switches { q' := q + [next]; }
      }
      if dis[now] + 1 == dis'[next] {
        GrownByOne(before, nextHop, host, s.hops, next, now);
        nextHop := Store(nextHop, next, host, Entry(nextHop, next, host, []) + [now]);
      }
    }

    ghost predicate Holds(s: Search, q: seq<Node>, dis: map<Node, nat>, m: Measures) {
      s.q == q && s.dis == dis && s.m == m
    }

    /** The inner loop: looks at all neighbours of the node at place `i`, in key order. */
    method ScanNode(host: Node, i: nat, q: seq<Node>, dis: map<Node, nat>, m: Measures, ghost s: Search,
                    ghost before: HopTable)
        returns (q': seq<Node>, dis': map<Node, nat>, m': Measures, ghost s': Search)
      requires Wired() && Progress(G(), PacketBits(payload), host, s, i, {}) && Holds(s, q, dis, m) && i < |q|
      requires Grown(before, nextHop, host, s.hops) && dis.Keys <= ids.Keys
      modifies this`nextHop
      ensures Progress(G(), PacketBits(payload), host, s', i + 1, {}) && Holds(s', q', dis', m')
      ensures Grown(before, nextHop, host, s'.hops) && i < |q'| && dis'.Keys <= ids.Keys
    {
      hide Progress, Grown, PacketBits, Wired, Rated;
      WiredIsRated();
      q', dis', m', s' := q, dis, m, s;
      var now := q[i];
      ghost var done, last := {}, now;
      var todo := Neighbours(links, now).Keys;
      while todo != {}
        invariant i < |q'| && q'[i] == now && Progress(G(), PacketBits(payload), host, s', i, done) &&
                  Holds(s', q', dis', m')
        invariant todo !! done && todo + done == Neighbours(links, now).Keys
        invariant (forall a :: a in done ==> a <= last) && (done != {} ==> forall b :: b in todo ==> last < b)
        invariant Grown(before, nextHop, host, s'.hops) && dis'.Keys <= ids.Keys
        decreases todo
      {
        var next := Least(todo);
        todo := todo - {next};
        KnownNeighbour(now, next);
        q', dis', m', s' := ScanLink(host, i, next, q', dis', m', s', done, before);
        done, last := done + {next}, next;
      }
      AdvanceKeeps(G(), PacketBits(payload), host, s', i, done);
    }

    /** The three loops that end a search. */
    method StoreMeasures(host: Node, m: Measures)
      requires Wired() && host in ids && m.bw.Keys <= ids.Keys
      modifies this`pairDelay, this`pairTxDelay, this`pairBw
      ensures Overwritten(old(pairDelay), pairDelay, map[host := m.delay])
      ensures Overwritten(old(pairTxDelay), pairTxDelay, map[host := m.txDelay])
      ensures OverwrittenById(old(pairBw), pairBw, map[host := m.bw])
    {
      IdsDiffer();
      hide Wired, Overwritten, OverwrittenById;
      pairDelay := StoreColumn(pairDelay, m.delay, host);
      pairTxDelay := StoreColumn(pairTxDelay, m.txDelay, host);
      ghost var b0 := pairBw;
      pairBw := StoreColumn(pairBw, ById(m.bw), ids[host]);
      StoredById(b0, pairBw, m.bw, host);
    }

    lemma IdsDiffer()
      requires Wired()
      ensures forall a, b :: a in ids && b in ids && ids[a] == ids[b] ==> a == b
    {
    }

    lemma StoredById(b0: map<Node, map<Node, nat>>, b: map<Node, map<Node, nat>>, column: map<Node, nat>, host: Node)
      requires column.Keys <= ids.Keys && host in ids
      requires forall v, w :: v in ids && w in ids && ids[v] == ids[w] ==> v == w
      requires Overwritten(b0, b, map[ids[host] := ById(column)])
      ensures OverwrittenById(b0, b, map[host := column])
    {
      forall v, k | v in ids && k in ids
        ensures Entry(b, ids[v], ids[k], 0) ==
                if k == host && v in column then column[v] else Entry(b0, ids[v], ids[k], 0)
      {
        assert ids[v] in ById(column) <==> v in column;
      }
    }

    /** One breadth-first search. Appends to `nextHop[..][host]` and overwrites the measures of the nodes it reaches;
        the measures of nodes it does not reach stay as they were. */
    method CalculateRoute(host: Node) returns (ghost s: Search)
      requires Wired() && host in ids
      modifies this`nextHop, this`pairDelay, this`pairTxDelay, this`pairBw
      ensures IsSearch(G(), PacketBits(payload), host, s)
      ensures Grown(old(nextHop), nextHop, host, s.hops)
      ensures Overwritten(old(pairDelay), pairDelay, map[host := s.m.delay])
      ensures Overwritten(old(pairTxDelay), pairTxDelay, map[host := s.m.txDelay])
      ensures OverwrittenById(old(pairBw), pairBw, map[host := s.m.bw])
    {
      hide Progress, IsSearch, Grown, Entry, PacketBits, Wired, Rated, Symmetric, Overwritten, OverwrittenById;
      ghost var g, tx, before := G(), PacketBits(payload), nextHop;
      var q := [host];
      var dis: map<Node, nat> := map[host := 0];
      var m := Measures(map[host := 0], map[host := 0], map[host := NO_BW]);
      s := Start(host);
      StartProgress(g, tx, host);
      GrownStart(nextHop, host);
      var i := 0;
      while i < |q|
        invariant g == G() && i <= |q| && Progress(g, tx, host, s, i, {}) && Holds(s, q, dis, m)
        invariant Grown(before, nextHop, host, s.hops) && dis.Keys <= ids.Keys
        modifies this`nextHop
        decreases |ids| - i
      {
        QueueFits(g, tx, host, s, i);
        q, dis, m, s := ScanNode(host, i, q, dis, m, s, before);
        i := i + 1;
      }
      FinishSearch(g, tx, host, s);
      MeasureKeys(g, tx, host, s);
      StoreMeasures(host, m);
    }

    /** As Overwritten, for a map keyed by node ids. */
    ghost predicate OverwrittenById(m0: map<Node, map<Node, nat>>, m: map<Node, map<Node, nat>>,
                                    cols: map<Node, map<Node, nat>>) {
      forall v, k :: v in ids && k in ids ==>
        Entry(m, ids[v], ids[k], 0) == if k in cols && v in cols[k] then cols[k][v] else Entry(m0, ids[v], ids[k], 0)
    }

    lemma OverwrittenByIdMore(m0: map<Node, map<Node, nat>>, m1: map<Node, map<Node, nat>>,
                              m2: map<Node, map<Node, nat>>, cols: map<Node, map<Node, nat>>,
                              k: Node, col: map<Node, nat>)
      requires OverwrittenById(m0, m1, cols) && OverwrittenById(m1, m2, map[k := col]) && k !in cols
      ensures OverwrittenById(m0, m2, cols[k := col])
    {
    }

    /** What is stored for a pair after a computation over the old values `d0, t0, b0`: the delay, transmit time and
        rate of one and the same shortest path, the one that takes the first next hop everywhere. The values of a pair
        that cannot be reached are left over from before. */
    lemma PairMeasures(d0: map<Node, map<Node, nat>>, t0: map<Node, map<Node, nat>>, b0: map<Node, map<Node, nat>>,
                       v: Node, h: Node)
      requires Routed() && h in Servers() && h in ids && v in ids
      requires Overwritten(d0, pairDelay, Delays(searches)) && Overwritten(t0, pairTxDelay, TxDelays(searches))
      requires OverwrittenById(b0, pairBw, Rates(searches))
      ensures h in searches && IsSearch(G(), PacketBits(payload), h, searches[h])
      ensures v in searches[h].dis ==>
                var p := FirstPath(G(), PacketBits(payload), h, searches[h], v);
                && IsShortest(G(), h, p) && p[0] == v
                && (exists delays :: LinkDelays(links, p, delays) &&
                      Entry(pairDelay, v, h, 0) == Sum(delays) % 0x1_0000_0000_0000_0000)
                && (exists times :: PacketTimes(links, payload, p, times) &&
                      Entry(pairTxDelay, v, h, 0) == Sum(times) % 0x1_0000_0000_0000_0000)
                && LeastRate(links, p, Entry(pairBw, ids[v], ids[h], 0))
      ensures v !in searches[h].dis ==>
                && Entry(pairDelay, v, h, 0) == Entry(d0, v, h, 0) && Entry(pairTxDelay, v, h, 0) == Entry(t0, v, h, 0)
                && Entry(pairBw, ids[v], ids[h], 0) == Entry(b0, ids[v], ids[h], 0)
    {
      hide IsSearch, TablesOk, Known, Entry, SumDelay, SumTransmit, Narrowest, IsShortest, IsPath, TakesFirst,
        PacketBits, LinkDelays, PacketTimes, LeastRate, Sum;
      MeasureKeys(G(), PacketBits(payload), h, searches[h]);
      assert Delays(searches)[h] == searches[h].m.delay && TxDelays(searches)[h] == searches[h].m.txDelay &&
             Rates(searches)[h] == searches[h].m.bw;
      if v in searches[h].dis {
        MeasuresOfFirstPath(G(), PacketBits(payload), h, searches[h], v);
        var p := FirstPath(G(), PacketBits(payload), h, searches[h], v);
        var delays := DelayParts(G(), h, p);
        var times := TransmitParts(G(), payload, h, p);
        NarrowestIsLeast(G(), h, p);
      }
    }

    static lemma MeasureKeys(g: Fabric, tx: nat, host: Node, s: Search)
      requires IsSearch(g, tx, host, s)
      ensures s.m.delay.Keys == s.dis.Keys && s.m.txDelay.Keys == s.dis.Keys && s.m.bw.Keys == s.dis.Keys
    {
    }

    lemma KnownNeighbour(a: Node, b: Node)
      requires Wired() && b in Neighbours(links, a)
      ensures b in ids
      ensures Get(links, a, b).up ==> Get(links, a, b).bw > 0
    {
      assert Adjacent(links, a, b);
      assert Get(links, a, b).up ==> Up(links, a, b);
    }

    lemma QueueFits(g: Fabric, tx: nat, host: Node, s: Search, i: nat)
      requires Progress(g, tx, host, s, i, {}) && host in ids && s.dis.Keys <= ids.Keys && i < |s.q|
      ensures i < |ids|
    {
      DistinctFits(s.q, ids.Keys);
    }

    /** What all searches so far have appended to and stored over the state `n0, d0, t0, b0`. */
    ghost predicate Accumulated(n0: HopTable, d0: map<Node, map<Node, nat>>, t0: map<Node, map<Node, nat>>,
                                b0: map<Node, map<Node, nat>>)
      requires Rated(links)
      reads this
    {
      && (forall h :: h in searches ==> IsSearch(G(), PacketBits(payload), h, searches[h]))
      && GrownAll(n0, nextHop, searches)
      && Overwritten(d0, pairDelay, Delays(searches))
      && Overwritten(t0, pairTxDelay, TxDelays(searches))
      && OverwrittenById(b0, pairBw, Rates(searches))
    }

    lemma NoneAccumulated()
      requires Rated(links) && searches == map[]
      ensures Accumulated(nextHop, pairDelay, pairTxDelay, pairBw)
    {
    }

    lemma WiredIsRated()
      requires Wired()
      ensures Rated(links) && Symmetric(links)
    {
    }

    method AddSearch(h: Node, ghost n0: HopTable, ghost d0: map<Node, map<Node, nat>>,
                     ghost t0: map<Node, map<Node, nat>>, ghost b0: map<Node, map<Node, nat>>)
      requires Wired() && h in ids && h !in searches && Accumulated(n0, d0, t0, b0)
      modifies this`nextHop, this`pairDelay, this`pairTxDelay, this`pairBw, this`searches
      ensures Accumulated(n0, d0, t0, b0) && searches.Keys == old(searches).Keys + {h}
    {
      hide IsSearch, GrownAll, Overwritten, OverwrittenById, Grown, Wired, RoutesOk, Delays, TxDelays, Rates;
      ghost var before, n1, d1, t1, b1 := searches, nextHop, pairDelay, pairTxDelay, pairBw;
      ghost var s := CalculateRoute(h);
      searches := searches[h := s];
      ColumnsMore(before, h, s);
      GrownAllMore(n0, n1, nextHop, before, h, s);
      OverwrittenMore(d0, d1, pairDelay, Delays(before), h, s.m.delay);
      OverwrittenMore(t0, t1, pairTxDelay, TxDelays(before), h, s.m.txDelay);
      OverwrittenByIdMore(b0, b1, pairBw, Rates(before), h, s.m.bw);
    }

    lemma NextIsNew(i: nat)
      requires Wired() && i < |nodes|
      ensures nodes[i] in ids && nodes[i] !in nodes[..i]
    {
    }

    /** Searches from every server, in container order. Needs no lists to be empty: it appends to what is there. */
    method CalculateRoutes()
      requires Wired()
      modifies this`nextHop, this`pairDelay, this`pairTxDelay, this`pairBw, this`searches
      ensures searches.Keys == Servers() && Accumulated(old(nextHop), old(pairDelay), old(pairTxDelay), old(pairBw))
    {
      hide Accumulated, Wired, Rated, Symmetric, IsSearch, GrownAll, Overwritten, OverwrittenById;
      WiredIsRated();
      searches := map[];
      NoneAccumulated();
      for i := 0 to |nodes|
        invariant Wired() && searches.Keys == set v | v in nodes[..i] && v !in switches
        invariant Accumulated(old(nextHop), old(pairDelay), old(pairTxDelay), old(pairBw))
      {
        NextIsNew(i);
        assert nodes[..i + 1] == nodes[..i] + [nodes[i]];
        if nodes[i] !in switches {
          AddSearch(nodes[i], old(nextHop), old(pairDelay), old(pairTxDelay), old(pairBw));
        }
      }
    }

    /** Every listed next hop has an interface at the node that lists it, and lists exist only for known
        destinations. */
    ghost predicate Linked()
      reads this`links, this`nextHop
    {
      && (forall v, dst, u :: u in Entry(nextHop, v, dst, []) ==> u in Neighbours(links, v))
      && (forall v, dst :: Entry(nextHop, v, dst, []) != [] ==> dst in addr)
    }

    /** The innermost loop: appends the interfaces of one list to one table entry. */
    method AddEntries(node: Node, dst: Node)
      requires Wired() && Linked()
      modifies this`tables
      ensures dst !in addr ==> tables == old(tables)
      ensures dst in addr ==> Appended(old(tables), tables, node, addr[dst],
                                       Indices(links, node, Entry(nextHop, node, dst, [])))
    {
      hide Wired;
      var nexts := Entry(nextHop, node, dst, []);
      for k := 0 to |nexts|
        invariant dst !in addr ==> tables == old(tables)
        invariant dst in addr ==> Appended(old(tables), tables, node, addr[dst], Indices(links, node, nexts[..k]))
      {
        var next := nexts[k];
        assert next in nexts;
        var interface := Get(links, node, next).idx;
        EntryStore(tables, node, addr[dst], Entry(tables, node, addr[dst], []) + [interface], []);
        tables := Store(tables, node, addr[dst], Entry(tables, node, addr[dst], []) + [interface]);
        assert Indices(links, node, nexts[..k + 1]) == Indices(links, node, nexts[..k]) + [interface];
      }
      assert nexts[..|nexts|] == nexts;
    }

    /** The middle loop: all destinations of one node. */
    method FillNode(node: Node, ghost t0: Table, ghost filled: set<Node>)
      requires Wired() && Linked() && node !in filled && Filled(links, addr, nextHop, t0, tables, filled)
      modifies this`tables
      ensures Filled(links, addr, nextHop, t0, tables, filled + {node})
    {
      hide Wired, Linked, Filled, PartFilled, Appended, Entry, Injective;
      AddressesDiffer();
      ghost var t1 := tables;
      var todo := RowKeys(node);
      PartStart(links, addr, nextHop, tables, node, todo);
      while todo != {}
        invariant PartFilled(links, addr, nextHop, t1, tables, node, todo)
        decreases todo
      {
        var dst := Least(todo);
        ghost var t2 := tables;
        AddEntries(node, dst);
        PartStep(links, addr, nextHop, t1, t2, tables, node, todo, dst);
        todo := todo - {dst};
      }
      PartEnd(links, addr, nextHop, t0, t1, tables, node, filled);
    }

    /** The destinations that `nextHop[node]` has entries for. */
    function RowKeys(node: Node): (r: set<Node>)
      reads this`nextHop
      ensures forall dst :: dst !in r ==> Entry(nextHop, node, dst, []) == []
    {
      if node in nextHop then nextHop[node].Keys else {}
    }

    /** Compiles `nextHop` into the tables, appending to what they hold. */
    method SetRoutingEntries()
      requires Wired() && Linked()
      modifies this`tables
      ensures Filled(links, addr, nextHop, old(tables), tables, nextHop.Keys)
    {
      hide Wired, Linked, Filled;
      var todo := nextHop.Keys;
      NothingFilled(links, addr, nextHop, tables);
      assert nextHop.Keys - todo == {};
      while todo != {}
        invariant todo <= nextHop.Keys && Filled(links, addr, nextHop, old(tables), tables, nextHop.Keys - todo)
        decreases todo
      {
        var node := Least(todo);
        FillNode(node, old(tables), nextHop.Keys - todo);
        assert nextHop.Keys - (todo - {node}) == nextHop.Keys - todo + {node};
        todo := todo - {node};
      }
      assert nextHop.Keys - todo == nextHop.Keys;
    }

    lemma PlaceOf(i: nat)
      requires Wired() && i < |nodes|
      ensures forall v :: v in ids && ids[v] == i <==> v == nodes[i]
    {
    }

    lemma IdsInRange()
      requires Wired()
      ensures forall v :: v in ids ==> ids[v] < |nodes|
    {
    }

    /** ClearTable on every node of the container. */
    method ClearTables()
      requires Wired()
      modifies this`tables
      ensures forall v, x :: Entry(tables, v, x, []) == if v in ids then [] else Entry(old(tables), v, x, [])
    {
      hide Wired, Entry;
      IdsInRange();
      for i := 0 to |nodes|
        invariant forall v, x ::
                    Entry(tables, v, x, []) == if v in ids && ids[v] < i then [] else Entry(old(tables), v, x, [])
      {
        EntryClear(tables, nodes[i], []);
        PlaceOf(i);
        tables := Clear(tables, nodes[i]);
      }
    }

    lemma StrangersEmpty(v: Node, x: nat)
      requires Routed() && v !in ids
      ensures Entry(tables, v, x, []) == []
    {
      hide RoutesOk, TablesOk;
      EntriesWorkEverywhere(G(), PacketBits(payload), Servers(), nextHop, searches);
      forall dst
        ensures Entry(nextHop, v, dst, []) == []
      {
        forall u
          ensures !Up(links, v, u)
        {
          assert Up(links, v, u) ==> Adjacent(links, v, u);
        }
        EmptyOrInhabited(Entry(nextHop, v, dst, []));
      }
      NoHopsNoEntries(links, addr, nextHop, tables, v, x);
    }

    lemma WiredAfter(l: LinkMap, a: Node, b: Node)
      requires WiredFor(l) && a in ids && b in ids
      ensures WiredFor(TakeDown(l, a, b)) && WiredFor(Touch(l, a, b))
    {
      hide Known, TakeDown, Touch;
      TakeDownKnows(l, a, b);
      StillKnown(l, TakeDown(l, a, b), a, b);
      StillKnown(l, Touch(l, a, b), a, b);
      StillRated(l, a, b);
    }

    lemma StillKnown(l: LinkMap, l': LinkMap, a: Node, b: Node)
      requires Known(l) && a in ids && b in ids
      requires forall x, y :: Adjacent(l', x, y) ==> Adjacent(l, x, y) || (x == a && y == b) || (x == b && y == a)
      ensures Known(l')
    {
      hide Adjacent;
      forall x, y | Adjacent(l', x, y)
        ensures x in ids && y in ids
      {
        assert Adjacent(l, x, y) ==> x in ids && y in ids;
      }
    }

    static lemma StillRated(l: LinkMap, a: Node, b: Node)
      requires Rated(l) && Symmetric(l)
      ensures Rated(TakeDown(l, a, b)) && Symmetric(TakeDown(l, a, b))
      ensures Rated(Touch(l, a, b)) && Symmetric(Touch(l, a, b))
    {
      TakeDownWorks(l, a, b);
      TouchSame(l, a, b);
      hide TakeDown, Touch, Get;
    }

    lemma LinkedAfter()
      requires Wired() && RoutesOk(G(), PacketBits(payload), Servers(), nextHop, searches)
      ensures Linked()
    {
      forall v, dst
        ensures forall u :: u in Entry(nextHop, v, dst, []) ==> u in Neighbours(links, v)
        ensures Entry(nextHop, v, dst, []) != [] ==> dst in addr
      {
        EntriesWork(G(), PacketBits(payload), Servers(), nextHop, searches, v, dst);
      }
    }

    lemma MeasuresAccumulated(n0: HopTable, d0: map<Node, map<Node, nat>>, t0: map<Node, map<Node, nat>>,
                              b0: map<Node, map<Node, nat>>)
      requires Rated(links) && Accumulated(n0, d0, t0, b0)
      ensures Overwritten(d0, pairDelay, Delays(searches)) && Overwritten(t0, pairTxDelay, TxDelays(searches))
      ensures OverwrittenById(b0, pairBw, Rates(searches))
    {
    }

    lemma RoutesFromScratch(d0: map<Node, map<Node, nat>>, t0: map<Node, map<Node, nat>>, b0: map<Node, map<Node, nat>>)
      requires Wired() && searches.Keys == Servers() && Accumulated(map[], d0, t0, b0)
      ensures RoutesOk(G(), PacketBits(payload), Servers(), nextHop, searches)
    {
      hide IsSearch, Overwritten, OverwrittenById, WiredFor, GrownAll;
      GrownFromNothing(nextHop, searches);
    }

    /** Takes a link down and rebuilds all routes and tables. A report about a link that is not up changes no route. */
    method TakeDownLink(a: Node, b: Node)
      requires Routed() && a in ids && b in ids
      modifies this
      ensures links == TakeDown(old(links), a, b)
      ensures Routed()
      ensures !Up(old(links), a, b) ==> nextHop == old(nextHop) && tables == old(tables)
      ensures !Up(old(links), a, b) ==>
                pairDelay == old(pairDelay) && pairTxDelay == old(pairTxDelay) && pairBw == old(pairBw)
      ensures Up(old(links), a, b) ==>
                && Overwritten(old(pairDelay), pairDelay, Delays(searches))
                && Overwritten(old(pairTxDelay), pairTxDelay, TxDelays(searches))
                && OverwrittenById(old(pairBw), pairBw, Rates(searches))
    {
      hide WiredFor, RoutesOk, TablesOk, Filled, Linked, Accumulated, Entry, Overwritten, OverwrittenById;
      forall v, x | v !in ids
        ensures Entry(tables, v, x, []) == []
      {
        StrangersEmpty(v, x);
      }
      WiredAfter(links, a, b);
      ghost var l0 := links;
      links := Touch(links, a, b);
      if !Get(links, a, b).up {
        TouchSame(l0, a, b);
        RoutesSame(Fabric(l0, switches), G(), PacketBits(payload), Servers(), nextHop, searches);
        TouchKeepsTables(l0, a, b, addr, nextHop, tables);
        return;
      }
      links := Lower(links, a, b);
      links := Lower(links, b, a);
      nextHop := map[];
      ghost var d0, t0, b0 := pairDelay, pairTxDelay, pairBw;
      CalculateRoutes();
      WiredIsRated();
      RoutesFromScratch(d0, t0, b0);
      MeasuresAccumulated(map[], d0, t0, b0);
      LinkedAfter();
      ClearTables();
      ghost var cleared := tables;
      SetRoutingEntries();
      FilledIsTables(links, addr, nextHop, cleared, tables);
    }

    /** Failures one after the other. */
    method TakeDownLinks(events: seq<(Node, Node)>)
      requires Routed() && forall e :: e in events ==> e.0 in ids && e.1 in ids
      modifies this
      ensures Routed() && links == TakeDownAll(old(links), events)
    {
      hide Routed, TakeDown;
      for i := 0 to |events|
        invariant Routed() && links == TakeDownAll(old(links), events[..i])
      {
        assert events[i] in events && events[..i + 1][..i] == events[..i];
        TakeDownLink(events[i].0, events[i].1);
      }
      assert events[..|events|] == events;
    }
  }

  // ----- what the tables of a router do with packets

  lemma RouterIsCompiled(r: Router, dst: Node)
    requires r.Routed() && PortsDistinct(r.links) && dst in r.nodes && dst !in r.switches
    ensures dst in r.addr
    ensures Compiled(r.G(), PacketBits(r.payload), r.Servers(), r.addr, r.nextHop, r.searches, r.tables, dst)
  {
    hide RoutesOk, TablesOk, PortsDistinct, Rated, Symmetric, Router.Known;
    var i :| 0 <= i < |r.nodes| && r.nodes[i] == dst;
    assert dst in r.ids;
  }

  /** At any time, and so after any failures, the complete walks that a router's tables allow are exactly the
      minimum-hop paths over the working links through switches. */
  lemma TablesForwardShortest(r: Router, dst: Node, p: seq<Node>)
    requires r.Routed() && PortsDistinct(r.links) && dst in r.nodes && dst !in r.switches
    ensures dst in r.addr && (IsWalk(r.links, r.tables, r.addr[dst], dst, p) <==> IsShortest(r.G(), dst, p))
  {
    hide Router.Routed, PortsDistinct, IsWalk, IsShortest, Compiled;
    RouterIsCompiled(r, dst);
    WalksAreShortest(r.G(), PacketBits(r.payload), r.Servers(), r.addr, r.nextHop, r.searches, r.tables, dst, p);
  }

  /** A packet that the tables move from a node with a path to its destination is never stuck, never loops, and arrives
      after as many steps as a shortest path has. */
  lemma TablesDeliver(r: Router, dst: Node, p: seq<Node>, shortest: seq<Node>)
    requires r.Routed() && PortsDistinct(r.links) && dst in r.nodes && dst !in r.switches && dst in r.addr
    requires UnderWay(r.links, r.tables, r.addr[dst], p) && IsShortest(r.G(), dst, shortest) && shortest[0] == p[0]
    ensures Distinct(p) && forall k :: 0 < k < |p| && p[k] != dst ==> p[k] in r.switches
    ensures |p| <= |shortest| && (p[|p| - 1] == dst <==> |p| == |shortest|)
    ensures p[|p| - 1] != dst ==> Entry(r.tables, p[|p| - 1], r.addr[dst], []) != []
    ensures EntryWorks(r.links, r.tables, r.addr[dst], p[|p| - 1])
  {
    hide Router.Routed, PortsDistinct, UnderWay, IsPath, Compiled, EntryWorks, Entry;
    RouterIsCompiled(r, dst);
    PacketsArrive(r.G(), PacketBits(r.payload), r.Servers(), r.addr, r.nextHop, r.searches, r.tables, dst, p, shortest);
  }

  // ----- routers against each other

  /** Same nodes, switches and payload size. */
  ghost predicate SameSetting(r1: Router, r2: Router) {
    && r1.nodes == r2.nodes && r1.switches == r2.switches && r1.payload == r2.payload
    && r1.ids == r2.ids && r1.addr == r2.addr
  }

  /** Same next-hop lists and same table entries, order included, everywhere. */
  ghost predicate SameRouting(r1: Router, r2: Router)
    reads r1, r2
  {
    && (forall v, dst :: Entry(r1.nextHop, v, dst, []) == Entry(r2.nextHop, v, dst, []))
    && (forall v, x :: Entry(r1.tables, v, x, []) == Entry(r2.tables, v, x, []))
  }

  /** The next hops, with their order, and the tables are determined by the working links. */
  lemma RoutersAgree(r1: Router, r2: Router)
    requires r1.Routed() && r2.Routed() && SameSetting(r1, r2) && SameWorking(r1.links, r2.links)
    ensures SameRouting(r1, r2) && r1.searches == r2.searches
  {
    hide IsSearch, SameWorking;
    RebuildAgrees(r1.G(), r2.G(), PacketBits(r1.payload), r1.Servers(), r1.addr, r1.nextHop, r2.nextHop,
                  r1.searches, r2.searches, r1.tables, r2.tables);
  }

  /** After any sequence of link failures a router's lists and tables equal those built from scratch from a topology
      without the failed links. */
  lemma RebuildEqualsScratch(r: Router, scratch: Router, rows: seq<LinkRow>, events: seq<(Node, Node)>)
    requires r.Routed() && scratch.Routed() && SameSetting(r, scratch)
    requires forall row :: row in rows ==> row.atA.bw > 0 && row.atB.bw > 0
    requires r.links == TakeDownAll(MapOf(rows), events) && scratch.links == MapOf(Unfailed(rows, events))
    ensures SameRouting(r, scratch)
  {
    hide SameWorking, Router.Routed, SameSetting, SameRouting;
    SurvivingRows(rows, events);
    RoutersAgree(r, scratch);
  }

  /** A whole run: one router reads all rows, computes its routes and then meets the failures; the other reads only the
      rows that name no failed pair and computes its routes once. */
  method RebuildAndScratch(nodes: seq<Node>, switches: set<Node>, payload: nat, rows: seq<LinkRow>,
                           events: seq<(Node, Node)>)
      returns (r: Router, scratch: Router)
    requires Distinct(nodes) && |nodes| <= MAX_NODES
    requires forall row :: row in rows ==> row.a in nodes && row.b in nodes && row.atA.bw > 0 && row.atB.bw > 0
    requires forall e :: e in events ==> e.0 in nodes && e.1 in nodes
    ensures SameSetting(r, scratch) && SameRouting(r, scratch)
    ensures r.links == TakeDownAll(MapOf(rows), events) && scratch.links == MapOf(Unfailed(rows, events))
  {
    hide Router.Routed, Router.Wired, SameRouting;
    r := new Router(nodes, switches, payload);
    r.ReadTopology(rows);
    r.SetUpRoutes();
    r.TakeDownLinks(events);
    UnfailedRows(rows, events);
    scratch := new Router(nodes, switches, payload);
    scratch.ReadTopology(Unfailed(rows, events));
    scratch.SetUpRoutes();
    RebuildEqualsScratch(r, scratch, rows, events);
  }

  /** The order in which the same links fail, and the end from which each failure is reported, make no difference. */
  lemma RebuildIgnoresOrder(r1: Router, r2: Router, start: LinkMap, e1: seq<(Node, Node)>, e2: seq<(Node, Node)>)
    requires r1.Routed() && r2.Routed() && SameSetting(r1, r2) && Symmetric(start)
    requires forall x, y :: Failed(e1, x, y) <==> Failed(e2, x, y)
    requires r1.links == TakeDownAll(start, e1) && r2.links == TakeDownAll(start, e2)
    ensures SameRouting(r1, r2)
  {
    hide SameWorking, Router.Routed, SameSetting, SameRouting;
    FailuresCommute(start, e1, e2);
    RoutersAgree(r1, r2);
  }
}
