/** What CalculateRoute computes from one host, and why its loop computes it. */
module Search {
  import opened Collections
  import opened Links
  import opened Words

  /** The links, and which nodes are switches; every other node is a server. */
  datatype Fabric = Fabric(links: LinkMap, switches: set<Node>)

  const NO_BW: nat := 0xffff_ffff_ffff_ffff

  /** Nanoseconds times bits of one packet, in 64-bit arithmetic. */
  function PacketBits(payload: nat): nat {
    payload * 1000000000 * 8 % WORD64
  }

  /** The sums and minima that CalculateRoute carries along with the distances. */
  datatype Measures = Measures(delay: map<Node, nat>, txDelay: map<Node, nat>, bw: map<Node, nat>)

  /** The local variables of CalculateRoute, and in `hops` what it appends to `nextHop[v][host]`.
      `par[v]` is the queue place of the node whose scan discovered `v`. */
  datatype Search = Search(
    q: seq<Node>, dis: map<Node, nat>, par: map<Node, nat>, m: Measures, hops: map<Node, seq<Node>>)

  /** Only the host and switches are expanded: a server is never passed through. */
  predicate Expands(g: Fabric, host: Node, v: Node) {
    v == host || v in g.switches
  }

  /** `u` is one hop nearer to the host than `v`, over a working link. */
  predicate Nearer(g: Fabric, dis: map<Node, nat>, u: Node, v: Node) {
    Up(g.links, u, v) && u in dis && v in dis && dis[u] + 1 == dis[v]
  }

  /** The nodes of `p`, in order, that are one hop nearer than `v`. */
  function Closer(g: Fabric, dis: map<Node, nat>, p: seq<Node>, v: Node): seq<Node> {
    if p == [] then []
    else
      var last := p[|p| - 1];
      Closer(g, dis, p[..|p| - 1], v) + if Nearer(g, dis, last, v) then [last] else []
  }

  lemma {:induction false} CloserMember(g: Fabric, dis: map<Node, nat>, p: seq<Node>, v: Node)
    ensures forall u :: u in Closer(g, dis, p, v) <==> u in p && Nearer(g, dis, u, v)
  {
    if p != [] {
      CloserMember(g, dis, p[..|p| - 1], v);
      assert p == p[..|p| - 1] + [p[|p| - 1]];
    }
  }

  lemma {:induction false} CloserNone(g: Fabric, dis: map<Node, nat>, p: seq<Node>, v: Node)
    requires forall u :: u in p ==> !Nearer(g, dis, u, v)
    ensures Closer(g, dis, p, v) == []
  {
    if p != [] {
      CloserNone(g, dis, p[..|p| - 1], v);
    }
  }

  /** The list depends only on the distances of `v` and of the listed nodes, and on the working links. */
  lemma {:induction false} CloserSame(g1: Fabric, g2: Fabric, d1: map<Node, nat>, d2: map<Node, nat>, p: seq<Node>,
                                      v: Node)
    requires forall u :: u in p ==> (Nearer(g1, d1, u, v) <==> Nearer(g2, d2, u, v))
    ensures Closer(g1, d1, p, v) == Closer(g2, d2, p, v)
  {
    if p != [] {
      CloserSame(g1, g2, d1, d2, p[..|p| - 1], v);
    }
  }

  /** No next hop is listed twice. */
  lemma {:induction false} CloserDistinct(g: Fabric, dis: map<Node, nat>, p: seq<Node>, v: Node)
    requires Distinct(p)
    ensures Distinct(Closer(g, dis, p, v))
  {
    if p != [] {
      CloserDistinct(g, dis, p[..|p| - 1], v);
      CloserMember(g, dis, p[..|p| - 1], v);
    }
  }

  // ----- the result of one search

  /** The queue holds each expandable reached node once, starting with the host, nearest first. */
  ghost predicate QueueOk(g: Fabric, host: Node, q: seq<Node>, dis: map<Node, nat>) {
    && |q| > 0 && q[0] == host && Distinct(q)
    && (forall v :: v in q <==> v in dis && Expands(g, host, v))
    && (forall a :: 0 <= a < |q| ==> q[a] in dis)
    && (forall a, b :: 0 <= a < b < |q| ==> dis[q[a]] <= dis[q[b]])
  }

  /** Every reached node other than the host was discovered over a working link, one hop further out. */
  ghost predicate ParentOk(g: Fabric, host: Node, q: seq<Node>, dis: map<Node, nat>, par: map<Node, nat>) {
    && host in dis && dis[host] == 0 && par.Keys == dis.Keys - {host}
    && forall v :: v in par ==> par[v] < |q| && Nearer(g, dis, q[par[v]], v)
  }

  /** Nodes are queued by the place of their discoverer, and in address order among its discoveries. */
  ghost predicate OrderOk(q: seq<Node>, par: map<Node, nat>) {
    && (forall a :: 0 < a < |q| ==> q[a] in par)
    && (forall a, b :: 0 < a < b < |q| ==> Before(par, q[a], q[b]))
  }

  ghost predicate Before(par: map<Node, nat>, x: Node, y: Node)
    requires x in par && y in par
  {
    par[x] < par[y] || (par[x] == par[y] && x < y)
  }

  /** A working link out of a reached node leads to a node at most one hop further. */
  ghost predicate EdgeOk(g: Fabric, dis: map<Node, nat>, u: Node, w: Node) {
    Up(g.links, u, w) && u in dis ==> w in dis && dis[w] <= dis[u] + 1
  }

  /** Whole nanoseconds to send one packet at `bw` bits per second. */
  function TransmitTime(tx: nat, bw: nat): nat
    requires bw > 0
  {
    tx / bw
  }

  /** The three measures of `v` extend those of `u` by the link from `u` to `v`. */
  ghost predicate MeasuredFrom(g: Fabric, tx: nat, m: Measures, u: Node, v: Node) {
    && Up(g.links, u, v) && Get(g.links, u, v).bw > 0
    && v in m.delay && v in m.txDelay && v in m.bw && u in m.delay && u in m.txDelay && u in m.bw
    && m.delay[v] == Add64(m.delay[u], Get(g.links, u, v).delay)
    && m.txDelay[v] == Add64(m.txDelay[u], TransmitTime(tx, Get(g.links, u, v).bw))
    && m.bw[v] == Min(m.bw[u], Get(g.links, u, v).bw)
  }

  ghost predicate MeasuresOk(g: Fabric, tx: nat, host: Node, q: seq<Node>, par: map<Node, nat>, m: Measures) {
    && m.delay.Keys == m.txDelay.Keys == m.bw.Keys == par.Keys + {host}
    && m.delay[host] == 0 && m.txDelay[host] == 0 && m.bw[host] == NO_BW
    && forall v :: v in par ==> par[v] < |q| && MeasuredFrom(g, tx, m, q[par[v]], v)
  }

  /** The next hops of `v` found from the queue places in `p`, the first of them its discoverer. */
  ghost predicate HopsAre(g: Fabric, q: seq<Node>, dis: map<Node, nat>, par: map<Node, nat>, v: Node, hops: seq<Node>,
                          found: seq<Node>) {
    hops == found && |hops| > 0 && v in par && par[v] < |q| && hops[0] == q[par[v]]
  }

  /** `s` is what a search from `host` ends with. Lemma SearchUnique shows that there is only one such `s`. */
  ghost predicate IsSearch(g: Fabric, tx: nat, host: Node, s: Search) {
    && QueueOk(g, host, s.q, s.dis)
    && ParentOk(g, host, s.q, s.dis, s.par)
    && OrderOk(s.q, s.par)
    && (forall u, w :: u in s.q ==> EdgeOk(g, s.dis, u, w))
    && s.hops.Keys == s.par.Keys
    && (forall v :: v in s.hops ==> HopsAre(g, s.q, s.dis, s.par, v, s.hops[v], Closer(g, s.dis, s.q, v)))
    && MeasuresOk(g, tx, host, s.q, s.par, s.m)
  }

  // ----- the loop: places below `i` are fully scanned, and of place `i` the neighbours in `done`

  function Current(g: Fabric, q: seq<Node>, dis: map<Node, nat>, i: nat, done: set<Node>, v: Node): seq<Node> {
    if i < |q| && v in done && Nearer(g, dis, q[i], v) then [q[i]] else []
  }

  ghost predicate HopsOk(g: Fabric, q: seq<Node>, dis: map<Node, nat>, par: map<Node, nat>, hops: map<Node, seq<Node>>,
                         i: nat, done: set<Node>) {
    && i <= |q| && hops.Keys == par.Keys
    && forall v :: v in hops ==>
         HopsAre(g, q, dis, par, v, hops[v], Closer(g, dis, q[..i], v) + Current(g, q, dis, i, done, v))
  }

  /** Nothing lies beyond one hop past the node being scanned, and what it discovered is in `done`. */
  ghost predicate FrontOk(q: seq<Node>, dis: map<Node, nat>, par: map<Node, nat>, i: nat, done: set<Node>) {
    && (i < |q| ==> q[i] in dis && forall v :: v in dis ==> dis[v] <= dis[q[i]] + 1)
    && (forall v :: v in par ==> par[v] < i || (par[v] == i && v in done))
  }

  ghost predicate ScannedOk(g: Fabric, q: seq<Node>, dis: map<Node, nat>, i: nat, done: set<Node>) {
    && (forall a, w :: 0 <= a < i && a < |q| ==> EdgeOk(g, dis, q[a], w))
    && (i < |q| ==> forall w :: w in done ==> EdgeOk(g, dis, q[i], w))
  }

  ghost predicate Progress(g: Fabric, tx: nat, host: Node, s: Search, i: nat, done: set<Node>) {
    && QueueOk(g, host, s.q, s.dis) && ParentOk(g, host, s.q, s.dis, s.par) && OrderOk(s.q, s.par)
    && FrontOk(s.q, s.dis, s.par, i, done) && ScannedOk(g, s.q, s.dis, i, done)
    && HopsOk(g, s.q, s.dis, s.par, s.hops, i, done) && MeasuresOk(g, tx, host, s.q, s.par, s.m)
  }

  function Start(host: Node): Search {
    Search([host], map[host := 0], map[], Measures(map[host := 0], map[host := 0], map[host := NO_BW]), map[])
  }

  lemma StartProgress(g: Fabric, tx: nat, host: Node)
    ensures Progress(g, tx, host, Start(host), 0, {})
  {
  }

  /** A neighbour behind a link that is down, or no further out than `now`, changes nothing. */
  lemma SkipKeeps(g: Fabric, tx: nat, host: Node, s: Search, i: nat, done: set<Node>, next: Node)
    requires Progress(g, tx, host, s, i, done) && i < |s.q|
    requires !Up(g.links, s.q[i], next) || (next in s.dis && s.dis[s.q[i]] + 1 != s.dis[next])
    ensures Progress(g, tx, host, s, i, done + {next})
  {
    ScanOne(g, s.q, s.dis, i, done, next);
    forall v | v in s.hops
      ensures Current(g, s.q, s.dis, i, done + {next}, v) == Current(g, s.q, s.dis, i, done, v)
    {
    }
  }

  lemma ScanOne(g: Fabric, q: seq<Node>, dis: map<Node, nat>, i: nat, done: set<Node>, next: Node)
    requires ScannedOk(g, q, dis, i, done) && i < |q| && q[i] in dis
    requires forall v :: v in dis ==> dis[v] <= dis[q[i]] + 1
    requires !Up(g.links, q[i], next) || next in dis
    ensures ScannedOk(g, q, dis, i, done + {next})
  {
  }

  /** A neighbour already reached at the next distance gains `now` as a further next hop. */
  lemma PushKeeps(g: Fabric, tx: nat, host: Node, s: Search, i: nat, done: set<Node>, next: Node)
    requires Progress(g, tx, host, s, i, done) && i < |s.q| && next !in done
    requires Up(g.links, s.q[i], next) && next in s.dis && s.dis[s.q[i]] + 1 == s.dis[next]
    ensures next in s.hops
    ensures Progress(g, tx, host, s.(hops := s.hops[next := s.hops[next] + [s.q[i]]]), i, done + {next})
  {
    ScanOne(g, s.q, s.dis, i, done, next);
    PushHops(g, s.q, s.dis, s.par, s.hops, i, done, next);
  }

  lemma PushHops(g: Fabric, q: seq<Node>, dis: map<Node, nat>, par: map<Node, nat>, hops: map<Node, seq<Node>>, i: nat,
                 done: set<Node>, next: Node)
    requires HopsOk(g, q, dis, par, hops, i, done) && i < |q| && next in hops && next !in done &&
             Nearer(g, dis, q[i], next)
    ensures HopsOk(g, q, dis, par, hops[next := hops[next] + [q[i]]], i, done + {next})
  {
    forall v | v in hops
      ensures Current(g, q, dis, i, done + {next}, v) == if v == next then [q[i]] else Current(g, q, dis, i, done, v)
    {
    }
  }

  /** The queue after `next` is discovered: only a switch joins it. */
  function Enqueue(g: Fabric, q: seq<Node>, next: Node): seq<Node> {
    if next in g.switches then q + [next] else q
  }

  function Measure(g: Fabric, tx: nat, m: Measures, now: Node, next: Node): Measures
    requires now in m.delay && now in m.txDelay && now in m.bw
    requires Up(g.links, now, next) && Get(g.links, now, next).bw > 0
  {
    var link := Get(g.links, now, next);
    Measures(
      m.delay[next := Add64(m.delay[now], link.delay)],
      m.txDelay[next := Add64(m.txDelay[now], TransmitTime(tx, link.bw))],
      m.bw[next := Min(m.bw[now], link.bw)])
  }

  /** What discovering `next` from place `i` makes of the variables. */
  function Discover(g: Fabric, tx: nat, s: Search, i: nat, next: Node): Search
    requires i < |s.q| && s.q[i] in s.dis && s.q[i] in s.m.delay && s.q[i] in s.m.txDelay && s.q[i] in s.m.bw
    requires Up(g.links, s.q[i], next) && Get(g.links, s.q[i], next).bw > 0
  {
    Search(
      Enqueue(g, s.q, next), s.dis[next := s.dis[s.q[i]] + 1], s.par[next := i],
      Measure(g, tx, s.m, s.q[i], next), s.hops[next := [s.q[i]]])
  }

  lemma QueuedMeasured(g: Fabric, tx: nat, host: Node, s: Search, i: nat, done: set<Node>)
    requires Progress(g, tx, host, s, i, done) && i < |s.q|
    ensures forall v :: Up(g.links, s.q[i], v) && v in done ==> v in s.dis
    ensures s.q[i] in s.dis && s.q[i] in s.m.delay && s.q[i] in s.m.txDelay && s.q[i] in s.m.bw
  {
  }

  lemma UnreachedIsNew(g: Fabric, tx: nat, host: Node, s: Search, i: nat, done: set<Node>, next: Node)
    requires Progress(g, tx, host, s, i, done) && i < |s.q| && s.q[i] in s.dis
    requires Up(g.links, s.q[i], next) && next !in s.dis
    ensures next !in done && next !in s.par && next !in s.hops && next != host
    ensures forall v :: v in s.dis ==> s.dis[v] <= s.dis[s.q[i]] + 1
  {
  }

  lemma DiscoverKeeps(g: Fabric, tx: nat, host: Node, s: Search, i: nat, done: set<Node>, next: Node)
    requires Progress(g, tx, host, s, i, done) && i < |s.q|
    requires Up(g.links, s.q[i], next) && Get(g.links, s.q[i], next).bw > 0 && next !in s.dis
    requires forall w :: w in done ==> w < next
    requires s.q[i] in s.dis && s.q[i] in s.m.delay && s.q[i] in s.m.txDelay && s.q[i] in s.m.bw
    ensures next !in s.hops
    ensures Progress(g, tx, host, Discover(g, tx, s, i, next), i, done + {next})
  {
    hide QueueOk, ParentOk, OrderOk, FrontOk, ScannedOk, HopsOk, MeasuresOk;
    UnreachedIsNew(g, tx, host, s, i, done, next);
    DiscoverQueue(g, host, s.q, s.dis, i, next);
    DiscoverParent(g, host, s.q, s.dis, s.par, i, next);
    DiscoverOrder(g, host, s.q, s.dis, s.par, i, done, next);
    DiscoverScanned(g, host, s.q, s.dis, s.par, i, done, next);
    DiscoverMeasures(g, tx, host, s.q, s.par, s.m, i, next);
    DiscoverHops(g, host, s.q, s.dis, s.par, s.hops, i, done, next);
  }

  function HopsFrom(hops: map<Node, seq<Node>>, v: Node): seq<Node> {
    if v in hops then hops[v] else []
  }

  /** Scanning neighbour `next`: what each case makes of the variables, and that the invariant survives all of them. */
  lemma Visit(g: Fabric, tx: nat, host: Node, s: Search, i: nat, done: set<Node>, next: Node) returns (s': Search)
    requires Rated(g.links) && Progress(g, tx, host, s, i, done) && i < |s.q|
    requires next !in done && forall w :: w in done ==> w < next
    ensures Progress(g, tx, host, s', i, done + {next})
    ensures s.q[i] in s.dis && s.q[i] in s.m.delay && s.q[i] in s.m.txDelay && s.q[i] in s.m.bw
    ensures
      var now, found := s.q[i], Up(g.links, s.q[i], next) && next !in s.dis;
      && s'.q == (if found then Enqueue(g, s.q, next) else s.q)
      && s'.dis == (if found then s.dis[next := s.dis[now] + 1] else s.dis)
      && s'.m == (if found then Measure(g, tx, s.m, now, next) else s.m)
      && s'.hops == if Up(g.links, now, next) && s'.dis[next] == s.dis[now] + 1
                    then s.hops[next := HopsFrom(s.hops, next) + [now]] else s.hops
  {
    hide Progress, Rated, Enqueue, Measure, Up;
    QueuedMeasured(g, tx, host, s, i, done);
    RatedLink(g.links, s.q[i], next);
    if !Up(g.links, s.q[i], next) || (next in s.dis && s.dis[s.q[i]] + 1 != s.dis[next]) {
      SkipKeeps(g, tx, host, s, i, done, next);
      s' := s;
    } else if next in s.dis {
      PushKeeps(g, tx, host, s, i, done, next);
      s' := s.(hops := s.hops[next := s.hops[next] + [s.q[i]]]);
    } else {
      s' := VisitNew(g, tx, host, s, i, done, next);
    }
  }

  lemma RatedLink(links: LinkMap, a: Node, b: Node)
    requires Rated(links)
    ensures Up(links, a, b) ==> Get(links, a, b).bw > 0
  {
  }

  lemma VisitNew(g: Fabric, tx: nat, host: Node, s: Search, i: nat, done: set<Node>, next: Node) returns (s': Search)
    requires Progress(g, tx, host, s, i, done) && i < |s.q|
    requires Up(g.links, s.q[i], next) && Get(g.links, s.q[i], next).bw > 0 && next !in s.dis
    requires forall w :: w in done ==> w < next
    requires s.q[i] in s.dis && s.q[i] in s.m.delay && s.q[i] in s.m.txDelay && s.q[i] in s.m.bw
    ensures Progress(g, tx, host, s', i, done + {next})
    ensures s'.q == Enqueue(g, s.q, next) && s'.dis == s.dis[next := s.dis[s.q[i]] + 1]
    ensures s'.m == Measure(g, tx, s.m, s.q[i], next) && s'.hops == s.hops[next := HopsFrom(s.hops, next) + [s.q[i]]]
  {
    hide Progress, Enqueue, Measure;
    DiscoverKeeps(g, tx, host, s, i, done, next);
    s' := Discover(g, tx, s, i, next);
    assert [] + [s.q[i]] == [s.q[i]];
  }

  lemma DiscoverQueue(g: Fabric, host: Node, q: seq<Node>, dis: map<Node, nat>, i: nat, next: Node)
    requires QueueOk(g, host, q, dis) && i < |q| && next !in dis
    requires forall v :: v in dis ==> dis[v] <= dis[q[i]] + 1
    ensures QueueOk(g, host, Enqueue(g, q, next), dis[next := dis[q[i]] + 1])
  {
    var q', dis' := Enqueue(g, q, next), dis[next := dis[q[i]] + 1];
    assert next !in q;
    assert forall a :: 0 <= a < |q| ==> q'[a] == q[a] && q[a] != next;
    assert forall v :: v in q' <==> v in q || (v == next && next in g.switches);
  }

  lemma DiscoverParent(g: Fabric, host: Node, q: seq<Node>, dis: map<Node, nat>, par: map<Node, nat>, i: nat,
                       next: Node)
    requires ParentOk(g, host, q, dis, par) && i < |q| && q[i] in dis
    requires Up(g.links, q[i], next) && next !in dis
    ensures ParentOk(g, host, Enqueue(g, q, next), dis[next := dis[q[i]] + 1], par[next := i])
  {
    var q', dis', par' := Enqueue(g, q, next), dis[next := dis[q[i]] + 1], par[next := i];
    forall v | v in par'
      ensures par'[v] < |q'| && Nearer(g, dis', q'[par'[v]], v)
    {
      if v != next {
        assert Nearer(g, dis, q[par[v]], v);
      }
    }
  }

  lemma DiscoverOrder(g: Fabric, host: Node, q: seq<Node>, dis: map<Node, nat>, par: map<Node, nat>, i: nat,
                      done: set<Node>, next: Node)
    requires ParentOk(g, host, q, dis, par) && OrderOk(q, par) && FrontOk(q, dis, par, i, done)
    requires i < |q| && next !in dis && next !in done
    requires forall w :: w in done ==> w < next
    ensures OrderOk(Enqueue(g, q, next), par[next := i])
    ensures FrontOk(Enqueue(g, q, next), dis[next := dis[q[i]] + 1], par[next := i], i, done + {next})
  {
    var q', par' := Enqueue(g, q, next), par[next := i];
    forall a, b | 0 < a < b < |q'|
      ensures q'[a] in par' && q'[b] in par' && Before(par', q'[a], q'[b])
    {
      assert q[a] in par && q'[a] == q[a] && q'[a] != next;
      if b < |q| {
        assert Before(par, q[a], q[b]) && q[b] != next;
      }
    }
  }

  lemma DiscoverScanned(g: Fabric, host: Node, q: seq<Node>, dis: map<Node, nat>, par: map<Node, nat>, i: nat,
                        done: set<Node>, next: Node)
    requires QueueOk(g, host, q, dis) && ScannedOk(g, q, dis, i, done) && i < |q| && next !in dis
    ensures ScannedOk(g, Enqueue(g, q, next), dis[next := dis[q[i]] + 1], i, done + {next})
  {
    var q', dis' := Enqueue(g, q, next), dis[next := dis[q[i]] + 1];
    forall a, w | 0 <= a < i
      ensures EdgeOk(g, dis', q'[a], w)
    {
      assert q[a] in q && EdgeOk(g, dis, q[a], w);
    }
    forall w | w in done
      ensures EdgeOk(g, dis', q'[i], w)
    {
      assert q[i] in q && EdgeOk(g, dis, q[i], w);
    }
  }

  lemma DiscoverMeasures(g: Fabric, tx: nat, host: Node, q: seq<Node>, par: map<Node, nat>, m: Measures, i: nat,
                         next: Node)
    requires MeasuresOk(g, tx, host, q, par, m) && i < |q| && next !in par && next != host
    requires Up(g.links, q[i], next) && Get(g.links, q[i], next).bw > 0
    requires q[i] in m.delay && q[i] in m.txDelay && q[i] in m.bw
    ensures MeasuresOk(g, tx, host, Enqueue(g, q, next), par[next := i], Measure(g, tx, m, q[i], next))
  {
    hide MeasuredFrom, Measure, Up, Get;
    var q', par', m' := Enqueue(g, q, next), par[next := i], Measure(g, tx, m, q[i], next);
    assert next !in m.delay && forall a :: 0 <= a < |q| ==> q'[a] == q[a];
    MeasureAdds(g, tx, m, q[i], next);
    forall v | v in par'
      ensures par'[v] < |q'| && MeasuredFrom(g, tx, m', q'[par'[v]], v)
    {
      if v != next {
        MeasureKeeps(g, tx, m, q[i], next, q[par[v]], v);
      }
    }
  }

  lemma MeasureAdds(g: Fabric, tx: nat, m: Measures, now: Node, next: Node)
    requires Up(g.links, now, next) && Get(g.links, now, next).bw > 0 && next !in m.delay
    requires now in m.delay && now in m.txDelay && now in m.bw
    ensures MeasuredFrom(g, tx, Measure(g, tx, m, now, next), now, next)
    ensures
      var m' := Measure(g, tx, m, now, next);
      && m'.delay.Keys == m.delay.Keys + {next} && m'.txDelay.Keys == m.txDelay.Keys + {next} &&
        m'.bw.Keys == m.bw.Keys + {next}
      && forall v :: v in m.delay && v in m.txDelay && v in m.bw ==>
           m'.delay[v] == m.delay[v] && (v != next ==> m'.txDelay[v] == m.txDelay[v] && m'.bw[v] == m.bw[v])
  {
    hide Add64, TransmitTime, Min;
  }

  lemma MeasureKeeps(g: Fabric, tx: nat, m: Measures, now: Node, next: Node, u: Node, v: Node)
    requires Up(g.links, now, next) && Get(g.links, now, next).bw > 0 && next !in m.delay
    requires now in m.delay && now in m.txDelay && now in m.bw && MeasuredFrom(g, tx, m, u, v)
    ensures MeasuredFrom(g, tx, Measure(g, tx, m, now, next), u, v)
  {
    hide Add64, TransmitTime, Min;
  }

  lemma DiscoverHops(g: Fabric, host: Node, q: seq<Node>, dis: map<Node, nat>, par: map<Node, nat>,
                     hops: map<Node, seq<Node>>, i: nat, done: set<Node>, next: Node)
    requires QueueOk(g, host, q, dis) && ParentOk(g, host, q, dis, par)
    requires ScannedOk(g, q, dis, i, done) && HopsOk(g, q, dis, par, hops, i, done)
    requires i < |q| && Up(g.links, q[i], next) && next !in dis
    ensures HopsOk(g, Enqueue(g, q, next), dis[next := dis[q[i]] + 1], par[next := i], hops[next := [q[i]]], i,
                   done + {next})
  {
    var q', dis', par', hops' := Enqueue(g, q, next), dis[next := dis[q[i]] + 1], par[next := i], hops[next := [q[i]]];
    assert q'[..i] == q[..i] && q'[i] == q[i] && q[i] in q;
    forall v | v in hops'
      ensures HopsAre(g, q', dis', par', v, hops'[v],
                      Closer(g, dis', q'[..i], v) + Current(g, q', dis', i, done + {next}, v))
    {
      if v == next {
        NoneBefore(g, q, dis, dis', i, done, next);
      } else {
        assert HopsAre(g, q, dis, par, v, hops[v], Closer(g, dis, q[..i], v) + Current(g, q, dis, i, done, v));
        CloserSame(g, g, dis, dis', q[..i], v);
      }
    }
  }

  /** No place scanned before leads to a node that is still unreached. */
  lemma NoneBefore(g: Fabric, q: seq<Node>, dis: map<Node, nat>, dis': map<Node, nat>, i: nat, done: set<Node>,
                   next: Node)
    requires ScannedOk(g, q, dis, i, done) && i < |q| && next !in dis
    requires forall v :: v in q ==> v in dis
    ensures Closer(g, dis', q[..i], next) == []
  {
    forall u | u in q[..i]
      ensures !Nearer(g, dis', u, next)
    {
      var a :| 0 <= a < i && q[a] == u;
      assert q[a] in q && EdgeOk(g, dis, q[a], next);
    }
    CloserNone(g, dis', q[..i], next);
  }

  /** Once every neighbour of place `i` is done, the next place starts with none done. */
  lemma AdvanceKeeps(g: Fabric, tx: nat, host: Node, s: Search, i: nat, done: set<Node>)
    requires Progress(g, tx, host, s, i, done) && i < |s.q|
    requires forall w :: Up(g.links, s.q[i], w) ==> w in done
    ensures Progress(g, tx, host, s, i + 1, {})
  {
    AdvanceScanned(g, s.q, s.dis, i, done);
    AdvanceHops(g, s.q, s.dis, s.par, s.hops, i, done);
  }

  lemma AdvanceScanned(g: Fabric, q: seq<Node>, dis: map<Node, nat>, i: nat, done: set<Node>)
    requires ScannedOk(g, q, dis, i, done) && i < |q|
    requires forall w :: Up(g.links, q[i], w) ==> w in done
    ensures ScannedOk(g, q, dis, i + 1, {})
  {
    forall a, w | 0 <= a < i + 1
      ensures EdgeOk(g, dis, q[a], w)
    {
    }
  }

  lemma AdvanceHops(g: Fabric, q: seq<Node>, dis: map<Node, nat>, par: map<Node, nat>, hops: map<Node, seq<Node>>,
                    i: nat, done: set<Node>)
    requires HopsOk(g, q, dis, par, hops, i, done) && i < |q|
    requires forall w :: Up(g.links, q[i], w) ==> w in done
    ensures HopsOk(g, q, dis, par, hops, i + 1, {})
  {
    assert q[..i + 1][..i] == q[..i];
    forall v | v in hops
      ensures Closer(g, dis, q[..i + 1], v) == Closer(g, dis, q[..i], v) + Current(g, q, dis, i, done, v)
      ensures Current(g, q, dis, i + 1, {}, v) == []
    {
    }
  }

  lemma FinishSearch(g: Fabric, tx: nat, host: Node, s: Search)
    requires Progress(g, tx, host, s, |s.q|, {})
    ensures IsSearch(g, tx, host, s)
  {
    assert s.q[..|s.q|] == s.q;
    forall u, w | u in s.q
      ensures EdgeOk(g, s.dis, u, w)
    {
      var a :| 0 <= a < |s.q| && s.q[a] == u;
    }
  }
}
