/** Searches against the graph: least hop counts, forwarding walks, path measures, and uniqueness. */
module Paths {
  import opened Collections
  import opened Links
  import opened Search
  import opened Words

  /** A walk over working links from `p[0]` to `host` that passes through switches only. */
  ghost predicate IsPath(g: Fabric, host: Node, p: seq<Node>) {
    |p| > 0 &&
    if |p| == 1 then p[0] == host
    else Up(g.links, p[0], p[1]) && (|p| == 2 || p[1] in g.switches) && IsPath(g, host, p[1..])
  }

  ghost predicate IsShortest(g: Fabric, host: Node, p: seq<Node>) {
    && IsPath(g, host, p)
    && forall p' :: IsPath(g, host, p') && p'[0] == p[0] ==> |p| <= |p'|
  }

  /** A complete forwarding walk: at each node any one of the next hops towards `host` is taken. */
  ghost predicate Follows(hops: map<Node, seq<Node>>, host: Node, p: seq<Node>) {
    |p| > 0 &&
    if |p| == 1 then p[0] == host
    else p[0] in hops && p[1] in hops[p[0]] && Follows(hops, host, p[1..])
  }

  /** What the next-hop list of a reached node holds. */
  lemma HopsMeaning(g: Fabric, tx: nat, host: Node, s: Search, v: Node)
    requires IsSearch(g, tx, host, s) && v in s.dis
    ensures v in s.hops <==> v != host
    ensures v in s.hops ==> |s.hops[v]| > 0 && Distinct(s.hops[v])
    ensures v in s.hops ==> forall u :: u in s.hops[v] <==>
              Up(g.links, u, v) && u in s.dis && Expands(g, host, u) && s.dis[u] + 1 == s.dis[v]
  {
    if v in s.hops {
      CloserMember(g, s.dis, s.q, v);
      CloserDistinct(g, s.dis, s.q, v);
    }
  }

  /** A path to the host shows that its start was reached within as many hops. */
  lemma {:induction false} PathReaches(g: Fabric, tx: nat, host: Node, s: Search, p: seq<Node>)
    requires IsSearch(g, tx, host, s) && Symmetric(g.links) && IsPath(g, host, p)
    ensures p[0] in s.dis && s.dis[p[0]] <= |p| - 1
  {
    if |p| > 1 {
      PathReaches(g, tx, host, s, p[1..]);
      assert p[1] in s.q;
      assert EdgeOk(g, s.dis, p[1], p[0]);
    }
  }

  ghost predicate TakesFirst(hops: map<Node, seq<Node>>, host: Node, p: seq<Node>) {
    |p| > 0 &&
    if |p| == 1 then p[0] == host
    else p[0] in hops && hops[p[0]] != [] && p[1] == hops[p[0]][0] && TakesFirst(hops, host, p[1..])
  }

  /** The path that takes the first next hop everywhere. */
  ghost function FirstPath(g: Fabric, tx: nat, host: Node, s: Search, v: Node): (p: seq<Node>)
    requires IsSearch(g, tx, host, s) && Symmetric(g.links) && v in s.dis
    ensures IsPath(g, host, p) && p[0] == v && |p| == s.dis[v] + 1 && TakesFirst(s.hops, host, p)
    decreases s.dis[v]
  {
    if v == host then [v]
    else
      HopsMeaning(g, tx, host, s, v);
      assert s.hops[v][0] in s.hops[v];
      var rest := FirstPath(g, tx, host, s, s.hops[v][0]);
      assert ([v] + rest)[1..] == rest;
      [v] + rest
  }

  /** `dis` holds exactly the nodes with a path to the host, each with its least hop count. */
  lemma LeastHops(g: Fabric, tx: nat, host: Node, s: Search, v: Node)
    requires IsSearch(g, tx, host, s) && Symmetric(g.links)
    ensures v in s.dis <==> exists p :: IsPath(g, host, p) && p[0] == v
    ensures v in s.dis ==> exists p :: IsPath(g, host, p) && p[0] == v && |p| - 1 == s.dis[v]
    ensures v in s.dis ==> forall p :: IsPath(g, host, p) && p[0] == v ==> s.dis[v] <= |p| - 1
  {
    forall p | IsPath(g, host, p) && p[0] == v
      ensures v in s.dis && s.dis[v] <= |p| - 1
    {
      PathReaches(g, tx, host, s, p);
    }
    if v in s.dis {
      var p := FirstPath(g, tx, host, s, v);
    }
  }

  lemma {:induction false} FollowsIsPath(g: Fabric, tx: nat, host: Node, s: Search, p: seq<Node>)
    requires IsSearch(g, tx, host, s) && Symmetric(g.links) && Follows(s.hops, host, p)
    ensures IsPath(g, host, p) && p[0] in s.dis && |p| - 1 == s.dis[p[0]]
  {
    if |p| > 1 {
      HopsMeaning(g, tx, host, s, p[0]);
      FollowsIsPath(g, tx, host, s, p[1..]);
      if |p| > 2 {
        assert p[1..][0] == p[1] && p[1] in s.hops;
        HopsMeaning(g, tx, host, s, p[1]);
      }
    }
  }

  lemma {:induction false} TightPathFollows(g: Fabric, tx: nat, host: Node, s: Search, p: seq<Node>)
    requires IsSearch(g, tx, host, s) && Symmetric(g.links) && IsPath(g, host, p)
    requires p[0] in s.dis && |p| - 1 == s.dis[p[0]]
    ensures Follows(s.hops, host, p)
  {
    if |p| > 1 {
      PathReaches(g, tx, host, s, p[1..]);
      assert p[1] in s.q;
      assert EdgeOk(g, s.dis, p[1], p[0]);
      HopsMeaning(g, tx, host, s, p[0]);
      TightPathFollows(g, tx, host, s, p[1..]);
    }
  }

  /** Soundness and completeness of forwarding: the complete walks are exactly the minimum-hop paths. */
  lemma ForwardingIsShortest(g: Fabric, tx: nat, host: Node, s: Search, p: seq<Node>)
    requires IsSearch(g, tx, host, s) && Symmetric(g.links)
    ensures Follows(s.hops, host, p) <==> IsShortest(g, host, p)
  {
    if Follows(s.hops, host, p) {
      FollowsIsPath(g, tx, host, s, p);
      LeastHops(g, tx, host, s, p[0]);
    }
    if IsShortest(g, host, p) {
      LeastHops(g, tx, host, s, p[0]);
      var p' :| IsPath(g, host, p') && p'[0] == p[0] && |p'| - 1 == s.dis[p[0]];
      TightPathFollows(g, tx, host, s, p);
    }
  }

  /** A packet under way: any walk along next hops, not necessarily complete. */
  ghost predicate IsTrace(hops: map<Node, seq<Node>>, p: seq<Node>) {
    |p| > 0 &&
    var n := |p| - 1;
    n > 0 ==> IsTrace(hops, p[..n]) && p[n - 1] in hops && p[n] in hops[p[n - 1]]
  }

  lemma HopStep(g: Fabric, tx: nat, host: Node, s: Search, v: Node, u: Node)
    requires IsSearch(g, tx, host, s) && v in s.hops && u in s.hops[v]
    ensures u in s.dis && v in s.dis && s.dis[v] == s.dis[u] + 1 && Expands(g, host, u)
  {
    HopsMeaning(g, tx, host, s, v);
  }

  lemma {:induction false} TraceDescends(g: Fabric, tx: nat, host: Node, s: Search, p: seq<Node>)
    requires IsSearch(g, tx, host, s) && IsTrace(s.hops, p) && p[0] in s.dis
    ensures forall k :: 0 <= k < |p| ==> p[k] in s.dis && s.dis[p[k]] == s.dis[p[0]] - k
    ensures forall k :: 0 < k < |p| ==> Expands(g, host, p[k])
  {
    hide IsSearch;
    if |p| > 1 {
      var n := |p| - 1;
      TraceDescends(g, tx, host, s, p[..n]);
      HopStep(g, tx, host, s, p[n - 1], p[n]);
      assert p[..n][n - 1] == p[n - 1] && p[..n][0] == p[0];
      forall k | 0 <= k < |p|
        ensures p[k] in s.dis && s.dis[p[k]] == s.dis[p[0]] - k
        ensures 0 < k ==> Expands(g, host, p[k])
      {
        if k < n {
          assert p[..n][k] == p[k];
        }
      }
    }
  }

  /** A packet never loops, passes through switches only, is never stuck short of the host, and arrives after `dis`
      steps. */
  lemma TraceArrives(g: Fabric, tx: nat, host: Node, s: Search, p: seq<Node>)
    requires IsSearch(g, tx, host, s) && IsTrace(s.hops, p) && p[0] in s.dis
    ensures Distinct(p)
    ensures forall k :: 0 < k < |p| && p[k] != host ==> p[k] in g.switches
    ensures |p| - 1 <= s.dis[p[0]]
    ensures p[|p| - 1] == host <==> |p| - 1 == s.dis[p[0]]
    ensures p[|p| - 1] != host ==> p[|p| - 1] in s.hops && |s.hops[p[|p| - 1]]| > 0
    ensures host !in s.hops
  {
    TraceDescends(g, tx, host, s, p);
    var last := p[|p| - 1];
    HopsMeaning(g, tx, host, s, last);
    HopsMeaning(g, tx, host, s, host);
    assert last != host ==> s.hops[last][0] in s.hops[last];
    forall i, j | 0 <= i < j < |p|
      ensures p[i] != p[j]
    {
      assert s.dis[p[i]] != s.dis[p[j]];
    }
  }

  // ----- the order of the queue and of the lists

  /** Place `i` of the queue is the first with a working link to `v`. */
  ghost predicate FirstLinked(g: Fabric, q: seq<Node>, i: nat, v: Node) {
    i < |q| && Up(g.links, q[i], v) && forall k :: 0 <= k < i ==> !Up(g.links, q[k], v)
  }

  /** `x` is found from an earlier place than `y`, or from the same and has the smaller address. */
  ghost predicate FoundBefore(g: Fabric, q: seq<Node>, x: Node, y: Node) {
    exists i: nat, j: nat :: FirstLinked(g, q, i, x) && FirstLinked(g, q, j, y) && (i < j || (i == j && x < y))
  }

  ghost predicate QueuedBefore(q: seq<Node>, x: Node, y: Node) {
    exists i, j :: 0 <= i < j < |q| && q[i] == x && q[j] == y
  }

  lemma FoundByFirst(g: Fabric, tx: nat, host: Node, s: Search, v: Node)
    requires IsSearch(g, tx, host, s) && v in s.par
    ensures FirstLinked(g, s.q, s.par[v], v)
  {
    var i := s.par[v];
    assert Nearer(g, s.dis, s.q[i], v) && v in s.dis && v != host;
    HopsMeaning(g, tx, host, s, v);
    assert HopsAre(g, s.q, s.dis, s.par, v, s.hops[v], Closer(g, s.dis, s.q, v));
    forall k | 0 <= k < i
      ensures !Up(g.links, s.q[k], v)
    {
      if Up(g.links, s.q[k], v) {
        assert s.q[k] in s.q && EdgeOk(g, s.dis, s.q[k], v) && s.dis[s.q[k]] <= s.dis[s.q[i]];
        CloserStarts(g, s.dis, s.q, v, k, i);
      }
    }
  }

  /** A place before the one that a list starts with is not in the list. */
  lemma {:induction false} CloserStarts(g: Fabric, dis: map<Node, nat>, q: seq<Node>, v: Node, k: nat, i: nat)
    requires k < i < |q| && Distinct(q) && Nearer(g, dis, q[k], v) && Nearer(g, dis, q[i], v)
    ensures Closer(g, dis, q, v) != [] && Closer(g, dis, q, v)[0] != q[i]
    decreases |q|
  {
    var n := |q| - 1;
    if i == n {
      CloserMember(g, dis, q[..n], v);
      assert q[..n][k] in q[..n] && q[k] in Closer(g, dis, q[..n], v);
    } else {
      CloserStarts(g, dis, q[..n], v, k, i);
    }
  }

  /** The queue lists nodes by the place of the first queued node with a working link to them, and by address among
      those with the same; every next-hop list is in queue order. */
  lemma ListsInOrder(g: Fabric, tx: nat, host: Node, s: Search, v: Node)
    requires IsSearch(g, tx, host, s)
    ensures forall a, b :: 0 < a < b < |s.q| ==> FoundBefore(g, s.q, s.q[a], s.q[b])
    ensures v in s.hops ==> forall a, b :: 0 <= a < b < |s.hops[v]| ==> QueuedBefore(s.q, s.hops[v][a], s.hops[v][b])
  {
    forall a, b | 0 < a < b < |s.q|
      ensures FoundBefore(g, s.q, s.q[a], s.q[b])
    {
      assert s.q[a] in s.par && s.q[b] in s.par && Before(s.par, s.q[a], s.q[b]);
      FoundByFirst(g, tx, host, s, s.q[a]);
      FoundByFirst(g, tx, host, s, s.q[b]);
    }
    if v in s.hops {
      assert HopsAre(g, s.q, s.dis, s.par, v, s.hops[v], Closer(g, s.dis, s.q, v));
      CloserInOrder(g, s.dis, s.q, v);
    }
  }

  lemma {:induction false} CloserInOrder(g: Fabric, dis: map<Node, nat>, q: seq<Node>, v: Node)
    ensures forall a, b :: 0 <= a < b < |Closer(g, dis, q, v)| ==>
              QueuedBefore(q, Closer(g, dis, q, v)[a], Closer(g, dis, q, v)[b])
  {
    if q != [] {
      var n := |q| - 1;
      var front, all := Closer(g, dis, q[..n], v), Closer(g, dis, q, v);
      CloserInOrder(g, dis, q[..n], v);
      CloserMember(g, dis, q[..n], v);
      forall a, b | 0 <= a < b < |all|
        ensures QueuedBefore(q, all[a], all[b])
      {
        if b < |front| {
          assert QueuedBefore(q[..n], front[a], front[b]);
          var i, j :| 0 <= i < j < n && q[..n][i] == front[a] && q[..n][j] == front[b];
          assert q[i] == front[a] && q[j] == front[b];
        } else {
          assert front[a] in front;
          var i :| 0 <= i < n && q[..n][i] == front[a];
          assert q[i] == front[a] && q[n] == all[b];
        }
      }
    }
  }

  // ----- what the measures measure

  ghost function SumDelay(g: Fabric, host: Node, p: seq<Node>): nat
    requires IsPath(g, host, p) && Symmetric(g.links)
  {
    if |p| == 1 then 0 else SumDelay(g, host, p[1..]) + Get(g.links, p[1], p[0]).delay
  }

  ghost function SumTransmit(g: Fabric, tx: nat, host: Node, p: seq<Node>): nat
    requires IsPath(g, host, p) && Symmetric(g.links) && Rated(g.links)
  {
    if |p| == 1 then 0 else SumTransmit(g, tx, host, p[1..]) + TransmitTime(tx, Get(g.links, p[1], p[0]).bw)
  }

  /** The rate of the slowest link, or 2^64 - 1 when that is less. */
  ghost function Narrowest(g: Fabric, host: Node, p: seq<Node>): nat
    requires IsPath(g, host, p) && Symmetric(g.links)
  {
    if |p| == 1 then NO_BW else Min(Narrowest(g, host, p[1..]), Get(g.links, p[1], p[0]).bw)
  }

  lemma MeasureStep(g: Fabric, tx: nat, host: Node, s: Search, v: Node)
    requires IsSearch(g, tx, host, s) && v in s.dis && v != host
    ensures v in s.hops && s.hops[v] != [] && s.hops[v][0] in s.dis
    ensures s.dis[s.hops[v][0]] < s.dis[v] && MeasuredFrom(g, tx, s.m, s.hops[v][0], v)
  {
    HopsMeaning(g, tx, host, s, v);
    assert s.hops[v][0] in s.hops[v] && HopsAre(g, s.q, s.dis, s.par, v, s.hops[v], Closer(g, s.dis, s.q, v));
  }

  ghost predicate Measured(g: Fabric, tx: nat, host: Node, m: Measures, p: seq<Node>)
    requires IsPath(g, host, p) && Symmetric(g.links) && Rated(g.links)
  {
    && p[0] in m.delay && m.delay[p[0]] == Wrap64(SumDelay(g, host, p))
    && p[0] in m.txDelay && m.txDelay[p[0]] == Wrap64(SumTransmit(g, tx, host, p))
    && p[0] in m.bw && m.bw[p[0]] == Narrowest(g, host, p)
  }

  lemma MeasuredExtends(g: Fabric, tx: nat, host: Node, m: Measures, p: seq<Node>)
    requires IsPath(g, host, p) && Symmetric(g.links) && Rated(g.links) && |p| > 1
    requires MeasuredFrom(g, tx, m, p[1], p[0]) && Measured(g, tx, host, m, p[1..])
    ensures Measured(g, tx, host, m, p)
  {
    hide Add64, Wrap64, TransmitTime, Min;
    var rest := p[1..];
    AddWraps(SumDelay(g, host, rest), Get(g.links, p[1], p[0]).delay);
    AddWraps(SumTransmit(g, tx, host, rest), TransmitTime(tx, Get(g.links, p[1], p[0]).bw));
  }

  lemma {:induction false} MeasuresFollow(g: Fabric, tx: nat, host: Node, s: Search, p: seq<Node>)
    requires IsSearch(g, tx, host, s) && Symmetric(g.links) && Rated(g.links)
    requires IsPath(g, host, p) && p[0] in s.dis && TakesFirst(s.hops, host, p)
    ensures Measured(g, tx, host, s.m, p)
  {
    if |p| > 1 {
      HopsMeaning(g, tx, host, s, p[0]);
      MeasureStep(g, tx, host, s, p[0]);
      MeasuresFollow(g, tx, host, s, p[1..]);
      MeasuredExtends(g, tx, host, s.m, p);
    }
  }

  /** All three measures of a reached node describe one shortest path: the one that always takes the first next hop. */
  lemma MeasuresOfFirstPath(g: Fabric, tx: nat, host: Node, s: Search, v: Node)
    requires IsSearch(g, tx, host, s) && Symmetric(g.links) && Rated(g.links) && v in s.dis
    ensures
      var p := FirstPath(g, tx, host, s, v);
      p[0] == v && IsShortest(g, host, p) && TakesFirst(s.hops, host, p) && Measured(g, tx, host, s.m, p)
  {
    LeastHops(g, tx, host, s, v);
    MeasuresFollow(g, tx, host, s, FirstPath(g, tx, host, s, v));
  }

  // ----- the measures link by link, from the start of the path to its end

  ghost predicate LinkDelays(links: LinkMap, p: seq<Node>, delays: seq<nat>) {
    && |delays| + 1 == |p|
    && forall k :: 0 <= k < |delays| ==>
      Adjacent(links, p[k + 1], p[k]) && delays[k] == Get(links, p[k + 1], p[k]).delay
  }

  /** Each time is the number of whole nanoseconds in which the link carries the 8 * `payload` bits of a packet. The
      driver multiplies these bits by 10^9 in 64 bits. */
  ghost predicate PacketTimes(links: LinkMap, payload: nat, p: seq<Node>, times: seq<nat>) {
    && |times| + 1 == |p|
    && forall k :: 0 <= k < |times| ==>
         && Adjacent(links, p[k + 1], p[k])
         && var bw := Get(links, p[k + 1], p[k]).bw;
            times[k] * bw <= 8 * payload * 1_000_000_000 % 0x1_0000_0000_0000_0000 < (times[k] + 1) * bw
  }

  /** The least rate of the links, but never more than 2^64 - 1. */
  ghost predicate LeastRate(links: LinkMap, p: seq<Node>, rate: nat) {
    && rate <= 0xffff_ffff_ffff_ffff
    && (forall k :: 0 <= k < |p| - 1 ==> Adjacent(links, p[k + 1], p[k]) && rate <= Get(links, p[k + 1], p[k]).bw)
    && (rate == 0xffff_ffff_ffff_ffff || exists k :: 0 <= k < |p| - 1 && rate == Get(links, p[k + 1], p[k]).bw)
  }

  lemma {:induction false} DelayParts(g: Fabric, host: Node, p: seq<Node>) returns (delays: seq<nat>)
    requires IsPath(g, host, p) && Symmetric(g.links)
    ensures LinkDelays(g.links, p, delays) && SumDelay(g, host, p) == Sum(delays)
  {
    if |p| == 1 {
      delays := [];
    } else {
      var rest := DelayParts(g, host, p[1..]);
      var x := Get(g.links, p[1], p[0]).delay;
      SumCons(x, rest);
      delays := [x] + rest;
    }
  }

  lemma {:induction false} TransmitParts(g: Fabric, payload: nat, host: Node, p: seq<Node>) returns (times: seq<nat>)
    requires IsPath(g, host, p) && Symmetric(g.links) && Rated(g.links)
    ensures PacketTimes(g.links, payload, p, times) && SumTransmit(g, PacketBits(payload), host, p) == Sum(times)
  {
    hide PacketBits, TransmitTime;
    if |p| == 1 {
      times := [];
    } else {
      var rest := TransmitParts(g, payload, host, p[1..]);
      var bw := Get(g.links, p[1], p[0]).bw;
      var x := TransmitTime(PacketBits(payload), bw);
      WholeTime(payload, bw);
      SumCons(x, rest);
      times := [x] + rest;
    }
  }

  lemma WholeTime(payload: nat, bw: nat)
    requires bw > 0
    ensures
      var t := TransmitTime(PacketBits(payload), bw);
      t * bw <= 8 * payload * 1_000_000_000 % 0x1_0000_0000_0000_0000 < (t + 1) * bw
  {
    var bits := PacketBits(payload);
    assert bits == 8 * payload * 1_000_000_000 % 0x1_0000_0000_0000_0000;
    WholePart(bits, bw);
  }

  lemma WholePart(a: nat, b: nat)
    requires b > 0
    ensures a / b * b <= a < (a / b + 1) * b
  {
    assert a == a / b * b + a % b;
  }

  lemma {:induction false} NarrowestIsLeast(g: Fabric, host: Node, p: seq<Node>)
    requires IsPath(g, host, p) && Symmetric(g.links)
    ensures LeastRate(g.links, p, Narrowest(g, host, p))
  {
    if |p| > 1 {
      var rest := p[1..];
      NarrowestIsLeast(g, host, rest);
      var m, n := Narrowest(g, host, rest), Narrowest(g, host, p);
      forall k | 0 <= k < |p| - 1
        ensures Adjacent(g.links, p[k + 1], p[k]) && n <= Get(g.links, p[k + 1], p[k]).bw
      {
        if k > 0 {
          assert rest[k] == p[k + 1] && rest[k - 1] == p[k];
          assert m <= Get(g.links, rest[k - 1 + 1], rest[k - 1]).bw;
        }
      }
      if n == m && m != NO_BW {
        var k :| 0 <= k < |rest| - 1 && m == Get(g.links, rest[k + 1], rest[k]).bw;
        assert n == Get(g.links, p[k + 1 + 1], p[k + 1]).bw;
      } else if n != m {
        assert n == Get(g.links, p[0 + 1], p[0]).bw;
      }
    }
  }

  // ----- a search depends only on the working links

  lemma SearchSame(g1: Fabric, g2: Fabric, tx: nat, host: Node, s: Search)
    requires IsSearch(g1, tx, host, s) && g1.switches == g2.switches && SameWorking(g1.links, g2.links)
    ensures IsSearch(g2, tx, host, s)
  {
    NearerSame(g1, g2, s.dis);
    QueueSame(g1, g2, host, s);
    forall v | v in s.hops
      ensures HopsAre(g2, s.q, s.dis, s.par, v, s.hops[v], Closer(g2, s.dis, s.q, v))
    {
      CloserSame(g1, g2, s.dis, s.dis, s.q, v);
      assert HopsAre(g1, s.q, s.dis, s.par, v, s.hops[v], Closer(g1, s.dis, s.q, v));
    }
    forall v | v in s.par
      ensures s.par[v] < |s.q| && MeasuredFrom(g2, tx, s.m, s.q[s.par[v]], v)
    {
      assert MeasuredFrom(g1, tx, s.m, s.q[s.par[v]], v);
    }
    forall u, w | u in s.q
      ensures EdgeOk(g2, s.dis, u, w)
    {
      assert EdgeOk(g1, s.dis, u, w);
    }
  }

  lemma QueueSame(g1: Fabric, g2: Fabric, host: Node, s: Search)
    requires QueueOk(g1, host, s.q, s.dis) && g1.switches == g2.switches
    ensures QueueOk(g2, host, s.q, s.dis)
  {
    forall v
      ensures v in s.q <==> v in s.dis && Expands(g2, host, v)
    {
      assert Expands(g1, host, v) <==> Expands(g2, host, v);
    }
  }

  // ----- there is only one search

  lemma {:induction false} DistancesWithin(g1: Fabric, g2: Fabric, tx: nat, host: Node, s1: Search, s2: Search, v: Node)
    requires IsSearch(g1, tx, host, s1) && IsSearch(g2, tx, host, s2)
    requires g1.switches == g2.switches && (forall a, b :: Up(g1.links, a, b) ==> Up(g2.links, a, b))
    requires v in s1.dis
    ensures v in s2.dis && s2.dis[v] <= s1.dis[v]
    decreases s1.dis[v]
  {
    if v != host {
      var u := s1.q[s1.par[v]];
      assert Nearer(g1, s1.dis, u, v);
      DistancesWithin(g1, g2, tx, host, s1, s2, u);
      assert u in s1.q && u in s2.q && EdgeOk(g2, s2.dis, u, v);
    }
  }

  lemma DistancesUnique(g1: Fabric, g2: Fabric, tx: nat, host: Node, s1: Search, s2: Search)
    requires IsSearch(g1, tx, host, s1) && IsSearch(g2, tx, host, s2)
    requires g1.switches == g2.switches && SameWorking(g1.links, g2.links)
    ensures s1.dis == s2.dis
  {
    forall v | v in s1.dis || v in s2.dis
      ensures v in s1.dis && v in s2.dis && s1.dis[v] == s2.dis[v]
    {
      if v in s1.dis { DistancesWithin(g1, g2, tx, host, s1, s2, v); }
      if v in s2.dis { DistancesWithin(g2, g1, tx, host, s2, s1, v); }
    }
  }

  lemma {:induction false} CloserFirst(g: Fabric, dis: map<Node, nat>, p: seq<Node>, v: Node, a: nat)
    requires a < |p| && Nearer(g, dis, p[a], v)
    ensures Closer(g, dis, p, v) != [] && exists b :: 0 <= b <= a && p[b] == Closer(g, dis, p, v)[0]
  {
    var n := |p| - 1;
    if a < n {
      CloserFirst(g, dis, p[..n], v, a);
      var b :| 0 <= b <= a && p[..n][b] == Closer(g, dis, p[..n], v)[0];
      assert p[b] == p[..n][b];
    } else if Closer(g, dis, p[..n], v) != [] {
      CloserMember(g, dis, p[..n], v);
      var c := Closer(g, dis, p[..n], v)[0];
      assert c in Closer(g, dis, p[..n], v);
      var b :| 0 <= b < n && p[b] == c;
    }
  }

  /** The discoverer of `v` is the first queued node that is one hop nearer, and is queued before `v`. */
  lemma ParentLeast(g: Fabric, tx: nat, host: Node, s: Search, v: Node, a: nat)
    requires IsSearch(g, tx, host, s) && v in s.par && a < |s.q|
    ensures Nearer(g, s.dis, s.q[a], v) ==> s.par[v] <= a
    ensures s.q[a] == v ==> s.par[v] < a
  {
    assert HopsAre(g, s.q, s.dis, s.par, v, s.hops[v], Closer(g, s.dis, s.q, v));
    if Nearer(g, s.dis, s.q[a], v) {
      CloserFirst(g, s.dis, s.q, v, a);
    }
    assert Nearer(g, s.dis, s.q[s.par[v]], v);
  }

  /** A node queued at place `k` by one search stands at `k` or later in a queue that agrees on the first `k` places. */
  lemma StandsLater(q1: seq<Node>, q2: seq<Node>, k: nat) returns (j: nat)
    requires Distinct(q1) && k < |q1| && k <= |q2| && q1[..k] == q2[..k] && q1[k] in q2
    ensures k <= j < |q2| && q2[j] == q1[k]
  {
    forall i | 0 <= i < k
      ensures q1[i] == q2[i]
    {
      assert q1[..k][i] == q2[..k][i];
    }
    j :| 0 <= j < |q2| && q2[j] == q1[k];
  }

  lemma NearerSame(g1: Fabric, g2: Fabric, dis: map<Node, nat>)
    requires SameWorking(g1.links, g2.links)
    ensures forall u, v :: Nearer(g1, dis, u, v) <==> Nearer(g2, dis, u, v)
  {
  }

  /** Of two different nodes, the one that search 1 queues at `k` is not discovered later, in search 1's own terms,
      than in search 2's. */
  lemma NotLater(g1: Fabric, g2: Fabric, tx: nat, host: Node, s1: Search, s2: Search, k: nat, j: nat)
    requires IsSearch(g1, tx, host, s1) && IsSearch(g2, tx, host, s2)
    requires SameWorking(g1.links, g2.links) && s1.dis == s2.dis
    requires 0 < k < |s1.q| && k < j < |s2.q| && s1.q[..k] == s2.q[..k] && s2.q[j] == s1.q[k]
    ensures
      var x, y := s1.q[k], s2.q[k];
      x in s1.par && x in s2.par && y in s2.par && Before(s2.par, y, x) && s2.par[x] <= s1.par[x]
  {
    var x := s1.q[k];
    assert s2.q[j] in s2.par && s1.q[k] in s1.par && s2.q[k] in s2.par;
    assert Nearer(g1, s1.dis, s1.q[s1.par[x]], x);
    NearerSame(g1, g2, s1.dis);
    ParentLeast(g1, tx, host, s1, x, k);
    var a := s1.par[x];
    assert s1.q[..k][a] == s2.q[..k][a];
    ParentLeast(g2, tx, host, s2, x, a);
  }

  lemma SameMembers(g1: Fabric, g2: Fabric, tx: nat, host: Node, s1: Search, s2: Search)
    requires IsSearch(g1, tx, host, s1) && IsSearch(g2, tx, host, s2)
    requires g1.switches == g2.switches && s1.dis == s2.dis
    ensures Distinct(s1.q) && Distinct(s2.q) && (forall v :: v in s1.q <==> v in s2.q)
    ensures |s1.q| > 0 && |s2.q| > 0 && s1.q[0] == s2.q[0]
  {
    forall v
      ensures v in s1.q <==> v in s2.q
    {
      assert Expands(g1, host, v) <==> Expands(g2, host, v);
    }
  }

  lemma {:induction false} QueuesAgree(g1: Fabric, g2: Fabric, tx: nat, host: Node, s1: Search, s2: Search, k: nat)
    requires IsSearch(g1, tx, host, s1) && IsSearch(g2, tx, host, s2)
    requires g1.switches == g2.switches && SameWorking(g1.links, g2.links) && s1.dis == s2.dis
    requires k <= |s1.q|
    ensures k <= |s2.q| && s1.q[..k] == s2.q[..k]
  {
    hide IsSearch;
    if k > 0 {
      QueuesAgree(g1, g2, tx, host, s1, s2, k - 1);
      SameMembers(g1, g2, tx, host, s1, s2);
      var j := StandsLater(s1.q, s2.q, k - 1);
      if k > 1 && j > k - 1 {
        var i := StandsLater(s2.q, s1.q, k - 1);
        NotLater(g1, g2, tx, host, s1, s2, k - 1, j);
        NotLater(g2, g1, tx, host, s2, s1, k - 1, i);
      }
      assert s1.q[..k] == s1.q[..k - 1] + [s1.q[k - 1]] && s2.q[..k] == s2.q[..k - 1] + [s2.q[k - 1]];
    }
  }

  lemma QueuesEqual(g1: Fabric, g2: Fabric, tx: nat, host: Node, s1: Search, s2: Search)
    requires IsSearch(g1, tx, host, s1) && IsSearch(g2, tx, host, s2)
    requires g1.switches == g2.switches && SameWorking(g1.links, g2.links) && s1.dis == s2.dis
    ensures s1.q == s2.q
  {
    QueuesAgree(g1, g2, tx, host, s1, s2, |s1.q|);
    QueuesAgree(g2, g1, tx, host, s2, s1, |s2.q|);
    assert s1.q[..|s1.q|] == s1.q && s2.q[..|s2.q|] == s2.q;
  }

  lemma {:induction false} MeasuresAgree(g1: Fabric, g2: Fabric, tx: nat, host: Node, s1: Search, s2: Search, v: Node)
    requires IsSearch(g1, tx, host, s1) && IsSearch(g2, tx, host, s2)
    requires SameWorking(g1.links, g2.links) && s1.dis == s2.dis && s1.hops == s2.hops && v in s1.dis
    ensures v in s1.m.delay && v in s2.m.delay && s1.m.delay[v] == s2.m.delay[v]
    ensures v in s1.m.txDelay && v in s2.m.txDelay && s1.m.txDelay[v] == s2.m.txDelay[v]
    ensures v in s1.m.bw && v in s2.m.bw && s1.m.bw[v] == s2.m.bw[v]
    decreases s1.dis[v]
  {
    if v != host {
      MeasureStep(g1, tx, host, s1, v);
      MeasureStep(g2, tx, host, s2, v);
      MeasuresAgree(g1, g2, tx, host, s1, s2, s1.hops[v][0]);
    }
  }

  /** The result of a search is determined by the working links: queue order, next-hop order and measures included. */
  lemma SearchUnique(g1: Fabric, g2: Fabric, tx: nat, host: Node, s1: Search, s2: Search)
    requires IsSearch(g1, tx, host, s1) && IsSearch(g2, tx, host, s2)
    requires g1.switches == g2.switches && SameWorking(g1.links, g2.links)
    ensures s1 == s2
  {
    DistancesUnique(g1, g2, tx, host, s1, s2);
    QueuesEqual(g1, g2, tx, host, s1, s2);
    HopsAgree(g1, g2, tx, host, s1, s2);
    MeasureMapsAgree(g1, g2, tx, host, s1, s2);
  }

  lemma HopsAgree(g1: Fabric, g2: Fabric, tx: nat, host: Node, s1: Search, s2: Search)
    requires IsSearch(g1, tx, host, s1) && IsSearch(g2, tx, host, s2)
    requires SameWorking(g1.links, g2.links) && s1.dis == s2.dis && s1.q == s2.q
    ensures s1.hops == s2.hops && s1.par == s2.par
  {
    assert s1.hops.Keys == s2.hops.Keys == s1.par.Keys == s2.par.Keys;
    forall v | v in s1.hops
      ensures s1.hops[v] == s2.hops[v] && s1.par[v] == s2.par[v]
    {
      HopAgrees(g1, g2, tx, host, s1, s2, v);
    }
  }

  lemma HopAgrees(g1: Fabric, g2: Fabric, tx: nat, host: Node, s1: Search, s2: Search, v: Node)
    requires IsSearch(g1, tx, host, s1) && IsSearch(g2, tx, host, s2)
    requires SameWorking(g1.links, g2.links) && s1.dis == s2.dis && s1.q == s2.q
    requires v in s1.hops && v in s1.par && v in s2.hops && v in s2.par
    ensures s1.hops[v] == s2.hops[v] && s1.par[v] == s2.par[v]
  {
    assert HopsAre(g1, s1.q, s1.dis, s1.par, v, s1.hops[v], Closer(g1, s1.dis, s1.q, v));
    assert HopsAre(g2, s2.q, s2.dis, s2.par, v, s2.hops[v], Closer(g2, s2.dis, s2.q, v));
    assert Distinct(s1.q);
    hide IsSearch;
    NearerSame(g1, g2, s1.dis);
    CloserSame(g1, g2, s1.dis, s2.dis, s1.q, v);
  }

  lemma MeasureMapsAgree(g1: Fabric, g2: Fabric, tx: nat, host: Node, s1: Search, s2: Search)
    requires IsSearch(g1, tx, host, s1) && IsSearch(g2, tx, host, s2)
    requires SameWorking(g1.links, g2.links) && s1.dis == s2.dis && s1.hops == s2.hops
    ensures s1.m == s2.m
  {
    forall v | v in s1.dis
      ensures v in s1.m.delay && v in s2.m.delay && s1.m.delay[v] == s2.m.delay[v]
      ensures v in s1.m.txDelay && v in s2.m.txDelay && s1.m.txDelay[v] == s2.m.txDelay[v]
      ensures v in s1.m.bw && v in s2.m.bw && s1.m.bw[v] == s2.m.bw[v]
    {
      MeasuresAgree(g1, g2, tx, host, s1, s2, v);
    }
    assert s1.m.delay == s2.m.delay && s1.m.txDelay == s2.m.txDelay && s1.m.bw == s2.m.bw;
  }
}
