/** Releasing flows from the flow file, and the port-based keys that identify them. Times are in simulator ticks. */
module FlowStarter {
  import opened Addresses
  import opened Words

  /** One parsed row of the flow file. */
  datatype Row = Row(src: nat, dst: nat, pg: nat, dport: nat, size: nat, start: int)

  /** A flow handed to its sender: which row, with which source port, at what time. */
  datatype Started = Started(row: Row, port: nat, time: int)

  const FIRST_PORT := 10000
  const PORTS := 0x10000

  /** How many of `rows` go from host `src` to host `dst`. */
  function Earlier(rows: seq<Row>, src: nat, dst: nat): nat {
    if rows == [] then 0
    else
      var last := rows[|rows| - 1];
      Earlier(rows[..|rows| - 1], src, dst) + if last.src == src && last.dst == dst then 1 else 0
  }

  /** The port that the next flow of the pair gets after `rows`: a 16-bit counter. */
  function PortAfter(rows: seq<Row>, src: nat, dst: nat): nat {
    (FIRST_PORT + Earlier(rows, src, dst)) % PORTS
  }

  function PortOf(rows: seq<Row>, k: nat): nat
    requires k < |rows|
  {
    PortAfter(rows[..k], rows[k].src, rows[k].dst)
  }

  /** The places of the rows that go from host `src` to host `dst`. */
  ghost function Places(rows: seq<Row>, src: nat, dst: nat): set<int> {
    set i | 0 <= i < |rows| && rows[i].src == src && rows[i].dst == dst
  }

  lemma {:induction false} EarlierCounts(rows: seq<Row>, src: nat, dst: nat)
    ensures Earlier(rows, src, dst) == |Places(rows, src, dst)|
  {
    if rows == [] {
      assert Places(rows, src, dst) == {};
    } else {
      EarlierCounts(rows[..|rows| - 1], src, dst);
      MorePlaces(rows, src, dst);
      hide Places;
    }
  }

  lemma MorePlaces(rows: seq<Row>, src: nat, dst: nat)
    requires rows != []
    ensures
      var n := |rows| - 1;
      |Places(rows, src, dst)| ==
        |Places(rows[..n], src, dst)| + if rows[n].src == src && rows[n].dst == dst then 1 else 0
  {
    var n := |rows| - 1;
    assert Places(rows, src, dst) ==
           Places(rows[..n], src, dst) + if rows[n].src == src && rows[n].dst == dst then {n} else {};
  }

  /** The first flow of a host pair has port 10000, and every further one the next, modulo 2^16. */
  ghost predicate HasPort(rows: seq<Row>, k: nat, port: nat)
    requires k < |rows|
  {
    port == (10000 + |set i | 0 <= i < k && rows[i].src == rows[k].src && rows[i].dst == rows[k].dst|) % 0x1_0000
  }

  lemma PortCounts(rows: seq<Row>, k: nat)
    requires k < |rows|
    ensures HasPort(rows, k, PortOf(rows, k))
  {
    var front, src, dst := rows[..k], rows[k].src, rows[k].dst;
    EarlierCounts(front, src, dst);
    assert Places(front, src, dst) ==
           set i | 0 <= i < k && rows[i].src == src && rows[i].dst == dst;
  }

  // ----- the key under which a completed flow is removed

  /** The receiving node, the sender's address, the priority group and the source port. */
  datatype FlowKey = FlowKey(did: nat, sip: nat, pg: nat, sport: nat)

  function KeyOf(rows: seq<Row>, k: nat): FlowKey
    requires k < |rows|
  {
    FlowKey(IpToNodeId(NodeIdToIp(rows[k].dst)), NodeIdToIp(rows[k].src), rows[k].pg, PortOf(rows, k))
  }

  lemma {:induction false} EarlierGrows(rows: seq<Row>, i: nat, j: nat, src: nat, dst: nat)
    requires i <= j <= |rows|
    ensures Earlier(rows[..i], src, dst) <= Earlier(rows[..j], src, dst)
    ensures i < j && rows[i].src == src && rows[i].dst == dst ==>
              Earlier(rows[..i], src, dst) < Earlier(rows[..j], src, dst)
    decreases j
  {
    if i < j {
      EarlierGrows(rows, i, j - 1, src, dst);
      assert rows[..j][..j - 1] == rows[..j - 1];
    }
  }

  /** Two flows share a key exactly when their senders' ids agree in the low 24 bits, their receivers' in the low 16,
      their priority groups are equal, and their places within their own host pairs agree modulo 2^16. */
  lemma KeysCollide(rows: seq<Row>, i: nat, j: nat)
    requires i < |rows| && j < |rows|
    requires forall k :: 0 <= k < |rows| ==> rows[k].src < WORD32 && rows[k].dst < WORD32
    ensures KeyOf(rows, i) == KeyOf(rows, j) <==>
              && rows[i].src % 0x100_0000 == rows[j].src % 0x100_0000 &&
                rows[i].dst % 0x1_0000 == rows[j].dst % 0x1_0000
              && rows[i].pg == rows[j].pg
              && Earlier(rows[..i], rows[i].src, rows[i].dst) % PORTS ==
                Earlier(rows[..j], rows[j].src, rows[j].dst) % PORTS
  {
    hide NodeIdToIp, IpToNodeId, Earlier, PortAfter;
    SameAddress(rows[i].src, rows[j].src);
    RoundTrip(rows[i].dst);
    RoundTrip(rows[j].dst);
    SamePort(rows[..i], rows[i].src, rows[i].dst, rows[..j], rows[j].src, rows[j].dst);
  }

  lemma SamePort(p: seq<Row>, src: nat, dst: nat, q: seq<Row>, src': nat, dst': nat)
    ensures PortAfter(p, src, dst) == PortAfter(q, src', dst') <==>
            Earlier(p, src, dst) % PORTS == Earlier(q, src', dst') % PORTS
  {
    hide Earlier;
    PortShift(Earlier(p, src, dst));
    PortShift(Earlier(q, src', dst'));
  }

  lemma PortShift(e: nat)
    ensures (FIRST_PORT + e) % PORTS ==
              if e % PORTS + FIRST_PORT < PORTS then FIRST_PORT + e % PORTS else FIRST_PORT + e % PORTS - PORTS
  {
    var k, r := e / PORTS, e % PORTS;
    assert FIRST_PORT + e == k * PORTS + (FIRST_PORT + r);
  }

  /** The receivers of each sender have ids that differ in the low 16 bits. */
  ghost predicate ReceiversDiffer(rows: seq<Row>) {
    forall i, j :: 0 <= i < |rows| && 0 <= j < |rows| && rows[i].src == rows[j].src ==>
      rows[i].dst % 0x1_0000 == rows[j].dst % 0x1_0000 ==> rows[i].dst == rows[j].dst
  }

  /** With ids below 2^24, at most 2^16 flows between any two hosts, and receivers of one sender that differ in the
      low 16 bits, no two flows ever share a key. */
  lemma KeysUnique(rows: seq<Row>, i: nat, j: nat)
    requires i < j < |rows| && ReceiversDiffer(rows)
    requires forall k :: 0 <= k < |rows| ==> rows[k].src < 0x100_0000 && rows[k].dst < 0x100_0000
    requires forall s, d :: Earlier(rows, s, d) <= PORTS
    ensures KeyOf(rows, i) != KeyOf(rows, j)
  {
    hide Earlier, KeyOf;
    KeysCollide(rows, i, j);
    var s, d := rows[i].src, rows[i].dst;
    assert rows[..|rows|] == rows;
    EarlierGrows(rows, i, j, s, d);
    EarlierGrows(rows, j, |rows|, s, d);
  }

  /** Below 2^16 receivers always differ, so the 2^16 flows of each host pair are then the only limit. */
  lemma SmallIdsDiffer(rows: seq<Row>)
    requires forall k :: 0 <= k < |rows| ==> rows[k].dst < 0x1_0000
    ensures ReceiversDiffer(rows)
  {
    forall k | 0 <= k < |rows|
      ensures rows[k].dst % 0x1_0000 == rows[k].dst
    {
    }
  }

  /** Without it, even the first flows of two host pairs share a key: the program allows ids up to 99999. */
  lemma FarReceiversCollide(a: Row, b: Row)
    requires a.src == b.src < WORD32 && a.pg == b.pg && a.dst + 0x1_0000 == b.dst < WORD32
    ensures KeyOf([a, b], 0) == KeyOf([a, b], 1)
  {
    hide NodeIdToIp, IpToNodeId, PortAfter, Earlier;
    var rows := [a, b];
    assert rows[..0] == [] && rows[..1] == [a];
    FirstOfPairs(a, b);
    KeysCollide(rows, 0, 1);
  }

  lemma FirstOfPairs(a: Row, b: Row)
    requires a.dst != b.dst
    ensures Earlier([], a.src, a.dst) == 0 && Earlier([a], b.src, b.dst) == 0
  {
    assert [a][..0] == [];
  }

  lemma FirstPorts(servers: set<nat>)
    ensures
      var ports := map s, d | s in servers && d in servers :: (s, d) := FIRST_PORT;
      forall pair: (nat, nat) :: pair.0 in servers && pair.1 in servers ==>
        pair in ports && ports[pair] == PortAfter([], pair.0, pair.1)
  {
    assert FIRST_PORT % PORTS == FIRST_PORT;
  }

  datatype Outcome = Running | Done | BadRow(place: nat) | NegativeDelay(place: nat)

  datatype FlowStatus = FlowStatus(started: nat, completed: nat, pending: nat, active: nat)

  class Starter {
    const file: seq<Row>          // the well-formed rows that follow the header
    const flowNum: nat            // the count in the header
    const nodeCount: nat
    const servers: set<nat>
    var idx: nat
    var input: Row                // the row read last
    var ports: map<(nat, nat), nat>
    var now: int
    var next: int                 // time of the scheduled firing, while Running
    var outcome: Outcome
    var completed: nat
    var log: seq<Started>
    ghost var finished: set<nat>  // the rows whose flows have completed

    predicate GoodRow(k: nat) {
      k < |file| && file[k].src < nodeCount && file[k].dst < nodeCount && file[k].src in servers &&
        file[k].dst in servers
    }

    /** Start time of row `k - 1`; the simulation starts at time 0. */
    function Previous(k: nat): int
      requires k <= |file|
    {
      if k == 0 then 0 else file[k - 1].start
    }

    /** Rows below `k` can be released: each is acceptable and does not start before its predecessor. */
    ghost predicate Releasable(k: nat) {
      k <= |file| && forall i :: 0 <= i < k ==> GoodRow(i) && Previous(i) <= file[i].start
    }

    /** The flows of the rows below `k`, in file order, each at its start time. */
    ghost predicate Released(log: seq<Started>, k: nat) {
      && k <= |file| && |log| == k
      && forall i :: 0 <= i < k ==> log[i] == Started(file[i], PortOf(file, i), file[i].start)
    }

    ghost predicate PortsOk(ports: map<(nat, nat), nat>, k: nat) {
      k <= |file| && forall pair: (nat, nat) :: pair.0 in servers && pair.1 in servers ==>
        pair in ports && ports[pair] == PortAfter(file[..k], pair.0, pair.1)
    }

    /** Holds in every reachable state. */
    ghost predicate Valid()
      reads this
    {
      && completed == |finished| && (forall k :: k in finished ==> k < |log|)
      && idx <= flowNum && Releasable(idx) && Released(log, idx) && PortsOk(ports, idx) && now == Previous(idx)
      && match outcome
         case Running => idx < flowNum && GoodRow(idx) && input == file[idx] && next == file[idx].start && now <= next
         case Done => idx == flowNum
         case BadRow(k) => k == idx < flowNum && !GoodRow(k)
         case NegativeDelay(k) => k == idx < flowNum && GoodRow(k) && file[k].start < Previous(k)
    }

    /** Reads the next row, if the header promises one; a missing or unacceptable row ends the program. */
    method ReadFlowInput() returns (ok: bool)
      requires idx <= flowNum
      modifies this`input, this`outcome
      ensures ok <==> idx == flowNum || GoodRow(idx)
      ensures ok <==>
                || idx == flowNum
                || (idx < |file| && file[idx].src < nodeCount && file[idx].dst < nodeCount &&
                    file[idx].src in servers && file[idx].dst in servers)
      ensures ok && idx < flowNum ==> input == file[idx]
      ensures ok ==> outcome == old(outcome)
      ensures !ok ==> outcome == BadRow(idx)
    {
      ok := true;
      if idx < flowNum {
        if idx >= |file| {
          outcome := BadRow(idx);
          return false;
        }
        input := file[idx];
        if input.src >= nodeCount || input.dst >= nodeCount || input.src !in servers || input.dst !in servers {
          outcome := BadRow(idx);
          return false;
        }
      }
    }

    /** Schedules the next firing; the simulator accepts no negative delay. */
    method Schedule(delay: int)
      requires idx < flowNum
      modifies this`next, this`outcome
      ensures delay >= 0 ==> outcome == Running && next == now + delay
      ensures delay < 0 ==> outcome == NegativeDelay(idx) && next == old(next)
    {
      if delay < 0 {
        outcome := NegativeDelay(idx);
      } else {
        outcome, next := Running, now + delay;
      }
    }

    /** The state in which main schedules the first firing. */
    constructor (file: seq<Row>, flowNum: nat, nodeCount: nat, servers: set<nat>)
      ensures Valid() && idx == 0 && completed == 0 && log == [] && finished == {}
      ensures this.file == file && this.flowNum == flowNum && this.nodeCount == nodeCount && this.servers == servers
    {
      this.file, this.flowNum, this.nodeCount, this.servers := file, flowNum, nodeCount, servers;
      ports := map s, d | s in servers && d in servers :: (s, d) := FIRST_PORT;
      idx, now, next, completed, log, finished := 0, 0, 0, 0, [], {};
      input, outcome := Row(0, 0, 0, 0, 0, 0), Done;
      new;
      hide Releasable, Released, PortsOk;
      NothingReleased();
      if flowNum > 0 {
        var ok := ReadFlowInput();
        if ok { Schedule(input.start - now); }
      }
    }

    lemma NothingReleased()
      ensures Releasable(0) && Released([], 0)
      ensures PortsOk(map s, d | s in servers && d in servers :: (s, d) := FIRST_PORT, 0)
    {
      assert file[..0] == [];
      FirstPorts(servers);
    }

    /** One firing. Starts every flow whose time has come, then schedules the next firing. At least one flow starts. */
    method ScheduleFlowInputs()
      requires Valid() && outcome == Running
      modifies this
      ensures Valid() && idx > old(idx) && finished == old(finished)
      ensures now == old(next)
      ensures forall i :: old(idx) <= i < idx ==> log[i].time == now
      ensures outcome == Running ==> next > now
    {
      hide Releasable, Released, PortsOk, GoodRow;
      GoodRowExists(idx);
      assert |log| == idx by { ReleasedLength(log, idx); }
      now := next;
      ghost var first := idx;
      while idx < flowNum && input.start == now
        invariant first <= idx <= flowNum && idx <= |file| && finished == old(finished) && completed == |finished| &&
                  now == old(next)
        invariant Releasable(idx) && Released(log, idx) && PortsOk(ports, idx) && outcome == Running
        invariant idx < flowNum ==> GoodRow(idx) && idx < |file| && input == file[idx]
        invariant if idx == first then idx < flowNum && input.start == now && Previous(idx) <= now
                  else Previous(idx) == now
        invariant |log| == idx && forall i :: first <= i < idx ==> log[i].time == now
        decreases flowNum - idx
      {
        StartFlow();
        var ok := ReadFlowInput();
        if !ok { return; }
        GoodRowExists(idx);
      }
      if idx < flowNum {
        Schedule(input.start - now);
      } else {
        outcome := Done;
      }
    }

    lemma GoodRowExists(k: nat)
      ensures GoodRow(k) ==> k < |file|
    {
    }

    lemma ReleasedLength(log: seq<Started>, k: nat)
      requires Released(log, k)
      ensures |log| == k
    {
    }

    /** Hands the flow read last to its sender, under the next port of its host pair. */
    method StartFlow()
      requires idx < |file| && Releasable(idx) && Released(log, idx) && PortsOk(ports, idx)
      requires GoodRow(idx) && input == file[idx] && input.start == now && Previous(idx) <= now
      modifies this`ports, this`log, this`idx
      ensures idx == old(idx) + 1 && |log| == idx && log[..old(idx)] == old(log) && log[old(idx)].time == now
      ensures Releasable(idx) && Released(log, idx) && PortsOk(ports, idx)
    {
      hide Releasable, Released, PortsOk;
      var pair := (input.src, input.dst);
      PortsStep(ports, idx);
      ReleasedStep(log, idx);
      ReleasableStep(idx);
      var port := ports[pair];
      ports := ports[pair := (port + 1) % PORTS];
      log := log + [Started(input, port, now)];
      idx := idx + 1;
    }

    lemma PortsStep(ports: map<(nat, nat), nat>, k: nat)
      requires PortsOk(ports, k) && GoodRow(k)
      ensures (file[k].src, file[k].dst) in ports && ports[(file[k].src, file[k].dst)] == PortOf(file, k)
      ensures PortsOk(ports[(file[k].src, file[k].dst) := (ports[(file[k].src, file[k].dst)] + 1) % PORTS], k + 1)
    {
      var rows := file[..k + 1];
      assert rows[..k] == file[..k] && rows[k] == file[k];
      var pair := (file[k].src, file[k].dst);
      assert pair.0 in servers && pair.1 in servers;
      var ports' := ports[pair := (ports[pair] + 1) % PORTS];
      forall p: (nat, nat) | p.0 in servers && p.1 in servers
        ensures p in ports' && ports'[p] == PortAfter(rows, p.0, p.1)
      {
        assert ports[p] == PortAfter(file[..k], p.0, p.1);
      }
    }

    lemma ReleasedStep(log: seq<Started>, k: nat)
      requires Released(log, k) && k < |file|
      ensures Released(log + [Started(file[k], PortOf(file, k), file[k].start)], k + 1) && |log| == k
    {
    }

    lemma ReleasableStep(k: nat)
      requires Releasable(k) && GoodRow(k) && Previous(k) <= file[k].start
      ensures Releasable(k + 1)
    {
    }

    /** All firings until the program ends or nothing is left to schedule. */
    method Run()
      requires Valid()
      modifies this
      ensures Valid() && outcome != Running
      ensures outcome == Done <==>
                flowNum <= |file| && forall i :: 0 <= i < flowNum ==>
                  && file[i].src < nodeCount && file[i].dst < nodeCount && file[i].src in servers &&
                    file[i].dst in servers
                  && (if i == 0 then 0 else file[i - 1].start) <= file[i].start
      ensures forall k: nat :: outcome == BadRow(k) <==> FirstBad(k)
      ensures forall k: nat :: outcome == NegativeDelay(k) <==> FirstEarly(k)
      ensures |log| == idx <= |file| && (outcome == Done ==> idx == flowNum)
      ensures forall i :: 0 <= i < |log| ==>
                log[i].row == file[i] && log[i].time == file[i].start && HasPort(file, i, log[i].port)
      ensures finished == old(finished)
    {
      while outcome == Running
        invariant Valid() && finished == old(finished)
        decreases flowNum - idx
      {
        ScheduleFlowInputs();
      }
      OutcomeIsExact();
      LogMeans();
    }

    lemma LogMeans()
      requires Released(log, idx)
      ensures |log| == idx <= |file|
      ensures forall i :: 0 <= i < |log| ==>
                log[i].row == file[i] && log[i].time == file[i].start && HasPort(file, i, log[i].port)
    {
      forall i | 0 <= i < |log|
        ensures HasPort(file, i, log[i].port)
      {
        PortCounts(file, i);
      }
    }

    /** All rows below `k` can be released, and row `k` is missing or names no two servers. */
    ghost predicate FirstBad(k: nat) {
      k < flowNum && Releasable(k) && !GoodRow(k)
    }

    /** All rows below `k` can be released, and row `k` is acceptable but starts before its predecessor. */
    ghost predicate FirstEarly(k: nat) {
      k < flowNum && Releasable(k) && GoodRow(k) && file[k].start < Previous(k)
    }

    lemma OutcomeIsExact()
      requires Valid() && outcome != Running
      ensures outcome == Done <==> Releasable(flowNum)
      ensures forall k: nat :: outcome == BadRow(k) <==> FirstBad(k)
      ensures forall k: nat :: outcome == NegativeDelay(k) <==> FirstEarly(k)
    {
      hide Released, PortsOk, Releasable, GoodRow;
      RowBelow(flowNum, idx);
      forall k: nat
        ensures FirstBad(k) || FirstEarly(k) ==> k == idx
      {
        RowBelow(idx, k);
        RowBelow(k, idx);
      }
    }

    lemma RowBelow(k: nat, i: nat)
      ensures Releasable(k) && i < k ==> GoodRow(i) && i < |file| && Previous(i) <= file[i].start
    {
    }

    /** A flow that was started reports its completion, for the first time. */
    method QpFinish(ghost k: nat)
      requires Valid() && k < |log| && k !in finished
      modifies this`completed, this`finished
      ensures Valid() && finished == old(finished) + {k} && completed == old(completed) + 1
    {
      completed := completed + 1;
      finished := finished + {k};
    }

    lemma FinishedFit()
      requires Valid()
      ensures completed <= idx
    {
      FewerThan(finished, |log|);
    }

    /** The counts that the status line shows add up in every reachable state. */
    method CollectFlowStatus() returns (status: FlowStatus)
      requires Valid()
      ensures status.started == |log| && status.completed == |finished|
      ensures status.pending + status.active + status.completed == flowNum
    {
      FinishedFit();
      status := FlowStatus(idx, completed,
        if idx <= flowNum then flowNum - idx else 0,
        if idx >= completed then idx - completed else 0);
    }
  }

  lemma {:induction false} FewerThan(s: set<nat>, n: nat)
    requires forall k :: k in s ==> k < n
    ensures |s| <= n
  {
    if n > 0 {
      FewerThan(s - {n - 1}, n - 1);
    } else {
      assert s == {};
    }
  }
}
