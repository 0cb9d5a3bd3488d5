/** The monitor's state, updated in place at every firing, and the bottleneck it finally reports. */
module QueueMonitor {
  import opened Collections
  import opened Monitor
  import opened Reals
  import opened Words

  type Results = map<Key, BottleneckSample>
  type Histograms = map<(nat, nat), seq<nat>>

  function Prior(r: Results, k: Key): BottleneckSample {
    if k in r then r[k] else FRESH
  }

  function PriorHist(h: Histograms, sw: nat, port: nat): seq<nat> {
    if (sw, port) in h then h[(sw, port)] else []
  }

  /** Queue `k` comes before place (i, j, q) of the sweep over switches, ports and priority groups. */
  predicate Passed(k: Key, i: nat, j: nat, q: nat) {
    Precedes(k, Key(i, j, q))
  }

  class QueueMonitor {
    const isSwitch: seq<bool>      // by node id
    const devices: seq<nat>        // devices of each node; device 0 is not a port
    const qCnt: nat                // priority groups of a switch
    const pCnt: nat                // ports that the live status looks at
    var results: Results
    var histograms: Histograms
    ghost var trace: seq<Snapshot>

    predicate WatchedPort(sw: nat, port: nat) {
      sw < |isSwitch| && sw < |devices| && isSwitch[sw] && 1 <= port < devices[sw]
    }

    predicate Watched(k: Key) {
      WatchedPort(k.sw, k.port) && k.pg < qCnt
    }

    ghost predicate Summarised(r: Results, t: seq<Snapshot>) {
      forall k :: if Watched(k) && t != [] then k in r && Summarises(r[k], t, k) else k !in r
    }

    ghost predicate Counted(h: Histograms, t: seq<Snapshot>) {
      forall sw: nat, port: nat :: HistogramOk(PriorHist(h, sw, port),
                                               if WatchedPort(sw, port) then t else [], sw, port, qCnt)
    }

    /** Every watched queue is summarised, and every watched port counted, over the whole trace. */
    ghost predicate Valid()
      reads this
    {
      |isSwitch| == |devices| && Summarised(results, trace) && Counted(histograms, trace)
    }

    constructor (isSwitch: seq<bool>, devices: seq<nat>, qCnt: nat, pCnt: nat)
      requires |isSwitch| == |devices|
      ensures Valid() && trace == []
      ensures this.isSwitch == isSwitch && this.devices == devices && this.qCnt == qCnt && this.pCnt == pCnt
    {
      this.isSwitch, this.devices, this.qCnt, this.pCnt := isSwitch, devices, qCnt, pCnt;
      results, histograms, trace := map[], map[], [];
    }

    /** The sweep has updated exactly the watched queues before place (i, j, q). */
    ghost predicate Swept(r0: Results, r: Results, snap: Snapshot, i: nat, j: nat, q: nat) {
      forall k :: if Watched(k) && Passed(k, i, j, q) then k in r && r[k] == Update(Prior(r0, k), snap(k))
                  else (k in r <==> k in r0) && (k in r ==> r[k] == r0[k])
    }

    ghost predicate SweptPorts(h0: Histograms, h: Histograms, snap: Snapshot, i: nat, j: nat) {
      forall sw: nat, port: nat :: PriorHist(h, sw, port) ==
        if WatchedPort(sw, port) && (sw < i || (sw == i && port < j))
        then Add(PriorHist(h0, sw, port), QueueTotal(snap, sw, port, qCnt)) else PriorHist(h0, sw, port)
    }

    lemma SweepOne(r0: Results, r: Results, snap: Snapshot, i: nat, j: nat, q: nat)
      requires Swept(r0, r, snap, i, j, q) && WatchedPort(i, j) && q < qCnt
      ensures var k := Key(i, j, q); Swept(r0, r[k := Update(Prior(r, k), snap(k))], snap, i, j, q + 1)
    {
      var k := Key(i, j, q);
      assert Prior(r, k) == Prior(r0, k);
    }

    lemma SweepPort(r0: Results, r: Results, snap: Snapshot, i: nat, j: nat)
      requires Swept(r0, r, snap, i, j, qCnt)
      ensures Swept(r0, r, snap, i, j + 1, 0)
    {
      forall k | Watched(k)
        ensures Passed(k, i, j, qCnt) <==> Passed(k, i, j + 1, 0)
      {
      }
    }

    lemma SweepSwitch(r0: Results, r: Results, h0: Histograms, h: Histograms, snap: Snapshot, i: nat, j: nat)
      requires Swept(r0, r, snap, i, j, 0) && SweptPorts(h0, h, snap, i, j) && i < |isSwitch| == |devices|
      requires 1 <= j && (isSwitch[i] ==> devices[i] <= j)
      ensures Swept(r0, r, snap, i + 1, 1, 0) && SweptPorts(h0, h, snap, i + 1, 1)
    {
      forall k | Watched(k)
        ensures Passed(k, i, j, 0) <==> Passed(k, i + 1, 1, 0)
      {
      }
    }

    /** The loop over the priority groups of one port. */
    method WatchPort(i: nat, j: nat, snap: Snapshot, ghost r0: Results)
      requires WatchedPort(i, j) && Swept(r0, results, snap, i, j, 0)
      modifies this`results, this`histograms
      ensures Swept(r0, results, snap, i, j + 1, 0)
      ensures histograms == old(histograms)[(i, j) := Add(PriorHist(old(histograms), i, j),
                                                          QueueTotal(snap, i, j, qCnt))]
    {
      hide Swept, Update, Add, Prior;
      var size := 0;
      for q := 0 to qCnt
        invariant Swept(r0, results, snap, i, j, q) && size == QueueTotal(snap, i, j, q)
        invariant histograms == old(histograms)
      {
        var k := Key(i, j, q);
        size := (size + snap(k).egress) % WORD32;
        SweepOne(r0, results, snap, i, j, q);
        results := results[k := Update(Prior(results, k), snap(k))];
      }
      SweepPort(r0, results, snap, i, j);
      histograms := histograms[(i, j) := Add(PriorHist(histograms, i, j), size)];
    }

    /** One firing. */
    method MonitorBuffer(snap: Snapshot)
      requires Valid()
      modifies this
      ensures Valid() && trace == old(trace) + [snap]
    {
      hide Swept, SweptPorts, Add, Counted, Summarised;
      ghost var r0, h0 := results, histograms;
      SweepStart(results, histograms, snap);
      for i := 0 to |isSwitch|
        invariant Swept(r0, results, snap, i, 1, 0) && SweptPorts(h0, histograms, snap, i, 1) && trace == old(trace)
      {
        if isSwitch[i] {
          var j := 1;
          while j < devices[i]
            invariant 1 <= j && Swept(r0, results, snap, i, j, 0) && SweptPorts(h0, histograms, snap, i, j) &&
                      trace == old(trace)
          {
            ghost var h := histograms;
            WatchPort(i, j, snap, r0);
            CountOne(h0, h, histograms, snap, i, j);
            j := j + 1;
          }
          SweepSwitch(r0, results, h0, histograms, snap, i, j);
        } else {
          SweepSwitch(r0, results, h0, histograms, snap, i, 1);
        }
      }
      SweepEnds(r0, results, h0, histograms, snap, trace);
      trace := trace + [snap];
    }

    lemma SweepStart(r: Results, h: Histograms, snap: Snapshot)
      ensures Swept(r, r, snap, 0, 1, 0) && SweptPorts(h, h, snap, 0, 1)
    {
    }

    lemma CountOne(h0: Histograms, h: Histograms, h': Histograms, snap: Snapshot, i: nat, j: nat)
      requires SweptPorts(h0, h, snap, i, j) && WatchedPort(i, j)
      requires h' == h[(i, j) := Add(PriorHist(h, i, j), QueueTotal(snap, i, j, qCnt))]
      ensures SweptPorts(h0, h', snap, i, j + 1)
    {
      forall sw: nat, port: nat
        ensures PriorHist(h', sw, port) ==
          if WatchedPort(sw, port) && (sw < i || (sw == i && port < j + 1))
          then Add(PriorHist(h0, sw, port), QueueTotal(snap, sw, port, qCnt)) else PriorHist(h0, sw, port)
      {
        assert PriorHist(h, sw, port) ==
          if WatchedPort(sw, port) && (sw < i || (sw == i && port < j))
          then Add(PriorHist(h0, sw, port), QueueTotal(snap, sw, port, qCnt)) else PriorHist(h0, sw, port);
      }
    }

    lemma SweepEnds(r0: Results, r: Results, h0: Histograms, h: Histograms, snap: Snapshot, t: seq<Snapshot>)
      requires |isSwitch| == |devices| && Summarised(r0, t) && Counted(h0, t)
      requires Swept(r0, r, snap, |isSwitch|, 1, 0) && SweptPorts(h0, h, snap, |isSwitch|, 1)
      ensures Summarised(r, t + [snap]) && Counted(h, t + [snap])
    {
      forall k
        ensures if Watched(k) then k in r && Summarises(r[k], t + [snap], k) else k !in r
      {
        assert Watched(k) ==> Passed(k, |isSwitch|, 1, 0);
        SummaryAdvances(r0, t, snap, k);
      }
      forall sw: nat, port: nat
        ensures HistogramOk(PriorHist(h, sw, port), if WatchedPort(sw, port) then t + [snap] else [], sw, port, qCnt)
      {
        assert HistogramOk(PriorHist(h0, sw, port), if WatchedPort(sw, port) then t else [], sw, port, qCnt);
        if WatchedPort(sw, port) {
          AddCounts(PriorHist(h0, sw, port), t, snap, sw, port, qCnt);
        }
      }
    }

    lemma SummaryAdvances(r0: Results, t: seq<Snapshot>, snap: Snapshot, k: Key)
      requires Summarised(r0, t)
      ensures Watched(k) ==> Summarises(Update(Prior(r0, k), snap(k)), t + [snap], k)
    {
      if Watched(k) {
        if t == [] {
          FreshSummarises(k);
        }
        assert Summarises(Prior(r0, k), t, k);
        UpdateSummarises(Prior(r0, k), t, snap, k);
      }
    }

    /** write_bottleneck_summary: the best queue outside priority group 0, over the summaries in listing order. */
    method WriteSummary() returns (best: Bottleneck)
      ensures IsBest(best, Contenders(results), MaxEgressOf(results), KmaxOf(results))
    {
      hide IsBest, Ratio;
      best := NoBottleneck;
      var todo := results.Keys;
      ghost var seen: set<Key> := {};
      NoneBest(MaxEgressOf(results), KmaxOf(results));
      while todo != {}
        invariant IsBest(best, seen, MaxEgressOf(results), KmaxOf(results))
        invariant todo <= results.Keys && seen == (set k | k in results && k !in todo && k.pg != 0)
        invariant forall j, k :: j in seen && k in todo ==> Precedes(j, k)
        decreases todo
      {
        var k := First(todo);
        todo := todo - {k};
        if k.pg != 0 {
          var s := results[k];
          BestGrows(best, seen, MaxEgressOf(results), KmaxOf(results), k);
          if best.NoBottleneck? || Ratio(s.maxEgress, s.kmax) > Ratio(best.egress, best.kmax) ||
             (Ratio(s.maxEgress, s.kmax) == Ratio(best.egress, best.kmax) && s.maxEgress > best.egress) {
            best := Bottleneck(k, s.maxEgress, s.kmax);
          }
          seen := seen + {k};
        }
      }
      assert seen == Contenders(results);
    }

    /** CollectBottleneckStatus: the best live queue outside priority group 0, over ports below `pCnt`, with its
        settings, the numbers of paused and marking queues and the bytes in all of them. */
    method CollectStatus(snap: Snapshot) returns (status: Status)
      requires |isSwitch| == |devices|
      ensures IsStatus(status, LiveKeys(), snap)
      ensures forall k :: k in LiveKeys() <==>
                && k.sw < |isSwitch| && isSwitch[k.sw] && 1 <= k.port < devices[k.sw]
                && k.port < pCnt && 1 <= k.pg < qCnt
    {
      hide IsStatus, Ratio, Add64, MarksEcn;
      status := NO_STATUS;
      ghost var keys: set<Key> := {};
      NoStatus(snap);
      for i := 0 to |isSwitch|
        invariant IsStatus(status, keys, snap)
        invariant forall k :: k in keys <==> Live(k) && Passed(k, i, 1, 1)
      {
        if isSwitch[i] {
          var port := 1;
          while port < devices[i] && port < pCnt
            invariant 1 <= port && IsStatus(status, keys, snap)
            invariant forall k :: k in keys <==> Live(k) && Passed(k, i, port, 1)
          {
            var pg := 1;
            while pg < qCnt
              invariant 1 <= pg && IsStatus(status, keys, snap)
              invariant forall k :: k in keys <==> Live(k) && Passed(k, i, port, pg)
            {
              var k := Key(i, port, pg);
              var r := snap(k);
              StatusGrows(status, keys, snap, k);
              var best := status.best;
              status := status.(
                bytes := Add64(status.bytes, r.egress),
                paused := if r.paused then (status.paused + 1) % WORD32 else status.paused,
                marking := if MarksEcn(r) then (status.marking + 1) % WORD32 else status.marking);
              if best.NoBottleneck? || Ratio(r.egress, r.kmax) > Ratio(best.egress, best.kmax) ||
                 (Ratio(r.egress, r.kmax) == Ratio(best.egress, best.kmax) && r.egress > best.egress) {
                status := status.(
                  best := Bottleneck(k, r.egress, r.kmax),
                  kmin := r.kmin, threshold := r.threshold, used := r.used, buffer := r.buffer);
              }
              keys := keys + {k};
              pg := pg + 1;
            }
            port := port + 1;
          }
        }
      }
      assert keys == LiveKeys();
    }

    // ----- what is kept of each queue and port

    /** After any firings there is a sample for exactly the queues of the switches' ports, and it holds what it should:
        for each measure the greatest value ever read, for the threshold the least, and whether ECN marking or a pause
        was due at some firing. */
    lemma SampleMeans(k: Key)
      requires Valid() && trace != []
      ensures k in results <==> k.sw < |isSwitch| && isSwitch[k.sw] && 1 <= k.port < devices[k.sw] && k.pg < qCnt
      ensures k in results ==> IsSampleOf(results[k], trace, k)
    {
      if k in results {
        assert Watched(k) && Summarises(results[k], trace, k);
        SampleIs(results[k], trace, k);
      }
    }

    /** The bucket of a port counts, modulo 2^32, the firings at which the bytes queued in all its priority groups,
        themselves added in 32 bits, were between 1000 b and 1000 b + 999. */
    lemma BucketMeans(sw: nat, port: nat, b: nat)
      requires Valid() && sw < |isSwitch| && isSwitch[sw] && 1 <= port < devices[sw]
      ensures
        At(PriorHist(histograms, sw, port), b) ==
          |set n | 0 <= n < |trace| &&
                   1000 * b <= Total(PortKeys(sw, port, qCnt), LiveEgress(trace[n])) % 0x1_0000_0000 < 1000 * (b + 1)|
          % 0x1_0000_0000
    {
      assert HistogramOk(PriorHist(histograms, sw, port), trace, sw, port, qCnt);
      CountInIs(trace, sw, port, qCnt, b);
      hide At, CountIn, QueueTotal, Total, PortKeys, Summarised, Counted;
      forall n | 0 <= n < |trace|
        ensures QueueTotal(trace[n], sw, port, qCnt) == Total(PortKeys(sw, port, qCnt), LiveEgress(trace[n])) % WORD32
      {
        QueueTotalIs(trace[n], sw, port, qCnt);
      }
      assert Firings(trace, sw, port, qCnt, b) ==
             set n | 0 <= n < |trace| &&
                     1000 * b <= Total(PortKeys(sw, port, qCnt), LiveEgress(trace[n])) % 0x1_0000_0000 < 1000 * (b + 1);
    }

    // ----- the report against the whole trace

    /** A port's kmax at the last firing: the one that its summary keeps. */
    ghost function LastKmax(k: Key): nat
      requires trace != []
      reads this`trace
    {
      trace[|trace| - 1](k).kmax
    }

    ghost predicate FixedKmax()
      requires trace != []
      reads this`trace
    {
      forall t, k :: t in trace && Watched(k) ==> t(k).kmax == LastKmax(k)
    }

    /** No reading of a queue ranks above its summary's maximum, which is some reading. */
    lemma SummaryBounds(k: Key)
      requires Valid() && trace != [] && Watched(k)
      ensures k in results && results[k].kmax == LastKmax(k)
      ensures forall t :: t in trace ==> !RankLess(results[k].maxEgress, LastKmax(k), t(k).egress, LastKmax(k))
      ensures exists t :: t in trace && t(k).egress == results[k].maxEgress
    {
      var last := trace[|trace| - 1];
      assert last in trace && Summarises(results[k], trace, k);
      var m := results[k].maxEgress;
      assert IsMax(trace, EgressOf(k), m);
      forall t | t in trace
        ensures !RankLess(m, LastKmax(k), t(k).egress, LastKmax(k))
      {
        assert EgressOf(k)(t) <= m;
        RatioGrows(t(k).egress, m, LastKmax(k));
      }
      if m == 0 {
        assert EgressOf(k)(last) <= m;
      } else {
        var t :| t in trace && EgressOf(k)(t) == m;
      }
    }

    /** The report is the lexicographic maximum of (egress / kmax, egress) over every reading ever taken outside
        priority group 0, with the kmax of the last firing; it is attained by a reading of the reported queue, and
        among equals the first listed queue wins. */
    lemma ReportIsOverallMaximum(best: Bottleneck)
      requires Valid() && trace != []
      requires IsBest(best, Contenders(results), MaxEgressOf(results), KmaxOf(results))
      ensures best.NoBottleneck? <==> forall k :: Watched(k) ==> k.pg == 0
      ensures best.Bottleneck? ==>
                && Watched(best.key) && best.key.pg != 0 && best.kmax == LastKmax(best.key)
                && exists t :: t in trace && t(best.key).egress == best.egress
      ensures best.Bottleneck? ==> forall t, k :: t in trace && Watched(k) && k.pg != 0 ==>
                && !RankLess(best.egress, best.kmax, t(k).egress, LastKmax(k))
                && (RankLess(t(k).egress, LastKmax(k), best.egress, best.kmax) || k == best.key ||
                    Precedes(best.key, k))
    {
      ContendersWatched();
      hide Ratio, Summarised, Counted;
      if best.Bottleneck? {
        SummaryBounds(best.key);
        forall t, k | t in trace && Watched(k) && k.pg != 0
          ensures !RankLess(best.egress, best.kmax, t(k).egress, LastKmax(k))
          ensures RankLess(t(k).egress, LastKmax(k), best.egress, best.kmax) || k == best.key || Precedes(best.key, k)
        {
          ReportBeats(best, t, k);
        }
      }
    }

    lemma ContendersWatched()
      requires Valid() && trace != []
      ensures forall k :: k in Contenders(results) <==> Watched(k) && k.pg != 0
    {
    }

    lemma ReportBeats(best: Bottleneck, t: Snapshot, k: Key)
      requires Valid() && t in trace && Watched(k) && k.pg != 0
      requires IsBest(best, Contenders(results), MaxEgressOf(results), KmaxOf(results)) && best.Bottleneck?
      ensures !RankLess(best.egress, best.kmax, t(k).egress, LastKmax(k))
      ensures RankLess(t(k).egress, LastKmax(k), best.egress, best.kmax) || k == best.key || Precedes(best.key, k)
    {
      hide Ratio, RankLess, Summarised, Counted, LastKmax;
      SummaryBounds(k);
      assert k in Contenders(results);
      var m := results[k].maxEgress;
      assert MaxEgressOf(results)(k) == m && KmaxOf(results)(k) == LastKmax(k);
      RankChain(t(k).egress, m, LastKmax(k), best.egress, best.kmax);
    }

    /** When no watched port's kmax ever changes, every reading counts with its own kmax. */
    lemma ReportWithFixedKmax(best: Bottleneck)
      requires Valid() && trace != [] && FixedKmax()
      requires IsBest(best, Contenders(results), MaxEgressOf(results), KmaxOf(results)) && best.Bottleneck?
      ensures exists t :: t in trace && t(best.key).egress == best.egress && t(best.key).kmax == best.kmax
      ensures forall t, k :: t in trace && Watched(k) && k.pg != 0 ==>
                && !RankLess(best.egress, best.kmax, t(k).egress, t(k).kmax)
                && (RankLess(t(k).egress, t(k).kmax, best.egress, best.kmax) || k == best.key || Precedes(best.key, k))
    {
      hide RankLess, IsBest, Summarised, Counted;
      ReportIsOverallMaximum(best);
      forall t, k | t in trace && Watched(k) && k.pg != 0
        ensures t(k).kmax == LastKmax(k)
      {
      }
    }

    /** What the live status shows at a sampled instant does not exceed the report, if the kmax of the shown queue was
        at that instant no less than at the last firing. */
    lemma ShownWithinReport(best: Bottleneck, snap: Snapshot, live: Status)
      requires Valid() && snap in trace
      requires IsBest(best, Contenders(results), MaxEgressOf(results), KmaxOf(results))
      requires IsStatus(live, LiveKeys(), snap)
      requires live.best.Bottleneck? ==> Divisor(LastKmax(live.best.key)) <= Divisor(snap(live.best.key).kmax)
      ensures Within(live.best, best)
    {
      ContendersWatched();
      hide Summarised, Counted, LastKmax, Watched;
      if live.best.Bottleneck? {
        var k := live.best.key;
        assert k in LiveKeys() && Live(k);
        assert k in Contenders(results);
        ReportBeats(best, snap, k);
        RatioShrinks(snap(k).egress, LastKmax(k), snap(k).kmax);
        assert live.best.egress == snap(k).egress && live.best.kmax == snap(k).kmax;
      }
    }

    /** No live queue's kmax was at any firing below what it is at the last one. */
    ghost predicate NeverRaised(schedule: seq<Key -> nat>)
      requires schedule != []
    {
      forall i, k :: 0 <= i < |schedule| && Live(k) ==> Divisor(schedule[|schedule| - 1](k)) <= Divisor(schedule[i](k))
    }

    /** While no live queue's kmax is raised, and so in particular while none changes, every live status taken at a
        firing stays within the report. */
    lemma ReportBoundsLiveStatus(schedule: seq<Key -> nat>, best: Bottleneck, i: nat, live: Status)
      requires Valid() && i < |trace| && Scheduled(trace, schedule) && NeverRaised(schedule)
      requires IsBest(best, Contenders(results), MaxEgressOf(results), KmaxOf(results))
      requires IsStatus(live, LiveKeys(), trace[i])
      ensures Within(live.best, best)
    {
      hide Summarised, Counted, Watched, Within, Divisor;
      if live.best.Bottleneck? {
        assert live.best.key in LiveKeys();
      }
      ShownWithinReport(best, trace[i], live);
    }

    /** The condition is exact: whenever a schedule of kmax values has some live queue's kmax raised after firing `i`,
        there is a run with just these values in which the live status at firing `i` shows more than the final
        report. */
    method RaisedKmaxHidesPeak(schedule: seq<Key -> nat>, i: nat, k: Key) returns (shown: Status, reported: Bottleneck)
      requires Valid() && trace == [] && i < |schedule| && Live(k)
      requires Divisor(schedule[|schedule| - 1](k)) > Divisor(schedule[i](k))
      modifies this
      ensures Valid() && Scheduled(trace, schedule) && i < |trace|
      ensures IsStatus(shown, LiveKeys(), trace[i])
      ensures IsBest(reported, Contenders(results), MaxEgressOf(results), KmaxOf(results))
      ensures !Within(shown.best, reported)
    {
      hide IsStatus, IsBest, Ratio, Divisor, Summarised, Counted, Within, Watched;
      shown := NO_STATUS;
      for j := 0 to |schedule|
        invariant Valid() && |trace| == j && forall n :: 0 <= n < j ==> trace[n] == PeakAt(schedule, i, k, n)
        invariant i < j ==> IsStatus(shown, LiveKeys(), trace[i])
      {
        var snap := PeakAt(schedule, i, k, j);
        MonitorBuffer(snap);
        if j == i {
          shown := CollectStatus(snap);
        }
      }
      reported := WriteSummary();
      PeakIsHidden(schedule, i, k, shown, reported);
    }

    /** With one byte in queue `k` at firing `i` and none anywhere else, ever. */
    lemma PeakIsHidden(schedule: seq<Key -> nat>, i: nat, k: Key, shown: Status, reported: Bottleneck)
      requires Valid() && i < |trace| == |schedule| && Live(k)
      requires forall n :: 0 <= n < |trace| ==> trace[n] == PeakAt(schedule, i, k, n)
      requires Divisor(schedule[|schedule| - 1](k)) > Divisor(schedule[i](k))
      requires IsStatus(shown, LiveKeys(), trace[i])
      requires IsBest(reported, Contenders(results), MaxEgressOf(results), KmaxOf(results))
      ensures !Within(shown.best, reported)
    {
      PeakIsShown(schedule, i, k, shown);
      hide IsBest, IsStatus, Ratio, Divisor, Summarised, Counted, Watched, PeakAt;
      PeakReported(schedule, i, k, reported);
    }

    lemma PeakIsShown(schedule: seq<Key -> nat>, i: nat, k: Key, shown: Status)
      requires i < |trace| == |schedule| && Live(k) && trace[i] == PeakAt(schedule, i, k, i)
      requires IsStatus(shown, LiveKeys(), trace[i])
      ensures shown.best.Bottleneck? && Ratio(1, schedule[i](k)) <= Ratio(shown.best.egress, shown.best.kmax)
    {
      hide IsBest, Ratio, Total, Shows, Watched;
      assert k in LiveKeys();
      BestIsNoLess(shown.best, LiveKeys(), LiveEgress(trace[i]), LiveKmax(trace[i]), k);
    }

    lemma PeakReported(schedule: seq<Key -> nat>, i: nat, k: Key, reported: Bottleneck)
      requires Valid() && i < |trace| == |schedule|
      requires forall n :: 0 <= n < |trace| ==> trace[n] == PeakAt(schedule, i, k, n)
      requires Divisor(schedule[|schedule| - 1](k)) > Divisor(schedule[i](k))
      requires IsBest(reported, Contenders(results), MaxEgressOf(results), KmaxOf(results)) && reported.Bottleneck?
      ensures Ratio(reported.egress, reported.kmax) < Ratio(1, schedule[i](k))
    {
      hide IsBest, Ratio, Divisor, Summarised, Counted, Watched;
      ReportIsOverallMaximum(reported);
      var t :| t in trace && t(reported.key).egress == reported.egress;
      var n :| 0 <= n < |trace| && trace[n] == t;
      SmallReport(reported.egress, reported.kmax, schedule[|schedule| - 1](k), schedule[i](k), reported.key == k);
    }

    /** The queues that the live status looks at. */
    predicate Live(k: Key) {
      Watched(k) && k.port < pCnt && k.pg >= 1
    }

    ghost function LiveKeys(): (keys: set<Key>)
      ensures forall k :: k in keys <==> Live(k)
    {
      set i, j, q | 0 <= i < |isSwitch| && 0 <= j < pCnt && 0 <= q < qCnt && Live(Key(i, j, q)) :: Key(i, j, q)
    }
  }

  function MaxEgressOf(r: Results): Key -> nat {
    (k: Key) => Prior(r, k).maxEgress
  }

  function KmaxOf(r: Results): Key -> nat {
    (k: Key) => Prior(r, k).kmax
  }

  function LiveEgress(snap: Snapshot): Key -> nat {
    (k: Key) => snap(k).egress
  }

  function LiveKmax(snap: Snapshot): Key -> nat {
    (k: Key) => snap(k).kmax
  }

  function PausedIn(snap: Snapshot): Key -> nat {
    (k: Key) => if snap(k).paused then 1 else 0
  }

  function MarkingIn(snap: Snapshot): Key -> nat {
    (k: Key) => if snap(k).kmin > 0 && snap(k).egress >= snap(k).kmin then 1 else 0
  }

  function Contenders(r: Results): set<Key> {
    set k | k in r && k.pg != 0
  }

  /** The live status: the best queue with its settings and the buffer of its switch, how many queues are paused, how
      many mark, and the bytes in all of them. */
  datatype Status = Status(
    best: Bottleneck, kmin: nat, threshold: nat, used: nat, buffer: nat, paused: nat, marking: nat, bytes: nat)

  const NO_STATUS := Status(NoBottleneck, 0, 0, 0, 0, 0, 0, 0)

  ghost predicate IsStatus(st: Status, keys: set<Key>, snap: Snapshot) {
    && IsBest(st.best, keys, LiveEgress(snap), LiveKmax(snap))
    && Shows(st, snap)
    && st.paused == Total(keys, PausedIn(snap)) % WORD32
    && st.marking == Total(keys, MarkingIn(snap)) % WORD32
    && st.bytes == Wrap64(Total(keys, LiveEgress(snap)))
  }

  /** The settings are those of the best queue. */
  ghost predicate Shows(st: Status, snap: Snapshot) {
    st.best.Bottleneck? ==>
      var r := snap(st.best.key);
      st.kmin == r.kmin && st.threshold == r.threshold && st.used == r.used && st.buffer == r.buffer
  }

  lemma NoStatus(snap: Snapshot)
    ensures IsStatus(NO_STATUS, {}, snap)
  {
    NoneBest(LiveEgress(snap), LiveKmax(snap));
  }

  lemma StatusGrows(st: Status, keys: set<Key>, snap: Snapshot, k: Key)
    requires IsStatus(st, keys, snap) && forall j :: j in keys ==> Precedes(j, k)
    ensures
      var r := snap(k);
      var counted := st.(
        bytes := Add64(st.bytes, r.egress),
        paused := if r.paused then (st.paused + 1) % WORD32 else st.paused,
        marking := if MarksEcn(r) then (st.marking + 1) % WORD32 else st.marking);
      IsStatus(
        if st.best.NoBottleneck? || RankLess(st.best.egress, st.best.kmax, r.egress, r.kmax)
        then counted.(best := Bottleneck(k, r.egress, r.kmax),
                      kmin := r.kmin, threshold := r.threshold, used := r.used, buffer := r.buffer)
        else counted,
        keys + {k}, snap)
  {
    hide IsBest, RankLess, Total, Add64, Wrap64;
    BestGrows(st.best, keys, LiveEgress(snap), LiveKmax(snap), k);
    TotalGrows(keys, PausedIn(snap), k);
    TotalGrows(keys, MarkingIn(snap), k);
    TotalGrows(keys, LiveEgress(snap), k);
    AddWraps(Total(keys, LiveEgress(snap)), snap(k).egress);
  }

  /** The sum of `f` over the keys. */
  ghost function Total(keys: set<Key>, f: Key -> nat): nat {
    if keys == {} then 0
    else
      var k := LastOf(keys);
      Total(keys - {k}, f) + f(k)
  }

  /** The last key in listing order. */
  ghost function LastOf(keys: set<Key>): (k: Key)
    requires keys != {}
    ensures k in keys && forall j :: j in keys && j != k ==> Precedes(j, k)
  {
    var some :| some in keys;
    assert forall j :: j in keys ==> j in keys - {some} || j == some;
    if keys - {some} == {} then some
    else
      var rest := LastOf(keys - {some});
      if Precedes(rest, some) then some else rest
  }

  lemma TotalGrows(keys: set<Key>, f: Key -> nat, k: Key)
    requires forall j :: j in keys ==> Precedes(j, k)
    ensures Total(keys + {k}, f) == Total(keys, f) + f(k)
  {
    var all := keys + {k};
    assert k in all && LastOf(all) == k;
    assert all - {k} == keys;
  }

  lemma NoneBest(egress: Key -> nat, kmax: Key -> nat)
    ensures IsBest(NoBottleneck, {}, egress, kmax)
  {
  }

  /** The first key in listing order. */
  method First(s: set<Key>) returns (k: Key)
    requires s != {}
    ensures k in s && forall j :: j in s && j != k ==> Precedes(k, j)
  {
    k := Pick(s);
    var rest := s - {k};
    while rest != {}
      invariant k in s && k !in rest && forall j :: j in s && j !in rest && j != k ==> Precedes(k, j)
      decreases rest
    {
      var j := Pick(rest);
      rest := rest - {j};
      if Precedes(j, k) { k := j; }
    }
  }

  /** What ranks no higher than `m` ranks no higher than anything `m` ranks no higher than. */
  lemma RankChain(e: nat, m: nat, kmax: nat, e': nat, kmax': nat)
    requires !RankLess(m, kmax, e, kmax)
    ensures !RankLess(e', kmax', m, kmax) ==> !RankLess(e', kmax', e, kmax)
    ensures RankLess(m, kmax, e', kmax') ==> RankLess(e, kmax, e', kmax') && !RankLess(e', kmax', e, kmax)
    ensures !RankLess(m, kmax, m, kmax)
  {
    hide Ratio;
  }

  ghost predicate IsSampleOf(s: BottleneckSample, trace: seq<Snapshot>, k: Key)
    requires trace != []
  {
    && (forall t :: t in trace ==> t(k).egress <= s.maxEgress)
    && (exists t :: t in trace && t(k).egress == s.maxEgress)
    && (forall t :: t in trace ==> t(k).shared <= s.maxShared)
    && (exists t :: t in trace && t(k).shared == s.maxShared)
    && (forall t :: t in trace ==> t(k).ingress <= s.maxIngress)
    && (exists t :: t in trace && t(k).ingress == s.maxIngress)
    && (forall t :: t in trace ==> t(k).hdrm <= s.maxHdrm)
    && (exists t :: t in trace && t(k).hdrm == s.maxHdrm)
    && (forall t :: t in trace ==> s.minThreshold <= t(k).threshold)
    && (s.minThreshold == 0xffff_ffff || exists t :: t in trace && t(k).threshold == s.minThreshold)
    && s.kmin == trace[|trace| - 1](k).kmin && s.kmax == trace[|trace| - 1](k).kmax
    && s.samples == |trace| % 0x1_0000_0000
    && (s.ecnSeen <==> exists t :: t in trace && t(k).kmin > 0 && t(k).egress >= t(k).kmin)
    && (s.pauseSeen <==> exists t :: t in trace && (t(k).paused || t(k).hdrm > 0 || t(k).shared >= t(k).threshold))
  }

  lemma SampleIs(s: BottleneckSample, trace: seq<Snapshot>, k: Key)
    requires Summarises(s, trace, k) && trace != []
    ensures IsSampleOf(s, trace, k)
  {
    MaxAttained(trace, EgressOf(k), s.maxEgress);
    MaxAttained(trace, SharedOf(k), s.maxShared);
    MaxAttained(trace, IngressOf(k), s.maxIngress);
    MaxAttained(trace, HdrmOf(k), s.maxHdrm);
    FlagsMean(s, trace, k);
    hide IsMax, Happened, IsMinThreshold, MarksEcn, Pauses;
  }

  lemma MaxAttained(trace: seq<Snapshot>, f: Snapshot -> nat, m: nat)
    requires IsMax(trace, f, m) && trace != []
    ensures (forall t :: t in trace ==> f(t) <= m) && exists t :: t in trace && f(t) == m
  {
    if m == 0 {
      assert trace[0] in trace && f(trace[0]) == m;
    }
  }

  lemma FlagsMean(s: BottleneckSample, trace: seq<Snapshot>, k: Key)
    requires Summarises(s, trace, k)
    ensures s.ecnSeen <==> exists t :: t in trace && t(k).kmin > 0 && t(k).egress >= t(k).kmin
    ensures s.pauseSeen <==> exists t :: t in trace && (t(k).paused || t(k).hdrm > 0 || t(k).shared >= t(k).threshold)
    ensures forall t :: t in trace ==> s.minThreshold <= t(k).threshold
    ensures s.minThreshold == 0xffff_ffff || exists t :: t in trace && t(k).threshold == s.minThreshold
  {
  }

  /** The queues of one port in the first `q` priority groups. */
  ghost function PortKeys(sw: nat, port: nat, q: nat): (keys: set<Key>)
    ensures forall k :: k in keys <==> k.sw == sw && k.port == port && k.pg < q
  {
    set pg: nat | 0 <= pg < q :: Key(sw, port, pg)
  }

  lemma {:induction false} QueueTotalIs(snap: Snapshot, sw: nat, port: nat, q: nat)
    ensures QueueTotal(snap, sw, port, q) == Total(PortKeys(sw, port, q), LiveEgress(snap)) % 0x1_0000_0000
  {
    PortTotal(snap, sw, port, q);
    hide Total, PortKeys, LiveEgress;
    if q > 0 {
      QueueTotalIs(snap, sw, port, q - 1);
      WrapsOnce(Total(PortKeys(sw, port, q - 1), LiveEgress(snap)), snap(Key(sw, port, q - 1)).egress);
    }
  }

  lemma PortTotal(snap: Snapshot, sw: nat, port: nat, q: nat)
    ensures Total(PortKeys(sw, port, q), LiveEgress(snap)) ==
              if q == 0 then 0
              else Total(PortKeys(sw, port, q - 1), LiveEgress(snap)) + snap(Key(sw, port, q - 1)).egress
  {
    if q == 0 {
      assert PortKeys(sw, port, 0) == {};
    } else {
      hide Total;
      var last := Key(sw, port, q - 1);
      assert PortKeys(sw, port, q) == PortKeys(sw, port, q - 1) + {last};
      TotalGrows(PortKeys(sw, port, q - 1), LiveEgress(snap), last);
    }
  }

  lemma WrapsOnce(a: nat, b: nat)
    ensures (a % 0x1_0000_0000 + b) % 0x1_0000_0000 == (a + b) % 0x1_0000_0000
  {
    var k := a / 0x1_0000_0000;
    assert a + b == k * 0x1_0000_0000 + (a % 0x1_0000_0000 + b);
  }

  /** The order in which queues compete, in whole numbers: a queue without kmax counts as one with kmax 1. */
  lemma RankMeans(e1: nat, k1: nat, e2: nat, k2: nat)
    ensures
      var d1, d2 := if k1 > 0 then k1 else 1, if k2 > 0 then k2 else 1;
      RankLess(e1, k1, e2, k2) <==> e1 * d2 < e2 * d1 || (e1 * d2 == e2 * d1 && e1 < e2)
  {
    var d1, d2 := Divisor(k1), Divisor(k2);
    DividesBy(e1, k1);
    DividesBy(e2, k2);
    assert d1 > 0 && d2 > 0;
    hide Ratio;
    CrossMultiply(e1, d1, e2, d2);
  }

  lemma CrossMultiply(e1: nat, d1: nat, e2: nat, d2: nat)
    requires d1 > 0 && d2 > 0
    ensures e1 as real / d1 as real < e2 as real / d2 as real <==> e1 * d2 < e2 * d1
    ensures e1 as real / d1 as real == e2 as real / d2 as real <==> e1 * d2 == e2 * d1
  {
    var x, y, a, b := e1 as real / d1 as real, e2 as real / d2 as real, d1 as real, d2 as real;
    Divided(e1 as real, a);
    Divided(e2 as real, b);
    CastProduct(e1, d2);
    CastProduct(e2, d1);
    assert x * (a * b) == (x * a) * b && y * (a * b) == (y * b) * a;
    assert a * b > 0.0;
    Scaled(x, y, a * b);
    Scaled(y, x, a * b);
  }

  /** What a ratio divides by: kmax, or one when there is none. */
  function Divisor(kmax: nat): nat {
    Max(kmax, 1)
  }

  /** A larger kmax never makes a ratio larger, and a smaller one makes some ratio larger. */
  lemma RatioShrinks(egress: nat, last: nat, earlier: nat)
    ensures Divisor(last) <= Divisor(earlier) ==> Ratio(egress, earlier) <= Ratio(egress, last)
    ensures Divisor(last) > Divisor(earlier) && egress > 0 ==> Ratio(egress, earlier) > Ratio(egress, last)
  {
    DividesBy(egress, last);
    DividesBy(egress, earlier);
    DivideLess(egress as real, Divisor(last) as real, Divisor(earlier) as real);
    DivideLess(egress as real, Divisor(earlier) as real, Divisor(last) as real);
  }

  lemma DividesBy(egress: nat, kmax: nat)
    ensures Ratio(egress, kmax) == egress as real / Divisor(kmax) as real
  {
  }

  /** The shown ratio does not exceed the reported one; when something is shown, something is reported. */
  ghost predicate Within(shown: Bottleneck, reported: Bottleneck) {
    shown.Bottleneck? ==>
      reported.Bottleneck? && Ratio(shown.egress, shown.kmax) <= Ratio(reported.egress, reported.kmax)
  }

  /** At every firing the ports have the kmax values that the schedule gives. */
  ghost predicate Scheduled(trace: seq<Snapshot>, schedule: seq<Key -> nat>) {
    |trace| == |schedule| && forall n, k :: 0 <= n < |trace| ==> trace[n](k).kmax == schedule[n](k)
  }

  /** Firing `n` of the run with one byte in queue `k` at firing `i` and nothing else. */
  function PeakAt(schedule: seq<Key -> nat>, i: nat, k: Key, n: nat): Snapshot
    requires n < |schedule|
  {
    var kmax := schedule[n];
    (q: Key) => Reading(if n == i && q == k then 1 else 0, 0, 0, 0, 1, 0, kmax(q), false, 0, 0)
  }

  lemma BestIsNoLess(best: Bottleneck, keys: set<Key>, egress: Key -> nat, kmax: Key -> nat, k: Key)
    requires IsBest(best, keys, egress, kmax) && k in keys
    ensures best.Bottleneck? && Ratio(egress(k), kmax(k)) <= Ratio(best.egress, best.kmax)
  {
    hide Ratio;
  }

  lemma SmallReport(egress: nat, kmax: nat, last: nat, earlier: nat, same: bool)
    requires Divisor(last) > Divisor(earlier) && egress <= (if same then 1 else 0) && (same ==> kmax == last)
    ensures Ratio(egress, kmax) < Ratio(1, earlier)
  {
    RatioShrinks(1, last, earlier);
    if egress == 0 {
      DividesBy(0, kmax);
      DividesBy(1, earlier);
      Divided(1.0, Divisor(earlier) as real);
    }
  }
}
