/** The queue monitors: histograms and running extremes at every firing, and the final bottleneck. */
module Monitor {
  import opened Reals
  import opened Words

  const NO_THRESHOLD: nat := 0xffff_ffff
  const BUCKET := 1000

  /** A queue: switch, port, priority group. */
  datatype Key = Key(sw: nat, port: nat, pg: nat)

  /** What the switch memory unit shows of one queue at one instant. */
  datatype Reading = Reading(
    egress: nat, ingress: nat, hdrm: nat, shared: nat, threshold: nat, kmin: nat, kmax: nat, paused: bool,
    used: nat, buffer: nat)    // of the whole switch

  /** All queues at one instant. */
  type Snapshot = Key -> Reading

  datatype BottleneckSample = BottleneckSample(
    maxEgress: nat, maxShared: nat, maxIngress: nat, maxHdrm: nat, minThreshold: nat,
    kmin: nat, kmax: nat, samples: nat, ecnSeen: bool, pauseSeen: bool)

  const FRESH := BottleneckSample(0, 0, 0, 0, NO_THRESHOLD, 0, 0, 0, false, false)

  predicate MarksEcn(r: Reading) {
    r.kmin > 0 && r.egress >= r.kmin
  }

  predicate Pauses(r: Reading) {
    r.paused || r.hdrm > 0 || r.shared >= r.threshold
  }

  /** update_bottleneck_sample */
  function Update(s: BottleneckSample, r: Reading): BottleneckSample {
    BottleneckSample(
      Max(s.maxEgress, r.egress), Max(s.maxShared, r.shared), Max(s.maxIngress, r.ingress), Max(s.maxHdrm, r.hdrm),
      Min(s.minThreshold, r.threshold), r.kmin, r.kmax, (s.samples + 1) % WORD32,
      s.ecnSeen || MarksEcn(r), s.pauseSeen || Pauses(r))
  }

  // ----- what the extremes mean over a whole trace of firings

  ghost predicate IsMax(trace: seq<Snapshot>, f: Snapshot -> nat, m: nat) {
    && (forall t :: t in trace ==> f(t) <= m)
    && (m == 0 || exists t :: t in trace && f(t) == m)
  }

  ghost predicate IsMinThreshold(trace: seq<Snapshot>, k: Key, m: nat) {
    && (forall t :: t in trace ==> m <= t(k).threshold)
    && (m == NO_THRESHOLD || exists t :: t in trace && t(k).threshold == m)
  }

  ghost predicate Happened(trace: seq<Snapshot>, p: Snapshot -> bool) {
    exists t :: t in trace && p(t)
  }

  function EgressOf(k: Key): Snapshot -> nat { (t: Snapshot) => t(k).egress }

  function SharedOf(k: Key): Snapshot -> nat { (t: Snapshot) => t(k).shared }

  function IngressOf(k: Key): Snapshot -> nat { (t: Snapshot) => t(k).ingress }

  function HdrmOf(k: Key): Snapshot -> nat { (t: Snapshot) => t(k).hdrm }

  function MarksOf(k: Key): Snapshot -> bool { (t: Snapshot) => MarksEcn(t(k)) }

  function PausesOf(k: Key): Snapshot -> bool { (t: Snapshot) => Pauses(t(k)) }

  /** `s` summarises queue `k` over the trace. */
  ghost predicate Summarises(s: BottleneckSample, trace: seq<Snapshot>, k: Key) {
    && IsMax(trace, EgressOf(k), s.maxEgress)
    && IsMax(trace, SharedOf(k), s.maxShared)
    && IsMax(trace, IngressOf(k), s.maxIngress)
    && IsMax(trace, HdrmOf(k), s.maxHdrm)
    && IsMinThreshold(trace, k, s.minThreshold)
    && s.samples == |trace| % WORD32
    && (s.ecnSeen <==> Happened(trace, MarksOf(k)))
    && (s.pauseSeen <==> Happened(trace, PausesOf(k)))
    && (trace != [] ==> var last := trace[|trace| - 1](k); s.kmin == last.kmin && s.kmax == last.kmax)
  }

  lemma FreshSummarises(k: Key)
    ensures Summarises(FRESH, [], k)
  {
  }

  lemma MaxGrows(trace: seq<Snapshot>, snap: Snapshot, f: Snapshot -> nat, m: nat)
    requires IsMax(trace, f, m)
    ensures IsMax(trace + [snap], f, Max(m, f(snap)))
  {
    forall t | t in trace + [snap]
      ensures f(t) <= Max(m, f(snap))
    {
    }
    if Max(m, f(snap)) != 0 {
      if m < f(snap) {
        assert snap in trace + [snap];
      } else {
        var t :| t in trace && f(t) == m;
        assert t in trace + [snap];
      }
    }
  }

  lemma MinShrinks(trace: seq<Snapshot>, snap: Snapshot, k: Key, m: nat)
    requires IsMinThreshold(trace, k, m)
    ensures IsMinThreshold(trace + [snap], k, Min(m, snap(k).threshold))
  {
    if snap(k).threshold < m {
      assert snap in trace + [snap];
    } else if m != NO_THRESHOLD {
      var t :| t in trace && t(k).threshold == m;
      assert t in trace + [snap];
    }
  }

  lemma HappenedGrows(trace: seq<Snapshot>, snap: Snapshot, p: Snapshot -> bool)
    ensures Happened(trace + [snap], p) <==> Happened(trace, p) || p(snap)
  {
    if Happened(trace, p) {
      var t :| t in trace && p(t);
      assert t in trace + [snap];
    }
    assert snap in trace + [snap];
  }

  /** One more firing keeps a summary a summary. */
  lemma UpdateSummarises(s: BottleneckSample, trace: seq<Snapshot>, snap: Snapshot, k: Key)
    requires Summarises(s, trace, k)
    ensures Summarises(Update(s, snap(k)), trace + [snap], k)
  {
    hide IsMax, IsMinThreshold, Happened, MarksEcn, Pauses, Max, Min;
    MaxGrows(trace, snap, EgressOf(k), s.maxEgress);
    MaxGrows(trace, snap, SharedOf(k), s.maxShared);
    MaxGrows(trace, snap, IngressOf(k), s.maxIngress);
    MaxGrows(trace, snap, HdrmOf(k), s.maxHdrm);
    MinShrinks(trace, snap, k, s.minThreshold);
    HappenedGrows(trace, snap, MarksOf(k));
    HappenedGrows(trace, snap, PausesOf(k));
  }

  // ----- histograms

  /** Bytes queued at a port in the first `q` priority groups, in 32-bit arithmetic. */
  function QueueTotal(snap: Snapshot, sw: nat, port: nat, q: nat): nat {
    if q == 0 then 0 else (QueueTotal(snap, sw, port, q - 1) + snap(Key(sw, port, q - 1)).egress) % WORD32
  }

  function At(h: seq<nat>, b: nat): nat {
    if b < |h| then h[b] else 0
  }

  /** QlenDistribution::add */
  function Add(h: seq<nat>, qlen: nat): seq<nat> {
    var b := qlen / BUCKET;
    var sized := if |h| < b + 1 then h + seq(b + 1 - |h|, _ => 0) else h;
    sized[b := (sized[b] + 1) % WORD32]
  }

  /** The firings that found between 1000 b and 1000 b + 999 bytes queued at the port. */
  function CountIn(trace: seq<Snapshot>, sw: nat, port: nat, q: nat, b: nat): nat {
    if trace == [] then 0
    else
      var n := |trace| - 1;
      CountIn(trace[..n], sw, port, q, b) + if QueueTotal(trace[n], sw, port, q) / BUCKET == b then 1 else 0
  }

  ghost predicate HistogramOk(h: seq<nat>, trace: seq<Snapshot>, sw: nat, port: nat, q: nat) {
    forall b: nat :: At(h, b) == CountIn(trace, sw, port, q, b) % WORD32
  }

  lemma AddAt(h: seq<nat>, qlen: nat, b: nat)
    ensures At(Add(h, qlen), b) == if b == qlen / BUCKET then (At(h, b) + 1) % WORD32 else At(h, b)
  {
  }

  /** One firing adds one to exactly one bucket. */
  lemma AddCounts(h: seq<nat>, trace: seq<Snapshot>, snap: Snapshot, sw: nat, port: nat, q: nat)
    requires HistogramOk(h, trace, sw, port, q)
    ensures HistogramOk(Add(h, QueueTotal(snap, sw, port, q)), trace + [snap], sw, port, q)
  {
    hide Add, At, QueueTotal;
    forall b: nat
      ensures At(Add(h, QueueTotal(snap, sw, port, q)), b) == CountIn(trace + [snap], sw, port, q, b) % WORD32
    {
      assert (trace + [snap])[..|trace|] == trace;
      AddAt(h, QueueTotal(snap, sw, port, q), b);
      assert At(h, b) == CountIn(trace, sw, port, q, b) % WORD32;
    }
  }

  /** The firings whose bytes fall into the bucket. */
  ghost function Firings(trace: seq<Snapshot>, sw: nat, port: nat, q: nat, b: nat): set<int> {
    set n | 0 <= n < |trace| && 1000 * b <= QueueTotal(trace[n], sw, port, q) < 1000 * (b + 1)
  }

  lemma {:induction false} CountInIs(trace: seq<Snapshot>, sw: nat, port: nat, q: nat, b: nat)
    ensures CountIn(trace, sw, port, q, b) == |Firings(trace, sw, port, q, b)|
  {
    hide QueueTotal;
    if trace == [] {
      assert Firings(trace, sw, port, q, b) == {};
    } else {
      CountInIs(trace[..|trace| - 1], sw, port, q, b);
      MoreFirings(trace, sw, port, q, b);
      hide Firings;
    }
  }

  lemma MoreFirings(trace: seq<Snapshot>, sw: nat, port: nat, q: nat, b: nat)
    requires trace != []
    ensures
      var m := |trace| - 1;
      |Firings(trace, sw, port, q, b)| ==
        |Firings(trace[..m], sw, port, q, b)| + if QueueTotal(trace[m], sw, port, q) / BUCKET == b then 1 else 0
  {
    hide QueueTotal;
    var m := |trace| - 1;
    InBucket(QueueTotal(trace[m], sw, port, q), b);
    assert Firings(trace, sw, port, q, b) ==
           Firings(trace[..m], sw, port, q, b) + if QueueTotal(trace[m], sw, port, q) / BUCKET == b then {m} else {};
  }

  lemma InBucket(bytes: nat, b: nat)
    ensures bytes / BUCKET == b <==> 1000 * b <= bytes < 1000 * (b + 1)
  {
  }

  // ----- ranking queues

  function Ratio(egress: nat, kmax: nat): real {
    if kmax > 0 then egress as real / kmax as real else egress as real
  }

  /** The order in which queues compete: by ratio, then by bytes. */
  predicate RankLess(e1: nat, k1: nat, e2: nat, k2: nat) {
    Ratio(e1, k1) < Ratio(e2, k2) || (Ratio(e1, k1) == Ratio(e2, k2) && e1 < e2)
  }

  /** The order in which nested maps list queues. */
  predicate Precedes(a: Key, b: Key) {
    a.sw < b.sw || (a.sw == b.sw && (a.port < b.port || (a.port == b.port && a.pg < b.pg)))
  }

  lemma RatioGrows(e1: nat, e2: nat, kmax: nat)
    requires e1 <= e2
    ensures Ratio(e1, kmax) <= Ratio(e2, kmax)
  {
    if kmax > 0 {
      assert e1 as real <= e2 as real;
      DivideOrder(e1 as real, e2 as real, kmax as real);
    }
  }

  datatype Bottleneck = NoBottleneck | Bottleneck(key: Key, egress: nat, kmax: nat)

  /** `best` is the highest-ranked queue among `keys`, the first listed of equals. */
  ghost predicate IsBest(best: Bottleneck, keys: set<Key>, egress: Key -> nat, kmax: Key -> nat) {
    && (best.NoBottleneck? <==> keys == {})
    && (best.Bottleneck? ==>
          && best.key in keys && best.egress == egress(best.key) && best.kmax == kmax(best.key)
          && forall k :: k in keys && k != best.key ==>
               || RankLess(egress(k), kmax(k), best.egress, best.kmax)
               || (!RankLess(best.egress, best.kmax, egress(k), kmax(k)) && Precedes(best.key, k)))
  }

  /** Comparing the next queue in listing order against the best so far keeps the best. */
  lemma BestGrows(best: Bottleneck, keys: set<Key>, egress: Key -> nat, kmax: Key -> nat, k: Key)
    requires IsBest(best, keys, egress, kmax) && k !in keys && forall j :: j in keys ==> Precedes(j, k)
    ensures IsBest(if best.NoBottleneck? || RankLess(best.egress, best.kmax, egress(k), kmax(k))
                   then Bottleneck(k, egress(k), kmax(k)) else best, keys + {k}, egress, kmax)
  {
  }
}
