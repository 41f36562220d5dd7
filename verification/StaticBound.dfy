/** The system-wide bound of the static coordinator, and the harness verdict that
    judges measured traffic against it. */
module StaticBound {
  import opened Seqs
  import opened Gcra
  import opened GcraLog
  import opened Keyed
  import opened StaticShares

  type Trace = seq<Request<ShareKey>>  // what one node judged, in its own order

  function OfCustomer(customer: string): ShareKey -> bool {
    (key: ShareKey) => key.customer == customer
  }

  /** What a node of an n-node system admits, of the keys selected by `which`. */
  function NodeLog(trace: Trace, n: int, which: ShareKey -> bool): seq<Instant>
    requires n >= 1
  {
    AdmittedWhere(trace, ServeAll(trace, NodeRates(n)).decisions, which)
  }

  /** What all nodes together admit of one customer.  The nodes never communicate, so
      one trace per node stands for every interleaving. */
  function SystemLog(nodes: seq<Trace>, n: int, customer: string): seq<Instant>
    requires n >= 1
  {
    if nodes == [] then []
    else SystemLog(Init(nodes), n, customer) + NodeLog(Last(nodes), n, OfCustomer(customer))
  }

  /** Every request of the customer in the window was judged under one of `limits`. */
  ghost predicate JudgedUnder(trace: Trace, customer: string, lo: int, hi: int, limits: seq<Limit>) {
    forall i :: 0 <= i < |trace| && trace[i].key.customer == customer && lo <= trace[i].now < hi ==>
      trace[i].key.globalLimit in limits
  }

  /** The most a node can admit under each of the limits. */
  function PerLimitMax(limits: seq<Limit>, n: int, len: int): (s: seq<int>)
    requires n >= 1
  {
    seq(|limits|, i requires 0 <= i < |limits| => WindowMax(len, NodeParams(limits[i], n).AsRate()))
  }

  function PerLimitCount(trace: Trace, n: int, customer: string, limits: seq<Limit>, lo: int, hi: int): (s: seq<int>)
    requires n >= 1
    ensures |s| == |limits|
  {
    seq(|limits|, i requires 0 <= i < |limits| =>
      CountIn(NodeLog(trace, n, Only(ShareKey(customer, limits[i]))), lo, hi))
  }

  lemma NodeLogStep(trace: Trace, n: int, which: ShareKey -> bool, lo: int, hi: int)
    requires n >= 1 && trace != []
    ensures
      var counted := which(Last(trace).key) && Last(ServeAll(trace, NodeRates(n)).decisions).allowed
                     && lo <= Last(trace).now < hi;
      CountIn(NodeLog(trace, n, which), lo, hi)
        == CountIn(NodeLog(Init(trace), n, which), lo, hi) + if counted then 1 else 0
  {
    hide Step, NodeParams;
    var h := ServeAll(trace, NodeRates(n));
    assert Init(h.decisions) == ServeAll(Init(trace), NodeRates(n)).decisions;
    var before := NodeLog(Init(trace), n, which);
    if which(Last(trace).key) && Last(h.decisions).allowed {
      assert NodeLog(trace, n, which) == before + [Last(trace).now];
      assert Init(before + [Last(trace).now]) == before;
    } else {
      assert NodeLog(trace, n, which) == before;
    }
  }

  /** A customer's admissions on one node are covered by its limiters, one per limit. */
  lemma {:induction false} LimitersCoverNode(trace: Trace, n: int, customer: string, limits: seq<Limit>,
                                              lo: int, hi: int)
    requires n >= 1 && JudgedUnder(trace, customer, lo, hi, limits)
    ensures CountIn(NodeLog(trace, n, OfCustomer(customer)), lo, hi)
         <= Sum(PerLimitCount(trace, n, customer, limits, lo, hi))
  {
    hide Step, NodeParams, ServeAll, NodeLog;
    var counts := PerLimitCount(trace, n, customer, limits, lo, hi);
    if trace == [] {
      NonnegativeSum(counts);
      assert NodeLog([], n, OfCustomer(customer)) == [] by { EmptyNodeLog(n, OfCustomer(customer)); }
    } else {
      LimitersCoverNode(Init(trace), n, customer, limits, lo, hi);
      var before := PerLimitCount(Init(trace), n, customer, limits, lo, hi);
      NodeLogStep(trace, n, OfCustomer(customer), lo, hi);
      forall i | 0 <= i < |limits| ensures before[i] <= counts[i] {
        NodeLogStep(trace, n, Only(ShareKey(customer, limits[i])), lo, hi);
      }
      var key := Last(trace).key;
      if key.customer == customer && lo <= Last(trace).now < hi {
        var k :| 0 <= k < |limits| && limits[k] == key.globalLimit;
        NodeLogStep(trace, n, Only(ShareKey(customer, limits[k])), lo, hi);
        SumMonoAt(before, counts, k);
      } else {
        SumMono(before, counts);
      }
    }
  }

  lemma EmptyNodeLog(n: int, which: ShareKey -> bool)
    requires n >= 1
    ensures NodeLog([], n, which) == []
  {
  }

  lemma NodeBounded(trace: Trace, n: int, customer: string, limits: seq<Limit>, s: int, len: int)
    requires n >= 1 && len >= 1 && JudgedUnder(trace, customer, s, s + len, limits)
    ensures CountIn(NodeLog(trace, n, OfCustomer(customer)), s, s + len) <= Sum(PerLimitMax(limits, n, len))
  {
    hide Step, NodeParams, ServeAll, Serve, WindowMax;
    LimitersCoverNode(trace, n, customer, limits, s, s + len);
    var counts, caps := PerLimitCount(trace, n, customer, limits, s, s + len), PerLimitMax(limits, n, len);
    forall i | 0 <= i < |limits| ensures counts[i] <= caps[i] {
      var key := ShareKey(customer, limits[i]);
      AdmittedOfKey(trace, NodeRates(n), key);
      WindowBounded(ArrivalsOf(trace, key), NodeRates(n)(key), s, len);
    }
    SumMono(counts, caps);
  }

  lemma {:induction false} SystemBounded(nodes: seq<Trace>, n: int, customer: string, limits: seq<Limit>,
                                          s: int, len: int)
    requires n >= 1 && len >= 1
    requires forall i :: 0 <= i < |nodes| ==> JudgedUnder(nodes[i], customer, s, s + len, limits)
    ensures CountIn(SystemLog(nodes, n, customer), s, s + len) <= |nodes| * Sum(PerLimitMax(limits, n, len))
  {
    hide NodeLog, PerLimitMax, JudgedUnder;
    if nodes != [] {
      SystemBounded(Init(nodes), n, customer, limits, s, len);
      NodeBounded(Last(nodes), n, customer, limits, s, len);
      CountConcat(SystemLog(Init(nodes), n, customer), NodeLog(Last(nodes), n, OfCustomer(customer)), s, s + len);
      var cap := Sum(PerLimitMax(limits, n, len));
      assert |nodes| * cap == |Init(nodes)| * cap + cap;
    }
  }

  // ----- the documented bound -----

  /** N * (ceil(L / N) + burst). */
  function DocumentedBound(limit: Limit, n: int): int
    requires n >= 1
  {
    n * (NodeShare(limit, n) + NODE_BURST)
  }

  function DocumentedBounds(limits: seq<Limit>, n: int): (s: seq<int>)
    requires n >= 1
  {
    seq(|limits|, i requires 0 <= i < |limits| => DocumentedBound(limits[i], n))
  }

  lemma {:induction false} SumScaled(s: seq<int>, t: seq<int>, n: int)
    requires |s| == |t| && n >= 0
    requires forall i :: 0 <= i < |s| ==> n * s[i] <= t[i]
    ensures n * Sum(s) <= Sum(t)
  {
    if s != [] {
      SumScaled(Init(s), Init(t), n);
      assert n * Sum(s) == n * Sum(Init(s)) + n * Last(s);
    }
  }

  /** In any half-open minute, and even when limits alternate, the nodes together
      admit at most the sum of the documented bounds of the limits in force. */
  lemma StaticSystemBound(nodes: seq<Trace>, customer: string, limits: seq<Limit>, s: int)
    requires |nodes| >= 1
    requires forall i :: 0 <= i < |nodes| ==> JudgedUnder(nodes[i], customer, s, s + MINUTE, limits)
    ensures CountIn(SystemLog(nodes, |nodes|, customer), s, s + MINUTE) <= Sum(DocumentedBounds(limits, |nodes|))
  {
    hide SystemLog, JudgedUnder, Params.EmissionInterval, CeilDiv;
    var n := |nodes|;
    SystemBounded(nodes, n, customer, limits, s, MINUTE);
    var caps, bounds := PerLimitMax(limits, n, MINUTE), DocumentedBounds(limits, n);
    forall i | 0 <= i < |limits| ensures n * caps[i] <= bounds[i] {
      EmissionsPerPeriod(NodeParams(limits[i], n));
      MulMono(caps[i], NodeShare(limits[i], n) + NODE_BURST, n);
    }
    SumScaled(caps, bounds, n);
  }

  /** Under one limit the excess over it is rounding plus one burst per node. */
  lemma OneLimitBound(nodes: seq<Trace>, customer: string, limit: Limit, s: int)
    requires |nodes| >= 1
    requires forall i :: 0 <= i < |nodes| ==> JudgedUnder(nodes[i], customer, s, s + MINUTE, [limit])
    ensures CountIn(SystemLog(nodes, |nodes|, customer), s, s + MINUTE)
         <= limit + |nodes| - 1 + |nodes| * NODE_BURST
  {
    hide SystemLog, JudgedUnder, NodeShare, CeilDiv;
    StaticSystemBound(nodes, customer, [limit], s);
    SharesCoverLimit(limit, |nodes|);
    var bounds := DocumentedBounds([limit], |nodes|);
    assert bounds == [|nodes| * (NodeShare(limit, |nodes|) + NODE_BURST)];
    assert Init(bounds) == [];
    assert Sum(bounds) == |nodes| * NodeShare(limit, |nodes|) + |nodes| * NODE_BURST;
  }

  // ----- the documented bound is met -----

  /** A trace in which one customer sends all the requests under one limit. */
  function TraceOf(arrivals: seq<Instant>, key: ShareKey): (trace: Trace)
    ensures |trace| == |arrivals|
  {
    seq(|arrivals|, i requires 0 <= i < |arrivals| => Request(key, arrivals[i]))
  }

  lemma {:induction false} TraceOfLog(arrivals: seq<Instant>, key: ShareKey, n: int)
    requires n >= 1
    ensures NodeLog(TraceOf(arrivals, key), n, OfCustomer(key.customer)) == Serve(arrivals, NodeRates(n)(key)).log
    ensures TatFor(ServeAll(TraceOf(arrivals, key), NodeRates(n)).tats, key) == Serve(arrivals, NodeRates(n)(key)).tat
  {
    hide Step, NodeParams;
    if arrivals != [] {
      TraceOfLog(Init(arrivals), key, n);
      var trace := TraceOf(arrivals, key);
      assert Init(trace) == TraceOf(Init(arrivals), key);
      assert Init(ServeAll(trace, NodeRates(n)).decisions) == ServeAll(Init(trace), NodeRates(n)).decisions;
    }
  }

  /** `count` nodes that see the same trace. */
  function Alike(trace: Trace, count: nat): (nodes: seq<Trace>)
    ensures |nodes| == count
  {
    seq(count, _ => trace)
  }

  lemma {:induction false} AlikeCount(trace: Trace, count: nat, n: int, customer: string, lo: int, hi: int)
    requires n >= 1
    ensures CountIn(SystemLog(Alike(trace, count), n, customer), lo, hi)
         == count * CountIn(NodeLog(trace, n, OfCustomer(customer)), lo, hi)
  {
    hide NodeLog, SystemLog, CountIn;
    OneMoreAlike(trace, count, n, customer);
    var log := NodeLog(trace, n, OfCustomer(customer));
    var each := CountIn(log, lo, hi);
    if count == 0 {
      CountAll([], lo, hi);
    } else {
      AlikeCount(trace, count - 1, n, customer, lo, hi);
      CountConcat(SystemLog(Alike(trace, count - 1), n, customer), log, lo, hi);
      assert count * each == (count - 1) * each + each;
    }
  }

  lemma OneMoreAlike(trace: Trace, count: nat, n: int, customer: string)
    requires n >= 1
    ensures SystemLog(Alike(trace, count), n, customer)
         == if count == 0 then []
            else SystemLog(Alike(trace, count - 1), n, customer) + NodeLog(trace, n, OfCustomer(customer))
  {
    hide NodeLog;
    if count > 0 { assert Init(Alike(trace, count)) == Alike(trace, count - 1); }
  }

  /** A system in which every node is filled to its maximum in the window that starts at zero. */
  lemma FullWindow(customer: string, limit: Limit, n: nat, len: int) returns (nodes: seq<Trace>)
    requires n >= 1 && len >= 1
    ensures RunsUnder(nodes, n, customer, limit)
    ensures CountIn(SystemLog(nodes, n, customer), 0, len) == n * WindowMax(len, NodeParams(limit, n).AsRate())
  {
    hide NodeLog, SystemLog, Serve, WindowMax, NodeShare, CountIn;
    var rate, key := NodeParams(limit, n).AsRate(), ShareKey(customer, limit);
    var arrivals := WindowMaxReached(0, len, rate);
    var trace := TraceOf(arrivals, key);
    TraceOfLog(arrivals, key, n);
    nodes := Alike(trace, n);
    AlikeCount(trace, n, n, customer, 0, len);
  }

  ghost predicate RunsUnder(nodes: seq<Trace>, n: nat, customer: string, limit: Limit) {
    && |nodes| == n
    && forall i, j :: 0 <= i < |nodes| && 0 <= j < |nodes[i]| && nodes[i][j].key.customer == customer ==>
         nodes[i][j].key.globalLimit == limit
  }

  /** Under one limit no system admits more than every node's maximum. */
  lemma NoMoreThanFull(nodes: seq<Trace>, n: nat, customer: string, limit: Limit, s: int, len: int)
    requires n >= 1 && len >= 1 && RunsUnder(nodes, n, customer, limit)
    ensures CountIn(SystemLog(nodes, n, customer), s, s + len) <= n * WindowMax(len, NodeParams(limit, n).AsRate())
  {
    hide SystemLog, CountIn, WindowMax, Params.EmissionInterval;
    SystemBounded(nodes, n, customer, [limit], s, len);
    var caps := PerLimitMax([limit], n, len);
    assert Init(caps) == [];
    assert Sum(caps) == WindowMax(len, NodeParams(limit, n).AsRate());
  }

  function Admitted(nodes: seq<Trace>, n: nat, customer: string, s: int, len: int): nat
    requires n >= 1
  {
    CountIn(SystemLog(nodes, n, customer), s, s + len)
  }

  ghost predicate SystemReaches(customer: string, limit: Limit, n: nat, count: int)
    requires n >= 1
  {
    exists nodes, s :: RunsUnder(nodes, n, customer, limit) && Admitted(nodes, n, customer, s, MINUTE) >= count
  }

  /** The documented bound is met by some run of the whole system exactly when the last
      of a node's share of emissions still starts inside the minute. */
  lemma DocumentedBoundReached(customer: string, limit: Limit, n: nat)
    requires n >= 1
    ensures SystemReaches(customer, limit, n, DocumentedBound(limit, n))
       <==> (NodeShare(limit, n) - 1) * NodeParams(limit, n).EmissionInterval() < MINUTE
  {
    hide SystemLog, CountIn, RunsUnder, NodeShare, Params.EmissionInterval, CeilDiv;
    var p := NodeParams(limit, n);
    EmissionsPerPeriod(p);
    var most := WindowMax(MINUTE, p.AsRate());
    if most == NodeShare(limit, n) + NODE_BURST {
      var nodes := FullWindow(customer, limit, n, MINUTE);
      assert Admitted(nodes, n, customer, 0, MINUTE) >= DocumentedBound(limit, n);
    } else {
      MulMono(most, NodeShare(limit, n) + NODE_BURST - 1, n);
      forall nodes, s | RunsUnder(nodes, n, customer, limit)
        ensures Admitted(nodes, n, customer, s, MINUTE) < DocumentedBound(limit, n)
      {
        NoMoreThanFull(nodes, n, customer, limit, s, MINUTE);
      }
    }
  }

  // ----- the harness verdict -----

  const HARNESS_NODES: int := 3

  function SafetyBound(effectiveLimit: int): int {
    var share := (effectiveLimit + HARNESS_NODES - 1) / HARNESS_NODES;
    (share + NODE_BURST) * HARNESS_NODES
  }

  datatype Verdict = PASS | FAIL

  function SafetyVerdict(maxRolling60s: int, effectiveLimit: int): Verdict {
    if maxRolling60s > SafetyBound(effectiveLimit) then FAIL else PASS
  }

  /** The verdict on the closed minute [s, s + 60s] the harness counts in, when
      admissions carry their arrival times. */
  function VerdictAt(nodes: seq<Trace>, customer: string, limit: Limit, s: int): Verdict {
    SafetyVerdict(CountIn(SystemLog(nodes, HARNESS_NODES, customer), s, s + MINUTE + 1), limit)
  }

  ghost predicate AlwaysPasses(customer: string, limit: Limit) {
    forall nodes, s :: RunsUnder(nodes, HARNESS_NODES, customer, limit) ==> VerdictAt(nodes, customer, limit, s) == PASS
  }

  lemma SafetyBoundIsDocumented(limit: Limit)
    ensures HARNESS_NODES == 3 && SafetyBound(limit) == DocumentedBound(limit, HARNESS_NODES)
  {
  }

  /** A measured maximum fails exactly when it passes three shares and three bursts. */
  lemma VerdictMeans(maxRolling60s: int, limit: Limit)
    ensures SafetyVerdict(maxRolling60s, limit) == FAIL <==> maxRolling60s > 3 * NodeShare(limit, 3) + 3
  {
  }

  lemma VerdictPassesWhenUnreached(nodes: seq<Trace>, customer: string, limit: Limit, s: int)
    requires MINUTE % NodeShare(limit, HARNESS_NODES) != 0 && RunsUnder(nodes, HARNESS_NODES, customer, limit)
    ensures VerdictAt(nodes, customer, limit, s) == PASS
  {
    hide SystemLog, CountIn, CeilDiv, SafetyBound, Params.EmissionInterval;
    EmissionsPerPeriod(NodeParams(limit, HARNESS_NODES));
    SafetyBoundIsDocumented(limit);
    NoMoreThanFull(nodes, HARNESS_NODES, customer, limit, s, MINUTE + 1);
  }

  lemma OvershootingRun(customer: string, limit: Limit) returns (nodes: seq<Trace>)
    requires MINUTE % NodeShare(limit, HARNESS_NODES) == 0
    ensures RunsUnder(nodes, HARNESS_NODES, customer, limit)
    ensures VerdictAt(nodes, customer, limit, 0) == FAIL
  {
    hide SystemLog, CeilDiv, SafetyBound, Params.EmissionInterval, NodeShare, CountIn;
    EmissionsPerPeriod(NodeParams(limit, HARNESS_NODES));
    SafetyBoundIsDocumented(limit);
    nodes := FullWindow(customer, limit, HARNESS_NODES, MINUTE + 1);
  }

  /** Every run of the static coordinator passes the harness exactly when a node's
      share does not divide the minute: the harness counts a closed minute, and a
      share that divides it lets one more request per node land on the far end. */
  lemma VerdictSoundIff(customer: string, limit: Limit)
    ensures AlwaysPasses(customer, limit) <==> MINUTE % NodeShare(limit, HARNESS_NODES) != 0
  {
    hide VerdictAt, RunsUnder, NodeShare;
    SharesCoverLimit(limit, HARNESS_NODES);
    if MINUTE % NodeShare(limit, HARNESS_NODES) == 0 {
      var nodes := OvershootingRun(customer, limit);
      assert VerdictAt(nodes, customer, limit, 0) == FAIL;
    } else {
      forall nodes, s | RunsUnder(nodes, HARNESS_NODES, customer, limit)
        ensures VerdictAt(nodes, customer, limit, s) == PASS
      {
        VerdictPassesWhenUnreached(nodes, customer, limit, s);
      }
    }
  }
}
