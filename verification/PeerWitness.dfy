/** The two ways past the documented bound: a share that does not divide the period, and a
    round that can fire. */
module PeerWitness {
  import opened Seqs
  import opened Gcra
  import opened GcraLog
  import opened StaticShares
  import opened ShareGcra
  import opened Split
  import opened Rounds
  import opened RoundSafety
  import opened ShareRange
  import opened Handover
  import opened Demand
  import opened Joint
  import opened JointRuns
  import StaticBound

  // ----- a share that does not divide the period -----

  lemma IndivisibleExceeds(cfg: Config, period: int) returns (events: seq<Event>)
    requires cfg.Valid() && cfg.limit <= period
    requires period % NodeShare(cfg.limit, cfg.nodes) != 0
    ensures AllFit(cfg, events) && Driven(cfg, events) && Calm(events, 0, period - 1)
    ensures AdmittedFrom(cfg, period, events, 0) > StaticBound.DocumentedBound(cfg.limit, cfg.nodes)
  {
    hide NodeShare, JointExec, Sum, CountIn, Serve, CeilDiv, Calm, Fits, Continue, Waves, Driven, AllFit;
    StaticShareInRange(cfg);
    var share := NodeShare(cfg.limit, cfg.nodes);
    FlooredEmissionsPerPeriod(share, period);
    var times := WindowMaxReached(0, period, ShareRate(share, period, NODE_BURST));
    CalmWaves(cfg.nodes, times, 0, period - 1);
    ContinueFresh(share, times, period);
    NothingYet(cfg, period);
    var low := seq(cfg.nodes, _ => share + NODE_BURST + 1);
    forall i | 0 <= i < cfg.nodes ensures AddsAtLeast(cfg, period, [], times, 0, i, low[i]) {
      assert CountIn([], 0, 0 + period) == 0 by { CountAll([], 0, period); }
    }
    WavesCount(cfg, period, [], times, 0, low);
    events := [] + Waves(cfg.nodes, times);
    WavesDriven(cfg, [], times);
    assert events == Waves(cfg.nodes, times);
    ConstantSum(low, share + NODE_BURST + 1);
    assert cfg.nodes * (share + NODE_BURST + 1) == cfg.nodes * (share + NODE_BURST) + cfg.nodes;
  }

  lemma NothingYet(cfg: Config, period: int)
    requires cfg.Valid() && cfg.limit <= period
    ensures AllFit(cfg, []) && Driven(cfg, [])
    ensures JointExec(cfg, period, JointFresh(cfg, period), []) == JointFresh(cfg, period)
  {
  }

  lemma {:induction false} WavesHaveNoTick(n: nat, times: seq<Instant>)
    ensures forall k :: 0 <= k < |Waves(n, times)| ==> Waves(n, times)[k].Request?
  {
    if times != [] { WavesHaveNoTick(n, Init(times)); }
  }

  lemma WavesDriven(cfg: Config, warmup: seq<Event>, times: seq<Instant>)
    requires cfg.Valid() && AllFit(cfg, warmup) && Driven(cfg, warmup)
    requires AllFit(cfg, warmup + Waves(cfg.nodes, times))
    ensures Driven(cfg, warmup + Waves(cfg.nodes, times))
  {
    hide Driven, Fits;
    WavesFit(cfg, cfg.nodes, times);
    WavesHaveNoTick(cfg.nodes, times);
    NoTickDriven(cfg, warmup, Waves(cfg.nodes, times));
  }

  // ----- a round that can fire: before it -----

  /** When the demand of one node is long spent, yet not forgotten. */
  function Later(period: nat): Instant { 2 * period }

  /** Requests enough at one node that its demand outweighs a request at the proposer. */
  function FloodSize(cfg: Config): nat
    requires cfg.Valid()
  {
    MulMono(0, cfg.nodes + 2, cfg.limit);
    cfg.limit * (cfg.nodes + 2)
  }

  function Flood(cfg: Config, k: nat): (events: seq<Event>)
    requires cfg.Valid()
    ensures |events| == k
  {
    seq(k, _ => Request(Other(cfg), 0))
  }

  /** The flood, a pause, and a request that makes the customer known to the proposer. */
  function BeforeTick(cfg: Config, period: nat): seq<Event>
    requires cfg.Valid()
  {
    Flood(cfg, FloodSize(cfg)) + [Request(cfg.proposer, Later(period))]
  }

  /** No round has started: every node at the static share and at round zero. */
  ghost predicate NoRoundYet(cfg: Config, s: System)
    requires WellFormed(cfg, s)
  {
    && s.phase.Idle?
    && forall i :: 0 <= i < cfg.nodes ==>
         && Share(cfg, s.fleet[i]) == NodeShare(cfg.limit, cfg.nodes) && LastApplied(s.fleet[i]) == 0
         && (s.fleet[i].Known? ==> s.fleet[i].globalLimit == cfg.limit)
  }

  lemma {:induction false} RequestsStartNoRound(cfg: Config, events: seq<Event>)
    requires cfg.Valid() && AllFit(cfg, events)
    requires forall k :: 0 <= k < |events| ==> events[k].Request?
    ensures NoRoundYet(cfg, Exec(cfg, Fresh(cfg), events))
    ensures events != [] && Last(events).node < cfg.nodes
        ==> Exec(cfg, Fresh(cfg), events).fleet[Last(events).node].Known?
  {
    hide NodeShare, Fits;
    if events != [] { RequestsStartNoRound(cfg, Init(events)); }
  }

  lemma BeforeTickFits(cfg: Config, period: nat)
    requires cfg.Valid()
    ensures AllFit(cfg, BeforeTick(cfg, period)) && Driven(cfg, BeforeTick(cfg, period))
    ensures forall k :: 0 <= k < |BeforeTick(cfg, period)| ==> BeforeTick(cfg, period)[k].Request?
  {
    hide Driven;
    assert [] + BeforeTick(cfg, period) == BeforeTick(cfg, period);
    EmptyDriven(cfg);
    NoTickDriven(cfg, [], BeforeTick(cfg, period));
  }

  lemma EmptyDriven(cfg: Config)
    requires cfg.Valid()
    ensures Driven(cfg, [])
  {
  }

  // ----- the tick follows from the demand -----

  function TickWeight(cfg: Config, i: nat): nat
    requires cfg.Valid()
  {
    if i == Other(cfg) then 1000 * FloodSize(cfg) + 1 else if i == cfg.proposer then 1001 else 1
  }

  function TickWeights(cfg: Config): (ws: seq<nat>)
    requires cfg.Valid()
    ensures |ws| == cfg.nodes
  {
    seq(cfg.nodes, i requires 0 <= i < cfg.nodes => TickWeight(cfg, i))
  }

  lemma {:induction false} FloodCount(cfg: Config, k: nat, i: nat)
    requires cfg.Valid()
    ensures RequestCount(Flood(cfg, k), i) == if i == Other(cfg) then k else 0
  {
    if k > 0 {
      FloodCount(cfg, k - 1, i);
      assert Init(Flood(cfg, k)) == Flood(cfg, k - 1);
    }
  }

  lemma WeightOfCount(count: nat)
    ensures Weight(SmoothDemand(NoAverage, count)) == 1000 * count + 1
  {
    assert (count as real) * 1000.0 == (1000 * count) as real;
  }

  lemma WeightsBeforeTick(cfg: Config, period: nat)
    requires cfg.Valid()
    ensures AllFit(cfg, BeforeTick(cfg, period))
    ensures WeightsAfter(cfg, BeforeTick(cfg, period)) == TickWeights(cfg)
  {
    hide TallyAt, SmoothDemand, Weight, FloodSize, Fits, Driven;
    BeforeTickFits(cfg, period);
    var events, flood := BeforeTick(cfg, period), Flood(cfg, FloodSize(cfg));
    forall i | 0 <= i < cfg.nodes ensures WeightsAfter(cfg, events)[i] == TickWeights(cfg)[i] {
      TallyOfRequests(cfg, events, i);
      assert Init(events) == flood;
      FloodCount(cfg, FloodSize(cfg), i);
      WeightOfCount(RequestCount(events, i));
    }
  }

  lemma TickWeightsHeavy(cfg: Config)
    requires cfg.Valid() && cfg.nodes >= 2
    ensures Heavy(cfg.limit, TickWeights(cfg), Other(cfg))
  {
    hide Sum;
    var n, g, p, size := cfg.nodes, Other(cfg), cfg.proposer, FloodSize(cfg);
    var ones, flood, one := seq(n, _ => 1), OneHot(n, g, 1000 * size), OneHot(n, p, 1000);
    var some := seq(n, i requires 0 <= i < n => ones[i] + flood[i]);
    SumOfSums(ones, flood, some);
    SumOfSums(some, one, TickWeights(cfg));
    ConstantSum(ones, 1);
    OneHotSum(n, g, 1000 * size);
    OneHotSum(n, p, 1000);
    assert Sum(TickWeights(cfg)) - TickWeights(cfg)[g] == n + 999;
    FloodIsEnough(cfg.limit, n);
  }

  lemma FloodIsEnough(limit: int, n: int)
    requires limit >= 1 && n >= 2
    ensures 1000 * (limit * (n + 2)) + 1 >= 2 * limit * (n + 999)
  {
    Distribute(limit, n, 2);
    Distribute(2 * limit, n, 999);
    assert 2 * limit * n == 2 * (limit * n);
    MulMono(0, n, limit);
  }

  lemma {:induction false} KeptAll<T>(s: seq<T>)
    ensures Kept(s, Everyone(|s|)) == s
  {
    if s != [] {
      KeptAll(Init(s));
      assert Init(Everyone(|s|)) == Everyone(|s| - 1);
    }
  }

  lemma TickIsDriven(cfg: Config, period: nat)
    requires cfg.Valid() && cfg.nodes >= 2
    ensures AllFit(cfg, BeforeTick(cfg, period))
    ensures Fits(cfg, HandoverTick(cfg, Everyone(cfg.nodes), Other(cfg)))
    ensures DrivenTick(cfg, BeforeTick(cfg, period), HandoverTick(cfg, Everyone(cfg.nodes), Other(cfg)))
  {
    hide Fits, WeightsAfter, IsSplit, Heavy, TickWeights, OneHot, Exec, Kept;
    WeightsBeforeTick(cfg, period);
    TickWeightsHeavy(cfg);
    HandoverFits(cfg, Everyone(cfg.nodes), Other(cfg));
    HeavyTakesAll(cfg.limit, TickWeights(cfg), Other(cfg));
    KeptAll(TickWeights(cfg));
    KeptAll(OneHot(cfg.nodes, Other(cfg), cfg.limit));
  }

  // ----- the round -----

  /** The flood, the pause, the request, and the round that the demand then brings. */
  function Warmup(cfg: Config, period: nat): (events: seq<Event>)
    requires cfg.Valid()
  {
    BeforeTick(cfg, period) + HandoverRound(cfg, Everyone(cfg.nodes), Other(cfg))
  }

  lemma WarmupSystem(cfg: Config, period: nat)
    requires cfg.Valid() && RoundCanFire(cfg)
    ensures AllFit(cfg, Warmup(cfg, period))
    ensures
      var s := Exec(cfg, Fresh(cfg), Warmup(cfg, period));
      forall i :: 0 <= i < cfg.nodes ==> Share(cfg, s.fleet[i]) == if i == Other(cfg) then cfg.limit else 0
  {
    hide NodeShare, Exec, HandoverRound, Fits, Driven, Flood, FloodSize;
    var before, to, all := BeforeTick(cfg, period), Other(cfg), Everyone(cfg.nodes);
    BeforeTickFits(cfg, period);
    RequestsStartNoRound(cfg, before);
    StaticShareInRange(cfg);
    HandoverDone(cfg, Exec(cfg, Fresh(cfg), before), all, to,
                 if NodeShare(cfg.limit, cfg.nodes) >= HYSTERESIS_RPM then cfg.proposer else to);
    ExecConcat(cfg, Fresh(cfg), before, HandoverRound(cfg, all, to));
    BothFit(cfg, before, HandoverRound(cfg, all, to));
  }

  lemma WarmupDriven(cfg: Config, period: nat)
    requires cfg.Valid() && RoundCanFire(cfg)
    ensures AllFit(cfg, Warmup(cfg, period)) && Driven(cfg, Warmup(cfg, period))
  {
    hide NodeShare, Fits, Driven, DrivenTick, BeforeTick, Exec;
    WarmupSystem(cfg, period);
    var before, tick := BeforeTick(cfg, period), HandoverTick(cfg, Everyone(cfg.nodes), Other(cfg));
    var calls := Advances(AllAcked(2 * cfg.nodes + 1) + [Acked]);
    BeforeTickFits(cfg, period);
    TickIsDriven(cfg, period);
    AdvancesFit(cfg, AllAcked(2 * cfg.nodes + 1) + [Acked]);
    TickDriven(cfg, before, tick);
    assert Warmup(cfg, period) == before + [tick] + calls;
    NoTickDriven(cfg, before + [tick], calls);
  }

  lemma WarmupCalm(cfg: Config, period: nat)
    requires cfg.Valid()
    ensures Calm(Warmup(cfg, period), 0, Later(period))
  {
    hide HandoverRound, FullyAnswered, FloodSize;
    CalmRound(cfg, Other(cfg), Later(period));
    assert forall i, t :: FullyAnswered(Request(i, t)) by { RequestAnswered(); }
    assert Calm(Flood(cfg, FloodSize(cfg)), 0, 0);
    CalmConcat(Flood(cfg, FloodSize(cfg)), [Request(cfg.proposer, Later(period))], 0, Later(period), Later(period));
    CalmConcat(BeforeTick(cfg, period), HandoverRound(cfg, Everyone(cfg.nodes), Other(cfg)),
               0, Later(period), Later(period));
  }

  lemma RequestAnswered()
    ensures forall i, t :: FullyAnswered(Request(i, t))
  {
  }

  // ----- the limiters after it -----

  /** The flooded node owes at most two emissions; the others have seen nothing. */
  lemma {:induction false} FloodActs(cfg: Config, period: nat, k: nat, i: nat)
    requires cfg.Valid() && cfg.limit <= period && i < cfg.nodes
    ensures AllFit(cfg, Flood(cfg, k))
    ensures
      var h := LimiterOf(cfg, period, JointExec(cfg, period, JointFresh(cfg, period), Flood(cfg, k)), i);
      && h.quota == NodeShare(cfg.limit, cfg.nodes)
      && (if i == Other(cfg) then h.tat <= 2 * period else h.tat == ZERO_TIME && h.log == [])
  {
    hide NodeShare, Step, ShareRate, JointNext;
    if k > 0 {
      FloodActs(cfg, period, k - 1, i);
      assert Init(Flood(cfg, k)) == Flood(cfg, k - 1);
      var j, e := JointExec(cfg, period, JointFresh(cfg, period), Flood(cfg, k - 1)), Request(Other(cfg), 0);
      NextAt(cfg, period, j, e, i);
      RequestKeepsShare(cfg, j.sys, e, i);
      AtMostTwo(LimiterOf(cfg, period, j, i), period);
    }
  }

  lemma AtMostTwo(h: ShareHistory, period: int)
    requires EnforcedQuota(h.quota) <= period && h.tat <= 2 * period
    ensures ServeOp(h, Arrive(0), period, NODE_BURST).tat <= 2 * period
  {
    hide ShareRate;
    var q := EnforcedQuota(h.quota);
    FloorAtLeastOne(period, q);
    MulMono(1, q, period / q);
    assert ShareRate(h.quota, period, NODE_BURST).emission <= period by { EmissionIs(h.quota, period); }
    assert ShareRate(h.quota, period, NODE_BURST).burst == 1 by { EmissionIs(h.quota, period); }
  }

  lemma EmissionIs(quota: int, period: int)
    requires EnforcedQuota(quota) <= period
    ensures ShareRate(quota, period, NODE_BURST) == Rate(period / EnforcedQuota(quota), 1, EnforcedQuota(quota))
  {
  }

  /** Before the tick the proposer has admitted its one request, at the static share. */
  lemma BeforeTickActs(cfg: Config, period: nat, i: nat)
    requires cfg.Valid() && cfg.limit <= period && i < cfg.nodes
    requires 1 <= NodeShare(cfg.limit, cfg.nodes) <= period
    ensures AllFit(cfg, BeforeTick(cfg, period))
    ensures
      var h := LimiterOf(cfg, period, JointExec(cfg, period, JointFresh(cfg, period), BeforeTick(cfg, period)), i);
      var e := period / NodeShare(cfg.limit, cfg.nodes);
      if i == Other(cfg) then h.tat <= Later(period)
      else if i == cfg.proposer then h.tat == Later(period) + e && h.log == [Admission(Later(period), e)]
      else h.tat == ZERO_TIME && h.log == []
  {
    hide NodeShare, Step, ShareRate, JointNext, FloodSize, Flood;
    var events, flood := BeforeTick(cfg, period), Flood(cfg, FloodSize(cfg));
    FloodActs(cfg, period, FloodSize(cfg), i);
    assert Init(events) == flood;
    var j, e := JointExec(cfg, period, JointFresh(cfg, period), flood), Request(cfg.proposer, Later(period));
    NextAt(cfg, period, j, e, i);
    RequestKeepsShare(cfg, j.sys, e, i);
    DrainedStep(ZERO_TIME, Later(period), ShareRate(NodeShare(cfg.limit, cfg.nodes), period, NODE_BURST));
    EmissionIs(NodeShare(cfg.limit, cfg.nodes), period);
  }

  /** The receiver has drained; the proposer has admitted its one request, at the static
      share; the rest have seen nothing and hold nothing. */
  ghost predicate WarmedUp(cfg: Config, period: nat, i: nat, h: ShareHistory)
    requires cfg.Valid() && 1 <= NodeShare(cfg.limit, cfg.nodes)
  {
    var e := period / NodeShare(cfg.limit, cfg.nodes);
    && h.quota == (if i == Other(cfg) then cfg.limit else 0)
    && (if i == Other(cfg) then h.tat <= Later(period)
        else if i == cfg.proposer then h.tat == Later(period) + e && h.log == [Admission(Later(period), e)]
        else h.tat == ZERO_TIME && h.log == [])
  }

  lemma AfterWarmup(cfg: Config, period: nat, i: nat)
    requires cfg.Valid() && cfg.limit <= period && RoundCanFire(cfg) && i < cfg.nodes
    requires 1 <= NodeShare(cfg.limit, cfg.nodes) <= period
    ensures AllFit(cfg, Warmup(cfg, period))
    ensures WarmedUp(cfg, period, i,
      LimiterAfter(cfg, period, Warmup(cfg, period), i))
  {
    hide NodeShare, JointExec, RoundCanFire, Exec, Fits, ServeOps, Sound, BeforeTick;
    var before, round := BeforeTick(cfg, period), HandoverRound(cfg, Everyone(cfg.nodes), Other(cfg));
    WarmupSystem(cfg, period);
    NodeRun(cfg, period, Warmup(cfg, period), i);
    BeforeTickActs(cfg, period, i);
    AllFitPrefix(cfg, before, round);
    JointConcat(cfg, period, JointFresh(cfg, period), before, round);
    ProtocolOnly(cfg, period, JointExec(cfg, period, JointFresh(cfg, period), before), round);
  }

  // ----- the period that follows -----

  /** What each node admits at the least: the receiver its limit and a burst, every other
      two, and the proposer a third unless one emission fills the period. */
  function Least(cfg: Config): (low: seq<int>)
    requires cfg.Valid()
    ensures |low| == cfg.nodes
  {
    seq(cfg.nodes, i =>
      if i == Other(cfg) then cfg.limit + NODE_BURST
      else if i == cfg.proposer && NodeShare(cfg.limit, cfg.nodes) >= 2 then 3 else 2)
  }

  lemma LeastSum(cfg: Config)
    requires cfg.Valid() && RoundCanFire(cfg)
    ensures Sum(Least(cfg)) > StaticBound.DocumentedBound(cfg.limit, cfg.nodes)
  {
    hide NodeShare, Sum;
    var n, share := cfg.nodes, NodeShare(cfg.limit, cfg.nodes);
    var third := if share >= 2 then 1 else 0;
    var twos, top, extra := seq(n, _ => 2), OneHot(n, Other(cfg), cfg.limit - 1), OneHot(n, cfg.proposer, third);
    var some := seq(n, i requires 0 <= i < n => twos[i] + top[i]);
    SumOfSums(twos, top, some);
    SumOfSums(some, extra, Least(cfg));
    ConstantSum(twos, 2);
    OneHotSum(n, Other(cfg), cfg.limit - 1);
    OneHotSum(n, cfg.proposer, third);
    SharesCoverLimit(cfg.limit, n);
    assert n * (share + NODE_BURST) == n * share + n;
  }

  lemma EmissionWithinPeriod(share: int, period: int)
    requires 1 <= share <= period
    ensures 1 <= period / share <= period
    ensures share >= 2 ==> period / share < period
  {
    FloorAtLeastOne(period, share);
    var e := period / share;
    MulMono(1, share, e);
    if share >= 2 { MulMono(2, share, e); }
  }

  /** Requests of one period, all admitted at this quota by a fresh share: as many as the
      quota and a burst. */
  ghost predicate Fills(times: seq<Instant>, quota: int, period: int, from: int) {
    && EnforcedQuota(quota) <= period && |times| >= quota + NODE_BURST
    && Serve(times, ShareRate(quota, period, NODE_BURST)).log == times
    && forall k :: 0 <= k < |times| ==> from <= times[k] < from + period
  }

  lemma FillPeriod(quota: int, period: int, from: nat) returns (times: seq<Instant>)
    requires 1 <= quota <= period
    ensures Nondecreasing(times) && Fills(times, quota, period, from)
  {
    hide Serve, CeilDiv;
    FlooredEmissionsPerPeriod(quota, period);
    times := WindowMaxReached(from, period, ShareRate(quota, period, NODE_BURST));
  }

  /** These requests, and one more at the period's last instant. */
  function Spent(times: seq<Instant>, period: nat): seq<Instant>
    requires period >= 1
  {
    times + [Later(period) + period - 1]
  }

  lemma NodeAfterWarmup(cfg: Config, period: nat, times: seq<Instant>, i: nat)
    requires cfg.Valid() && cfg.limit <= period && RoundCanFire(cfg) && i < cfg.nodes
    requires Fills(times, cfg.limit, period, Later(period))
    ensures AllFit(cfg, Warmup(cfg, period))
    ensures AddsAtLeast(cfg, period, Warmup(cfg, period), Spent(times, period), Later(period), i, Least(cfg)[i])
  {
    hide NodeShare, LimiterAfter, RoundCanFire, Continue, Serve, ShareRate, CountIn, Warmup, Least, WarmedUp;
    hide Spent, Fits, Fills;
    StaticShareInRange(cfg);
    AfterWarmup(cfg, period, i);
    LimiterAdds(cfg, period, times, i, LimiterAfter(cfg, period, Warmup(cfg, period), i));
  }

  lemma LimiterAdds(cfg: Config, period: nat, times: seq<Instant>, i: nat, h: ShareHistory)
    requires cfg.Valid() && cfg.limit <= period && i < cfg.nodes
    requires 1 <= NodeShare(cfg.limit, cfg.nodes) <= period
    requires Fills(times, cfg.limit, period, Later(period))
    requires WarmedUp(cfg, period, i, h)
    ensures Least(cfg)[i] <= CountIn(Times(h.log), Later(period), Later(period) + period)
                           + |Continue(h, Spent(times, period), period).log| - |h.log|
  {
    hide NodeShare, Continue, Serve, ShareRate, CountIn;
    EmissionWithinPeriod(NodeShare(cfg.limit, cfg.nodes), period);
    if i == Other(cfg) {
      ReceiverAdds(h, times, Later(period) + period - 1, period);
    } else {
      LingersTwice(h, times, period, Later(period));
      if i == cfg.proposer { InWindowAlready(h.log, Later(period), period); }
    }
  }

  lemma ReceiverAdds(h: ShareHistory, times: seq<Instant>, last: Instant, period: int)
    requires EnforcedQuota(h.quota) <= period && times != [] && h.tat <= times[0]
    requires Serve(times, ShareRate(h.quota, period, NODE_BURST)).log == times
    ensures |Continue(h, times + [last], period).log| >= |h.log| + |times|
  {
    hide Continue, Serve, ShareRate;
    ContinueDrained(h, times, period);
    ContinueFresh(h.quota, times, period);
    ContinueFurther(h, times, last, period);
  }

  lemma InWindowAlready(log: seq<Admission>, from: int, period: int)
    requires |log| == 1 && log[0].at == from && period >= 1
    ensures CountIn(Times(log), from, from + period) == 1
  {
    CountAll(Times(log), from, from + period);
  }

  lemma HandoverExceeds(cfg: Config, period: nat) returns (events: seq<Event>)
    requires cfg.Valid() && cfg.limit <= period && RoundCanFire(cfg)
    ensures AllFit(cfg, events) && Driven(cfg, events) && Calm(events, 0, Later(period) + period - 1)
    ensures AdmittedFrom(cfg, period, events, Later(period))
          > StaticBound.DocumentedBound(cfg.limit, cfg.nodes)
  {
    hide NodeShare, JointExec, Sum, Serve, CeilDiv, Calm, Fits, Continue, Waves, RoundCanFire, Warmup, Least;
    hide ShareRate, AddsAtLeast, Driven;
    var from := Later(period);
    var times := FillPeriod(cfg.limit, period, from);
    var spent := Spent(times, period);
    WarmupSystem(cfg, period);
    forall i | 0 <= i < cfg.nodes ensures AddsAtLeast(cfg, period, Warmup(cfg, period), spent, from, i, Least(cfg)[i]) {
      NodeAfterWarmup(cfg, period, times, i);
    }
    WavesCount(cfg, period, Warmup(cfg, period), spent, from, Least(cfg));
    LeastSum(cfg);
    events := Warmup(cfg, period) + Waves(cfg.nodes, spent);
    WarmupDriven(cfg, period);
    WavesDriven(cfg, Warmup(cfg, period), spent);
    WarmupCalm(cfg, period);
    CalmWaves(cfg.nodes, spent, from, from + period - 1);
    CalmConcat(Warmup(cfg, period), Waves(cfg.nodes, spent), 0, from, from + period - 1);
  }
}
