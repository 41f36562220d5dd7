/** Exactly when the peer coordinator keeps to the documented system-wide bound
    N * (ceil(L / N) + burst). */
module PeerBound {
  import opened Seqs
  import opened Gcra
  import opened GcraLog
  import opened StaticShares
  import opened ShareGcra
  import opened Rounds
  import opened ShareRange
  import opened Joint
  import opened JointRuns
  import opened Demand
  import opened PeerWitness
  import StaticBound

  ghost predicate AlwaysWithin(cfg: Config, period: int, bound: int)
    requires cfg.Valid() && cfg.limit <= period
  {
    forall events, lo :: AllFit(cfg, events) ==> AdmittedFrom(cfg, period, events, lo) <= bound
  }

  /** Nothing goes wrong, and the targets of every tick follow the demand of the run. */
  ghost predicate WithinWhenCalm(cfg: Config, period: int, bound: int)
    requires cfg.Valid() && cfg.limit <= period
  {
    forall events, lo, from, to ::
      AllFit(cfg, events) && Driven(cfg, events) && Calm(events, from, to) ==>
        AdmittedFrom(cfg, period, events, lo) <= bound
  }

  // ----- when nothing can move -----

  /** The requests that reach node i. */
  function RequestsAt(events: seq<Event>, i: nat): seq<Instant> {
    if events == [] then []
    else RequestsAt(Init(events), i)
         + if Last(events).Request? && Last(events).node == i then [Last(events).now] else []
  }

  /** When no round can fire every node is a plain limiter at the static share. */
  lemma {:induction false} QuietLimiter(cfg: Config, period: int, events: seq<Event>, i: nat)
    requires cfg.Valid() && cfg.limit <= period && AllFit(cfg, events) && i < cfg.nodes && !RoundCanFire(cfg)
    requires EnforcedQuota(NodeShare(cfg.limit, cfg.nodes)) <= period
    ensures
      var j := JointExec(cfg, period, JointFresh(cfg, period), events);
      var h := Serve(RequestsAt(events, i), ShareRate(NodeShare(cfg.limit, cfg.nodes), period, NODE_BURST));
      j.tats[i] == h.tat && Times(j.logs[i]) == h.log
  {
    hide NodeShare, JointNext, Next, Fits, ShareRate, RoundCanFire, Serve, ServeOp, RequestsAt;
    RequestsAtStep(events, i);
    var share := NodeShare(cfg.limit, cfg.nodes);
    if events == [] {
      ServeNothing(share, period);
    } else {
      QuietLimiter(cfg, period, Init(events), i);
      var j := JointExec(cfg, period, JointFresh(cfg, period), Init(events));
      NodeRun(cfg, period, Init(events), i);
      QuietRun(cfg, Init(events));
      NextAt(cfg, period, j, Last(events), i);
      SameAsPlain(LimiterOf(cfg, period, j, i), RequestsAt(Init(events), i), OpOf(cfg, j.sys, Last(events), i), period);
    }
  }

  lemma RequestsAtStep(events: seq<Event>, i: nat)
    ensures RequestsAt(events, i)
         == if events == [] then []
            else if Last(events).Request? && Last(events).node == i
            then RequestsAt(Init(events), i) + [Last(events).now]
            else RequestsAt(Init(events), i)
  {
  }

  lemma ServeNothing(quota: int, period: int)
    requires EnforcedQuota(quota) <= period
    ensures Serve([], ShareRate(quota, period, NODE_BURST)) == History(ZERO_TIME, [], [])
  {
  }

  /** One more operation on a share that has run as a plain limiter leaves it one, unless
      the quota moves. */
  lemma SameAsPlain(h: ShareHistory, arrivals: seq<Instant>, op: Op, period: int)
    requires EnforcedQuota(h.quota) <= period
    requires
      var plain := Serve(arrivals, ShareRate(h.quota, period, NODE_BURST));
      h.tat == plain.tat && Times(h.log) == plain.log
    ensures
      var h' := ServeOp(h, op, period, NODE_BURST);
      var arrivals' := if op.Arrive? then arrivals + [op.now] else arrivals;
      var plain' := Serve(arrivals', ShareRate(h.quota, period, NODE_BURST));
      h'.tat == plain'.tat && Times(h'.log) == plain'.log
  {
    hide Step, ShareRate;
    if op.Arrive? {
      assert Init(arrivals + [op.now]) == arrivals;
      RejectionKeepsTat(h.tat, op.now, ShareRate(h.quota, period, NODE_BURST));
    }
  }

  lemma QuietWithin(cfg: Config, period: int, events: seq<Event>, lo: int)
    requires cfg.Valid() && cfg.limit <= period && AllFit(cfg, events) && !RoundCanFire(cfg)
    requires period % NodeShare(cfg.limit, cfg.nodes) == 0
    ensures AdmittedFrom(cfg, period, events, lo) <= StaticBound.DocumentedBound(cfg.limit, cfg.nodes)
  {
    hide NodeShare, JointExec, Sum, CountIn, Serve, CeilDiv, RoundCanFire;
    StaticShareInRange(cfg);
    var share := NodeShare(cfg.limit, cfg.nodes);
    var j := JointExec(cfg, period, JointFresh(cfg, period), events);
    var most := seq(cfg.nodes, _ => share + NODE_BURST);
    FlooredEmissionsPerPeriod(share, period);
    forall i | 0 <= i < cfg.nodes ensures Counts(j, lo, lo + period)[i] <= most[i] {
      QuietLimiter(cfg, period, events, i);
      WindowBounded(RequestsAt(events, i), ShareRate(share, period, NODE_BURST), lo, period);
    }
    SumMono(Counts(j, lo, lo + period), most);
    ConstantSum(most, share + NODE_BURST);
  }

  // ----- exactly when -----

  /** The peer coordinator admits at most N * (ceil(L / N) + burst) in every period of every
      run if and only if the static share divides the period and no target can differ from
      it by the hysteresis; and no less than that is needed when nothing goes wrong. */
  lemma DocumentedBoundIff(cfg: Config, period: int)
    requires cfg.Valid() && cfg.limit <= period
    ensures
      var bound := StaticBound.DocumentedBound(cfg.limit, cfg.nodes);
      var kept := period % NodeShare(cfg.limit, cfg.nodes) == 0 && !RoundCanFire(cfg);
      && (AlwaysWithin(cfg, period, bound) <==> kept)
      && (WithinWhenCalm(cfg, period, bound) <==> kept)
  {
    hide NodeShare, RoundCanFire, Calm, AdmittedFrom, AllFit, Driven, StaticBound.DocumentedBound;
    StaticShareInRange(cfg);
    if period % NodeShare(cfg.limit, cfg.nodes) != 0 {
      var events := IndivisibleExceeds(cfg, period);
    } else if RoundCanFire(cfg) {
      var events := HandoverExceeds(cfg, period);
    } else {
      forall events, lo | AllFit(cfg, events)
        ensures AdmittedFrom(cfg, period, events, lo) <= StaticBound.DocumentedBound(cfg.limit, cfg.nodes)
      {
        QuietWithin(cfg, period, events, lo);
      }
    }
  }

  /** Two nodes at a limit of 32: the static share of 16 divides the minute, so static
      shares keep to the documented 34, and yet a run in which nothing goes wrong passes it. */
  lemma RebalancingExceedsDocumentedBound()
    ensures MINUTE % NodeShare(32, 2) == 0 && StaticBound.DocumentedBound(32, 2) == 34
    ensures !WithinWhenCalm(Config(2, 0, 32), MINUTE, 34)
  {
    DocumentedBoundIff(Config(2, 0, 32), MINUTE);
  }
}
