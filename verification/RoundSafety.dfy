/** Safety of the rebalance protocol over whole runs, and exactly when one round is safe. */
module RoundSafety {
  import opened Seqs
  import opened StaticShares
  import opened Rounds

  /** What a round can bring each node to: its goal, unless it must grow and is fenced. */
  function Ceilings(cfg: Config, s: System): (c: seq<int>)
    requires WellFormed(cfg, s)
    ensures |c| == cfg.nodes
  {
    seq(cfg.nodes, i requires 0 <= i < cfg.nodes =>
      if s.goal[i] > Share(cfg, s.polled[i]) && Fenced(s, i) then Share(cfg, s.polled[i]) else s.goal[i])
  }

  lemma GrowingBelowCeilings(cfg: Config, s: System)
    requires WellFormed(cfg, s) && RoundInv(cfg, s, false) && s.phase.Growing?
    ensures Total(cfg, s.fleet) <= Sum(Ceilings(cfg, s)) <= Sum(s.goal)
  {
    hide NodeShare, Sum;
    SumMono(Shares(cfg, s.fleet), Ceilings(cfg, s));
    SumMono(Ceilings(cfg, s), s.goal);
  }

  /** A call leaves a share alone or sets it to the quota, and sets it if acknowledged. */
  lemma CallSets(cfg: Config, node: Node, round: nat, quota: int, d: Delivery)
    requires cfg.Valid() && round >= 1
    ensures
      var (node', ok) := Call(node, round, quota, d);
      && (Share(cfg, node') == Share(cfg, node) || Share(cfg, node') == quota)
      && (ok ==> Share(cfg, node') == quota)
  {
    hide NodeShare;
  }

  /** Nothing but a grow call can raise the total. */
  lemma OnlyGrowingRaises(cfg: Config, s: System, e: Event)
    requires WellFormed(cfg, s) && Fits(cfg, e) && RoundInv(cfg, s, false) && !s.phase.Growing?
    ensures Total(cfg, Next(cfg, s, e).fleet) <= Total(cfg, s.fleet)
  {
    hide NodeShare, Sum, WorthARound;
    StepKeepsRound(cfg, s, e, false);
    SumMono(Shares(cfg, Next(cfg, s, e).fleet), Shares(cfg, s.fleet));
  }

  ghost predicate Bounded(cfg: Config, s: System, bound: int)
    requires WellFormed(cfg, s)
  {
    Total(cfg, s.fleet) <= bound && (!s.phase.Idle? ==> Sum(s.goal) <= bound)
  }

  lemma FullGoalSum(cfg: Config, fleet: seq<Node>, e: Event)
    requires cfg.Valid() && |fleet| == cfg.nodes && e.Tick? && Fits(cfg, e) && FullyAnswered(e)
    ensures Sum(GoalOf(cfg, fleet, e)) == cfg.limit
  {
    hide NodeShare, Sum;
    assert GoalOf(cfg, fleet, e) == Masked(e.targets, e.answered);
  }

  lemma StepStaysBounded(cfg: Config, s: System, e: Event, bound: int)
    requires WellFormed(cfg, s) && Fits(cfg, e) && FullyAnswered(e) && RoundInv(cfg, s, false)
    requires Bounded(cfg, s, bound) && cfg.limit <= bound
    ensures Bounded(cfg, Next(cfg, s, e), bound)
  {
    hide NodeShare, Sum, WorthARound, Call, RoundInv, Fits;
    var s' := Next(cfg, s, e);
    StepKeepsRound(cfg, s, e, false);
    if e.Tick? { FullGoalSum(cfg, s.fleet, e); }
    if !s.phase.Growing? {
      OnlyGrowingRaises(cfg, s, e);
    } else if s'.phase.Growing? {
      GrowingBelowCeilings(cfg, s');
    }
  }

  ghost predicate AllAnswered(events: seq<Event>) {
    forall i :: 0 <= i < |events| ==> FullyAnswered(events[i])
  }

  lemma {:induction false} RunStaysBounded(cfg: Config, s: System, events: seq<Event>, bound: int)
    requires WellFormed(cfg, s) && RoundInv(cfg, s, false)
    requires AllFit(cfg, events) && AllAnswered(events)
    requires Bounded(cfg, s, bound) && cfg.limit <= bound
    ensures RoundInv(cfg, Exec(cfg, s, events), false)
    ensures Bounded(cfg, Exec(cfg, s, events), bound)
  {
    hide NodeShare, Sum, Bounded, RoundInv, Next, Fits, FullyAnswered;
    if events != [] {
      RunStaysBounded(cfg, s, Init(events), bound);
      StepKeepsRound(cfg, Exec(cfg, s, Init(events)), Last(events), false);
      StepStaysBounded(cfg, Exec(cfg, s, Init(events)), Last(events), bound);
    }
  }

  // ----- whole runs with fully answered polls -----

  lemma FreshTotal(cfg: Config)
    requires cfg.Valid()
    ensures Total(cfg, Fresh(cfg).fleet) == cfg.nodes * NodeShare(cfg.limit, cfg.nodes)
    ensures cfg.limit <= cfg.nodes * NodeShare(cfg.limit, cfg.nodes)
  {
    hide NodeShare;
    var shares := Shares(cfg, Fresh(cfg).fleet);
    ConstantSum(shares, NodeShare(cfg.limit, cfg.nodes));
    SharesCoverLimit(cfg.limit, cfg.nodes);
  }

  /** From a fresh start, whatever the calls' fates and wherever requests fall: at every
      step the shares total at most N * ceil(L / N), and at most L while growing. */
  lemma RunTotal(cfg: Config, events: seq<Event>)
    requires cfg.Valid() && AllFit(cfg, events) && AllAnswered(events)
    ensures Total(cfg, Exec(cfg, Fresh(cfg), events).fleet) <= cfg.nodes * NodeShare(cfg.limit, cfg.nodes)
    ensures Exec(cfg, Fresh(cfg), events).phase.Growing?
        ==> Total(cfg, Exec(cfg, Fresh(cfg), events).fleet) <= cfg.limit
  {
    hide NodeShare, Sum, Exec, Total;
    FreshTotal(cfg);
    RunStaysBounded(cfg, Fresh(cfg), events, cfg.nodes * NodeShare(cfg.limit, cfg.nodes));
    GoalIsLimit(cfg, events);
    var s := Exec(cfg, Fresh(cfg), events);
    if s.phase.Growing? { GrowingBelowCeilings(cfg, s); }
  }

  lemma {:induction false} GoalIsLimit(cfg: Config, events: seq<Event>)
    requires cfg.Valid() && AllFit(cfg, events) && AllAnswered(events)
    ensures var s := Exec(cfg, Fresh(cfg), events); !s.phase.Idle? ==> Sum(s.goal) == cfg.limit
  {
    hide NodeShare, Sum, WorthARound, Call, Fits;
    if events != [] {
      GoalIsLimit(cfg, Init(events));
      if Last(events).Tick? { FullGoalSum(cfg, Exec(cfg, Fresh(cfg), Init(events)).fleet, Last(events)); }
    }
  }

  /** Once the total is at most the limit it stays so. */
  lemma OnceWithinLimit(cfg: Config, events: seq<Event>, later: seq<Event>)
    requires cfg.Valid() && AllFit(cfg, events) && AllAnswered(events)
    requires AllFit(cfg, later) && AllAnswered(later)
    requires Total(cfg, Exec(cfg, Fresh(cfg), events).fleet) <= cfg.limit
    ensures Total(cfg, Exec(cfg, Exec(cfg, Fresh(cfg), events), later).fleet) <= cfg.limit
  {
    hide NodeShare, Sum, Exec, Total;
    FreshTotal(cfg);
    RunStaysBounded(cfg, Fresh(cfg), events, cfg.nodes * NodeShare(cfg.limit, cfg.nodes));
    GoalIsLimit(cfg, events);
    RunStaysBounded(cfg, Exec(cfg, Fresh(cfg), events), later, cfg.limit);
  }

  // ----- one round, exactly -----

  function Advances(ds: seq<Delivery>): (events: seq<Event>)
    ensures |events| == |ds|
  {
    seq(|ds|, i requires 0 <= i < |ds| => Advance(ds[i]))
  }

  /** The state after the calls of a round have met these fates. */
  function Play(cfg: Config, s: System, ds: seq<Delivery>): (s': System)
    requires WellFormed(cfg, s)
    ensures WellFormed(cfg, s')
  {
    Exec(cfg, s, Advances(ds))
  }

  lemma PlayStep(cfg: Config, s: System, ds: seq<Delivery>)
    requires WellFormed(cfg, s) && ds != []
    ensures Play(cfg, s, ds) == Next(cfg, Play(cfg, s, Init(ds)), Advance(Last(ds)))
  {
    hide Next;
    assert Init(Advances(ds)) == Advances(Init(ds));
  }

  ghost predicate SameRound(s: System, t: System) {
    s.polled == t.polled && s.goal == t.goal && s.round == t.round
  }

  lemma {:induction false} PlayKeepsRound(cfg: Config, s: System, ds: seq<Delivery>)
    requires WellFormed(cfg, s) && RoundInv(cfg, s, false)
    ensures RoundInv(cfg, Play(cfg, s, ds), false) && SameRound(s, Play(cfg, s, ds))
  {
    hide RoundInv, NodeShare, Call, Exec;
    if ds == [] {
      EmptyPlay(cfg, s);
    } else {
      PlayKeepsRound(cfg, s, Init(ds));
      PlayStep(cfg, s, ds);
      StepKeepsRound(cfg, Play(cfg, s, Init(ds)), Advance(Last(ds)), false);
    }
  }

  lemma EmptyPlay(cfg: Config, s: System)
    requires WellFormed(cfg, s)
    ensures Play(cfg, s, []) == s
  {
  }

  lemma {:induction false} PlayBounded(cfg: Config, s: System, ds: seq<Delivery>, bound: int)
    requires WellFormed(cfg, s) && RoundInv(cfg, s, false) && Total(cfg, s.fleet) <= bound
    requires GateCanOpen(cfg, s) ==> Sum(Ceilings(cfg, s)) <= bound
    ensures Total(cfg, Play(cfg, s, ds).fleet) <= bound
  {
    hide Exec, NodeShare, Call, Sum, Ceilings, Total;
    if ds == [] {
      EmptyPlay(cfg, s);
    } else {
      PlayBounded(cfg, s, Init(ds), bound);
      PlayStep(cfg, s, ds);
      PlayKeepsRound(cfg, s, Init(ds));
      PlayKeepsRound(cfg, s, ds);
      var t, t' := Play(cfg, s, Init(ds)), Play(cfg, s, ds);
      if !t.phase.Growing? {
        OnlyGrowingRaises(cfg, t, Advance(Last(ds)));
      } else if t'.phase.Growing? {
        GrowingBelowCeilings(cfg, t');
        CeilingsAlike(cfg, s, t');
      }
    }
  }

  lemma CeilingsAlike(cfg: Config, s: System, t: System)
    requires WellFormed(cfg, s) && WellFormed(cfg, t) && SameRound(s, t)
    ensures Ceilings(cfg, s) == Ceilings(cfg, t) && GateCanOpen(cfg, s) == GateCanOpen(cfg, t)
  {
  }

  function AllAcked(k: nat): seq<Delivery> { seq(k, _ => Acked) }

  /** When every call is acknowledged, the round's place after k steps is fixed, and it
      passes the gate unless a node that must shrink is fenced. */
  lemma {:induction false} SureRound(cfg: Config, s: System, k: nat)
    requires WellFormed(cfg, s) && RoundInv(cfg, s, true) && s.phase == Shrinking(0, true)
    requires GateCanOpen(cfg, s) && k <= 2 * cfg.nodes + 1
    ensures
      var t := Play(cfg, s, AllAcked(k));
      && SameRound(s, t) && RoundInv(cfg, t, true)
      && t.phase == if k <= cfg.nodes then Shrinking(k, true) else Growing(k - cfg.nodes - 1)
  {
    hide NodeShare, Call, Exec;
    if k == 0 {
      EmptyPlay(cfg, s);
    } else {
      SureRound(cfg, s, k - 1);
      assert Init(AllAcked(k)) == AllAcked(k - 1);
      PlayStep(cfg, s, AllAcked(k));
      StepKeepsRound(cfg, Play(cfg, s, AllAcked(k - 1)), Advance(Acked), true);
    }
  }

  /** The last state of the round when every call is acknowledged. */
  lemma SureRoundReachesCeilings(cfg: Config, s: System)
    requires WellFormed(cfg, s) && RoundInv(cfg, s, true) && s.phase == Shrinking(0, true) && GateCanOpen(cfg, s)
    ensures
      var t := Play(cfg, s, AllAcked(2 * cfg.nodes + 1));
      && Shares(cfg, t.fleet) == Ceilings(cfg, s)
      && t.phase == Growing(cfg.nodes) && SameRound(s, t) && RoundInv(cfg, t, true)
  {
    hide NodeShare, Play;
    SureRound(cfg, s, 2 * cfg.nodes + 1);
    var t := Play(cfg, s, AllAcked(2 * cfg.nodes + 1));
    CeilingsAlike(cfg, s, t);
    assert Shares(cfg, t.fleet) == Ceilings(cfg, t);
  }

  /** No fate of its calls takes the round's total above the bound. */
  ghost predicate RoundSafe(cfg: Config, s: System, bound: int)
    requires WellFormed(cfg, s)
  {
    forall ds :: Total(cfg, Play(cfg, s, ds).fleet) <= bound
  }

  /** What the nodes that did not answer hold. */
  function SilentTotal(cfg: Config, fleet: seq<Node>, e: Event): int
    requires cfg.Valid() && |fleet| == cfg.nodes && e.Tick? && |e.answered| == cfg.nodes
  {
    Sum(Masked(Shares(cfg, fleet), Not(e.answered)))
  }

  function Not(mask: seq<bool>): (r: seq<bool>)
    ensures |r| == |mask|
  {
    seq(|mask|, i requires 0 <= i < |mask| => !mask[i])
  }

  /** The growth that the round's fences will refuse. */
  function FencedGrowth(cfg: Config, s: System): int
    requires WellFormed(cfg, s)
  {
    Sum(Gaps(cfg, s))
  }

  function Gaps(cfg: Config, s: System): (g: seq<int>)
    requires WellFormed(cfg, s)
    ensures |g| == cfg.nodes
  {
    seq(cfg.nodes, i requires 0 <= i < cfg.nodes =>
      if s.goal[i] > Share(cfg, s.polled[i]) && Fenced(s, i) then s.goal[i] - Share(cfg, s.polled[i]) else 0)
  }

  lemma CeilingSum(cfg: Config, s: System, e: Event)
    requires WellFormed(cfg, s) && e.Tick? && Fits(cfg, e)
    requires s.goal == GoalOf(cfg, s.polled, e)
    ensures Sum(Ceilings(cfg, s)) == cfg.limit + SilentTotal(cfg, s.polled, e) - FencedGrowth(cfg, s)
  {
    hide Sum, NodeShare;
    SumOfSums(Ceilings(cfg, s), Gaps(cfg, s), s.goal);
    SumOfSums(Masked(e.targets, e.answered), Masked(Shares(cfg, s.polled), Not(e.answered)), s.goal);
  }

  /** A round begun within a bound stays within it, whatever happens to its calls, if and
      only if its gate cannot open or the bound covers the limit and the silent nodes'
      shares, less the growth that fences will refuse. */
  lemma RoundSafeIff(cfg: Config, s: System, e: Event, bound: int)
    requires WellFormed(cfg, s) && s.phase.Idle? && Total(cfg, s.fleet) <= bound
    requires e.Tick? && Fits(cfg, e) && Next(cfg, s, e).phase.Shrinking?
    ensures
      var r := Next(cfg, s, e);
      RoundSafe(cfg, r, bound) <==>
        (GateCanOpen(cfg, r) ==> cfg.limit + SilentTotal(cfg, s.fleet, e) - FencedGrowth(cfg, r) <= bound)
  {
    hide NodeShare, Sum, Ceilings, Play, WorthARound, Total, SilentTotal, FencedGrowth, Shares;
    var r := Next(cfg, s, e);
    CeilingSum(cfg, r, e);
    if GateCanOpen(cfg, r) {
      SureRoundReachesCeilings(cfg, r);
      TotalIsSum(cfg, Play(cfg, r, AllAcked(2 * cfg.nodes + 1)).fleet);
    }
    if GateCanOpen(cfg, r) ==> cfg.limit + SilentTotal(cfg, s.fleet, e) - FencedGrowth(cfg, r) <= bound {
      forall ds ensures Total(cfg, Play(cfg, r, ds).fleet) <= bound {
        PlayBounded(cfg, r, ds, bound);
      }
    }
  }

  lemma TotalIsSum(cfg: Config, fleet: seq<Node>)
    requires cfg.Valid()
    ensures Total(cfg, fleet) == Sum(Shares(cfg, fleet))
  {
  }
}
