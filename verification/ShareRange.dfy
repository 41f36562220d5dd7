/** The range of shares over whole runs, polls answered or not: between zero and the
    limit, and at the static share when no round can ever be worth its calls. */
module ShareRange {
  import opened Seqs
  import opened Gcra
  import opened StaticShares
  import opened Rounds

  ghost predicate InRange(cfg: Config, s: System)
    requires WellFormed(cfg, s)
  {
    forall i :: 0 <= i < cfg.nodes ==>
      && 0 <= Share(cfg, s.fleet[i]) <= cfg.limit
      && (!s.phase.Idle? ==> 0 <= s.goal[i] <= cfg.limit)
  }

  lemma GoalInRange(cfg: Config, fleet: seq<Node>, e: Event)
    requires cfg.Valid() && |fleet| == cfg.nodes && e.Tick? && Fits(cfg, e)
    requires forall i :: 0 <= i < cfg.nodes ==> 0 <= Share(cfg, fleet[i]) <= cfg.limit
    ensures forall i :: 0 <= i < cfg.nodes ==> 0 <= GoalOf(cfg, fleet, e)[i] <= cfg.limit
  {
    hide NodeShare, Sum;
    forall i | 0 <= i < cfg.nodes ensures 0 <= GoalOf(cfg, fleet, e)[i] <= cfg.limit {
      EntryAtMostSum(Masked(e.targets, e.answered), i);
    }
  }

  lemma StepKeepsRange(cfg: Config, s: System, e: Event)
    requires WellFormed(cfg, s) && Fits(cfg, e) && InRange(cfg, s)
    ensures InRange(cfg, Next(cfg, s, e))
  {
    hide NodeShare, WorthARound, Fits;
    if e.Tick? { GoalInRange(cfg, s.fleet, e); }
  }

  lemma StaticShareInRange(cfg: Config)
    requires cfg.Valid()
    ensures 1 <= NodeShare(cfg.limit, cfg.nodes) <= cfg.limit
    ensures cfg.nodes == 1 ==> NodeShare(cfg.limit, cfg.nodes) == cfg.limit
  {
    SharesCoverLimit(cfg.limit, cfg.nodes);
    CeilDivAtMost(cfg.limit, cfg.nodes, cfg.limit);
    MulMono(1, cfg.nodes, cfg.limit);
  }

  lemma {:induction false} RunInRange(cfg: Config, events: seq<Event>)
    requires cfg.Valid() && AllFit(cfg, events)
    ensures InRange(cfg, Exec(cfg, Fresh(cfg), events))
  {
    hide NodeShare, Next, Fits;
    if events == [] {
      StaticShareInRange(cfg);
    } else {
      RunInRange(cfg, Init(events));
      StepKeepsRange(cfg, Exec(cfg, Fresh(cfg), Init(events)), Last(events));
    }
  }

  /** Polls answered or not, the shares of a run from a fresh start total at most N * L. */
  lemma AnyRunTotal(cfg: Config, events: seq<Event>)
    requires cfg.Valid() && AllFit(cfg, events)
    ensures 0 <= Total(cfg, Exec(cfg, Fresh(cfg), events).fleet) <= cfg.nodes * cfg.limit
  {
    hide NodeShare, Exec, Total;
    RunInRange(cfg, events);
    InRangeTotal(cfg, Exec(cfg, Fresh(cfg), events));
  }

  lemma InRangeTotal(cfg: Config, s: System)
    requires WellFormed(cfg, s) && InRange(cfg, s)
    ensures 0 <= Total(cfg, s.fleet) <= cfg.nodes * cfg.limit
  {
    hide NodeShare, Sum;
    var shares, most := Shares(cfg, s.fleet), seq(cfg.nodes, _ => cfg.limit);
    SumMono(shares, most);
    ConstantSum(most, cfg.limit);
    NonnegativeSum(shares);
  }

  // ----- when nothing can move -----

  /** Whether some target can differ from the static share by the hysteresis. */
  predicate RoundCanFire(cfg: Config)
    requires cfg.Valid()
  {
    var share := NodeShare(cfg.limit, cfg.nodes);
    cfg.nodes >= 2 && (share >= HYSTERESIS_RPM || cfg.limit - share >= HYSTERESIS_RPM)
  }

  ghost predicate Quiet(cfg: Config, s: System)
    requires WellFormed(cfg, s)
  {
    s.phase.Idle? && forall i :: 0 <= i < cfg.nodes ==> Share(cfg, s.fleet[i]) == NodeShare(cfg.limit, cfg.nodes)
  }

  lemma StepKeepsQuiet(cfg: Config, s: System, e: Event)
    requires WellFormed(cfg, s) && Fits(cfg, e) && Quiet(cfg, s) && !RoundCanFire(cfg)
    ensures Quiet(cfg, Next(cfg, s, e))
  {
    hide NodeShare, Sum;
    StaticShareInRange(cfg);
    if e.Tick? {
      GoalInRange(cfg, s.fleet, e);
      if cfg.nodes == 1 { OneTarget(e.targets, e.answered); }
    }
  }

  lemma OneTarget(targets: seq<int>, answered: seq<bool>)
    requires |targets| == |answered| == 1 && answered[0]
    ensures Sum(Masked(targets, answered)) == targets[0]
  {
    assert Init(Masked(targets, answered)) == [];
  }

  /** When no round can fire, every node keeps the static share on every run. */
  lemma {:induction false} QuietRun(cfg: Config, events: seq<Event>)
    requires cfg.Valid() && AllFit(cfg, events) && !RoundCanFire(cfg)
    ensures Quiet(cfg, Exec(cfg, Fresh(cfg), events))
  {
    hide NodeShare, Next, Fits, RoundCanFire;
    if events != [] {
      QuietRun(cfg, Init(events));
      StepKeepsQuiet(cfg, Exec(cfg, Fresh(cfg), Init(events)), Last(events));
    }
  }
}
