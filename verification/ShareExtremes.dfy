/** The most that whole runs can hold and enforce: what a stored share of zero costs, and
    what silent nodes cost. */
module ShareExtremes {
  import opened Seqs
  import opened Gcra
  import opened GcraLog
  import opened StaticShares
  import opened ShareGcra
  import opened Rounds
  import opened RoundSafety
  import opened ShareRange
  import opened Handover

  // ----- enforced shares -----

  function Enforced(shares: seq<int>): (s: seq<int>)
    ensures |s| == |shares|
  {
    seq(|shares|, i requires 0 <= i < |shares| => EnforcedQuota(shares[i]))
  }

  function Zeros(shares: seq<int>): nat {
    if shares == [] then 0 else Zeros(Init(shares)) + if Last(shares) == 0 then 1 else 0
  }

  /** A stored share of zero is enforced as one, so what is enforced exceeds what is
      stored by exactly the number of zero shares. */
  lemma {:induction false} EnforcedExcess(shares: seq<int>)
    requires forall i :: 0 <= i < |shares| ==> shares[i] >= 0
    ensures Sum(Enforced(shares)) == Sum(shares) + Zeros(shares)
  {
    if shares != [] {
      EnforcedExcess(Init(shares));
      assert Init(Enforced(shares)) == Enforced(Init(shares));
    }
  }

  function EnforcedTotal(cfg: Config, fleet: seq<Node>): int
    requires cfg.Valid()
  {
    Sum(Enforced(Shares(cfg, fleet)))
  }

  lemma EnforcedMono(a: seq<int>, b: seq<int>)
    requires |a| == |b| && forall i :: 0 <= i < |a| ==> a[i] <= b[i]
    ensures Sum(Enforced(a)) <= Sum(Enforced(b))
  {
    hide Sum;
    SumMono(Enforced(a), Enforced(b));
  }

  lemma {:induction false} ZerosBelow(s: seq<int>)
    ensures Zeros(s) <= |s|
    ensures Zeros(s) == |s| ==> Sum(s) == 0
  {
    if s != [] { ZerosBelow(Init(s)); }
  }

  lemma SplitEnforced(shares: seq<int>)
    requires forall i :: 0 <= i < |shares| ==> shares[i] >= 0
    requires Sum(shares) >= 1
    ensures Sum(Enforced(shares)) <= Sum(shares) + |shares| - 1
  {
    hide Sum, Zeros, Enforced;
    EnforcedExcess(shares);
    ZerosBelow(shares);
  }

  /** Only a grow call can raise what is enforced: a shrink to zero never does. */
  lemma OnlyGrowingRaisesEnforced(cfg: Config, s: System, e: Event)
    requires WellFormed(cfg, s) && Fits(cfg, e) && RoundInv(cfg, s, false) && !s.phase.Growing?
    ensures EnforcedTotal(cfg, Next(cfg, s, e).fleet) <= EnforcedTotal(cfg, s.fleet)
  {
    hide NodeShare, Sum, WorthARound, Enforced;
    StepKeepsRound(cfg, s, e, false);
    EnforcedMono(Shares(cfg, Next(cfg, s, e).fleet), Shares(cfg, s.fleet));
  }

  lemma GrowingEnforcedBelowGoal(cfg: Config, s: System)
    requires WellFormed(cfg, s) && RoundInv(cfg, s, false) && s.phase.Growing?
    ensures EnforcedTotal(cfg, s.fleet) <= Sum(Enforced(s.goal))
  {
    hide NodeShare, Sum, Enforced;
    EnforcedMono(Shares(cfg, s.fleet), s.goal);
  }

  /** The most that a nonnegative split of the limit enforces. */
  function EnforcedMost(cfg: Config): int { cfg.limit + cfg.nodes - 1 }

  ghost predicate EnforcedBounded(cfg: Config, s: System)
    requires WellFormed(cfg, s)
  {
    && EnforcedTotal(cfg, s.fleet) <= EnforcedMost(cfg)
    && (!s.phase.Idle? ==> Sum(Enforced(s.goal)) <= EnforcedMost(cfg))
  }

  lemma StepStaysEnforced(cfg: Config, s: System, e: Event)
    requires WellFormed(cfg, s) && Fits(cfg, e) && FullyAnswered(e) && RoundInv(cfg, s, false)
    requires EnforcedBounded(cfg, s)
    ensures EnforcedBounded(cfg, Next(cfg, s, e))
  {
    hide NodeShare, Sum, WorthARound, Call, RoundInv, Enforced, EnforcedTotal;
    var s' := Next(cfg, s, e);
    StepKeepsRound(cfg, s, e, false);
    if e.Tick? {
      FullGoalSum(cfg, s.fleet, e);
      SplitEnforced(GoalOf(cfg, s.fleet, e));
    }
    if !s.phase.Growing? {
      OnlyGrowingRaisesEnforced(cfg, s, e);
    } else if s'.phase.Growing? {
      GrowingEnforcedBelowGoal(cfg, s');
    }
  }

  lemma ConstantEnforced(cfg: Config, fleet: seq<Node>)
    requires cfg.Valid() && |fleet| == cfg.nodes
    requires forall i :: 0 <= i < cfg.nodes ==> Share(cfg, fleet[i]) == NodeShare(cfg.limit, cfg.nodes)
    ensures EnforcedTotal(cfg, fleet) == cfg.nodes * NodeShare(cfg.limit, cfg.nodes) <= EnforcedMost(cfg)
  {
    hide NodeShare, Sum;
    SharesCoverLimit(cfg.limit, cfg.nodes);
    ConstantSum(Enforced(Shares(cfg, fleet)), NodeShare(cfg.limit, cfg.nodes));
  }

  lemma {:induction false} RunEnforcedInv(cfg: Config, events: seq<Event>)
    requires cfg.Valid() && AllFit(cfg, events) && AllAnswered(events)
    ensures RoundInv(cfg, Exec(cfg, Fresh(cfg), events), false)
    ensures EnforcedBounded(cfg, Exec(cfg, Fresh(cfg), events))
  {
    hide NodeShare, EnforcedBounded, RoundInv, Next, Fits, FullyAnswered;
    if events == [] {
      FreshEnforced(cfg);
    } else {
      RunEnforcedInv(cfg, Init(events));
      StepKeepsRound(cfg, Exec(cfg, Fresh(cfg), Init(events)), Last(events), false);
      StepStaysEnforced(cfg, Exec(cfg, Fresh(cfg), Init(events)), Last(events));
    }
  }

  lemma FreshEnforced(cfg: Config)
    requires cfg.Valid()
    ensures RoundInv(cfg, Fresh(cfg), false) && EnforcedBounded(cfg, Fresh(cfg))
  {
    hide NodeShare, Sum, EnforcedTotal;
    ConstantEnforced(cfg, Fresh(cfg).fleet);
  }

  /** With every poll answered, a run from a fresh start enforces at most L + N - 1 at
      every step, although a stored share of zero is enforced as one. */
  lemma RunEnforced(cfg: Config, events: seq<Event>)
    requires cfg.Valid() && AllFit(cfg, events) && AllAnswered(events)
    ensures EnforcedTotal(cfg, Exec(cfg, Fresh(cfg), events).fleet) <= cfg.limit + cfg.nodes - 1
  {
    RunEnforcedInv(cfg, events);
  }

  ghost predicate ReachesEnforced(cfg: Config, count: int)
    requires cfg.Valid()
  {
    exists events ::
      AllFit(cfg, events) && AllAnswered(events) && EnforcedTotal(cfg, Exec(cfg, Fresh(cfg), events).fleet) == count
  }

  lemma OneHotEnforced(cfg: Config, fleet: seq<Node>, to: nat)
    requires cfg.Valid() && |fleet| == cfg.nodes && to < cfg.nodes
    requires forall i :: 0 <= i < cfg.nodes ==> Share(cfg, fleet[i]) == if i == to then cfg.limit else 0
    ensures Total(cfg, fleet) == cfg.limit
    ensures EnforcedTotal(cfg, fleet) == cfg.limit + cfg.nodes - 1
  {
    hide NodeShare, Sum;
    assert Shares(cfg, fleet) == OneHot(cfg.nodes, to, cfg.limit);
    OneHotSum(cfg.nodes, to, cfg.limit);
    SumOfSums(seq(cfg.nodes, _ => 1), OneHot(cfg.nodes, to, cfg.limit - 1), Enforced(Shares(cfg, fleet)));
    ConstantSum(seq(cfg.nodes, _ => 1), 1);
    OneHotSum(cfg.nodes, to, cfg.limit - 1);
  }

  /** Some such run enforces L + N - 1 exactly when the static shares round up that far or
      a round can fire; then one round can leave every node but one at zero. */
  lemma EnforcedMostReached(cfg: Config)
    requires cfg.Valid()
    ensures ReachesEnforced(cfg, cfg.limit + cfg.nodes - 1)
       <==> cfg.nodes * NodeShare(cfg.limit, cfg.nodes) == cfg.limit + cfg.nodes - 1 || RoundCanFire(cfg)
  {
    hide NodeShare, Exec, AllFit, AllAnswered, EnforcedTotal, RoundCanFire, HandoverRound, Ready;
    if RoundCanFire(cfg) {
      WholeLimitAtOne(cfg, 0);
      OtherIsNode(cfg);
      var events := [Request(cfg.proposer, 0)] + HandoverRound(cfg, Everyone(cfg.nodes), Other(cfg));
      OneHotEnforced(cfg, Exec(cfg, Fresh(cfg), events).fleet, Other(cfg));
    } else {
      forall events | AllFit(cfg, events) && AllAnswered(events)
        ensures EnforcedTotal(cfg, Exec(cfg, Fresh(cfg), events).fleet)
             == cfg.nodes * NodeShare(cfg.limit, cfg.nodes)
      {
        QuietRun(cfg, events);
        ConstantEnforced(cfg, Exec(cfg, Fresh(cfg), events).fleet);
      }
      assert AllFit(cfg, []) && AllAnswered([]) by { NoEvents(cfg); }
      assert EnforcedTotal(cfg, Exec(cfg, Fresh(cfg), []).fleet) == cfg.nodes * NodeShare(cfg.limit, cfg.nodes);
    }
  }

  lemma OtherIsNode(cfg: Config)
    requires cfg.Valid() && RoundCanFire(cfg)
    ensures Other(cfg) < cfg.nodes
  {
  }

  lemma NoEvents(cfg: Config)
    ensures AllFit(cfg, []) && AllAnswered([])
  {
  }

  // ----- silent nodes -----

  function Only(n: nat, p: nat, i: nat): (answered: seq<bool>)
    ensures |answered| == n
  {
    seq(n, k => k == p || k == i)
  }

  /** Every node below `k` but the proposer holds the limit, and so does the proposer once
      there is such a node; the rest hold the static share. */
  ghost predicate Collected(cfg: Config, s: System, k: nat) {
    && Ready(cfg, s)
    && forall i :: 0 <= i < cfg.nodes ==>
         Share(cfg, s.fleet[i]) == if HasLimit(cfg, k, i) then cfg.limit else NodeShare(cfg.limit, cfg.nodes)
  }

  predicate HasLimit(cfg: Config, k: nat, i: nat) {
    if i == cfg.proposer then k >= 2 || (k == 1 && cfg.proposer != 0) else i < k
  }

  /** The proposer hands the limit to node `k` while all others are silent, then takes it
      back while all others are silent. */
  function Collect(cfg: Config, k: nat): (events: seq<Event>) {
    HandoverRound(cfg, Only(cfg.nodes, cfg.proposer, k), k)
    + HandoverRound(cfg, Only(cfg.nodes, cfg.proposer, cfg.proposer), cfg.proposer)
  }

  lemma CollectOne(cfg: Config, s: System, k: nat)
    requires cfg.Valid() && RoundCanFire(cfg) && k < cfg.nodes && k != cfg.proposer
    requires Collected(cfg, s, k)
    ensures AllFit(cfg, Collect(cfg, k)) && Collected(cfg, Exec(cfg, s, Collect(cfg, k)), k + 1)
  {
    hide NodeShare, Exec, HandoverRound, AllFit, Fits;
    var p := cfg.proposer;
    StaticShareInRange(cfg);
    var out, back := Only(cfg.nodes, p, k), Only(cfg.nodes, p, p);
    HandoverDone(cfg, s, out, k, if Share(cfg, s.fleet[p]) >= HYSTERESIS_RPM then p else k);
    var t := Exec(cfg, s, HandoverRound(cfg, out, k));
    HandoverDone(cfg, t, back, p, p);
    ExecConcat(cfg, s, HandoverRound(cfg, out, k), HandoverRound(cfg, back, p));
    BothFit(cfg, HandoverRound(cfg, out, k), HandoverRound(cfg, back, p));
  }

  lemma {:induction false} CollectAll(cfg: Config, k: nat) returns (events: seq<Event>)
    requires cfg.Valid() && RoundCanFire(cfg) && k <= cfg.nodes
    ensures AllFit(cfg, events) && Collected(cfg, Exec(cfg, Fresh(cfg), events), k)
  {
    hide NodeShare, Exec, AllFit, Ready, Collect, RoundCanFire;
    if k == 0 {
      events := [Request(cfg.proposer, 0)];
      var s := StartFits(cfg, 0);
      ReadyAfterRequest(cfg, 0);
    } else {
      events := CollectAll(cfg, k - 1);
      if k - 1 != cfg.proposer {
        CollectOne(cfg, Exec(cfg, Fresh(cfg), events), k - 1);
        ExecConcat(cfg, Fresh(cfg), events, Collect(cfg, k - 1));
        BothFit(cfg, events, Collect(cfg, k - 1));
        events := events + Collect(cfg, k - 1);
      }
    }
  }

  ghost predicate ReachesTotal(cfg: Config, count: int)
    requires cfg.Valid()
  {
    exists events :: AllFit(cfg, events) && Total(cfg, Exec(cfg, Fresh(cfg), events).fleet) == count
  }

  lemma ConstantTotal(cfg: Config, fleet: seq<Node>, c: int)
    requires cfg.Valid() && |fleet| == cfg.nodes
    requires forall i :: 0 <= i < cfg.nodes ==> Share(cfg, fleet[i]) == c
    ensures Total(cfg, fleet) == cfg.nodes * c
  {
    hide NodeShare, Sum;
    ConstantSum(Shares(cfg, fleet), c);
  }

  /** The bound N * L of a run with silent nodes is met exactly when the static share is
      already the limit or a round can fire: the limit is then handed to one node after
      another while the rest are silent. */
  lemma AnyRunTotalReached(cfg: Config)
    requires cfg.Valid()
    ensures ReachesTotal(cfg, cfg.nodes * cfg.limit)
       <==> NodeShare(cfg.limit, cfg.nodes) == cfg.limit || RoundCanFire(cfg)
  {
    hide NodeShare, Exec, AllFit, Total, RoundCanFire, Ready;
    if RoundCanFire(cfg) {
      var events := CollectAll(cfg, cfg.nodes);
      AllCollected(cfg, Exec(cfg, Fresh(cfg), events));
      assert Total(cfg, Exec(cfg, Fresh(cfg), events).fleet) == cfg.nodes * cfg.limit;
    } else {
      var share := NodeShare(cfg.limit, cfg.nodes);
      forall events | AllFit(cfg, events)
        ensures Total(cfg, Exec(cfg, Fresh(cfg), events).fleet) == cfg.nodes * share
      {
        QuietRun(cfg, events);
        ConstantTotal(cfg, Exec(cfg, Fresh(cfg), events).fleet, share);
      }
      NoEvents(cfg);
      assert Total(cfg, Exec(cfg, Fresh(cfg), []).fleet) == cfg.nodes * share;
      if cfg.nodes * share == cfg.nodes * cfg.limit { SameFactor(cfg.nodes, share, cfg.limit); }
    }
  }

  lemma AllCollected(cfg: Config, s: System)
    requires cfg.Valid() && RoundCanFire(cfg) && Collected(cfg, s, cfg.nodes)
    ensures Total(cfg, s.fleet) == cfg.nodes * cfg.limit
  {
    hide NodeShare, Total;
    ConstantTotal(cfg, s.fleet, cfg.limit);
  }

  lemma SameFactor(n: nat, a: int, b: int)
    requires n >= 1 && n * a == n * b
    ensures a == b
  {
    assert n * (a - b) == 0;
  }

  // ----- exactly when the limit is kept -----

  ghost predicate TotalKept(cfg: Config)
    requires cfg.Valid()
  {
    forall events :: AllFit(cfg, events) ==> Total(cfg, Exec(cfg, Fresh(cfg), events).fleet) <= cfg.limit
  }

  ghost predicate TotalKeptWhenAnswered(cfg: Config)
    requires cfg.Valid()
  {
    forall events :: AllFit(cfg, events) && AllAnswered(events) ==>
      Total(cfg, Exec(cfg, Fresh(cfg), events).fleet) <= cfg.limit
  }

  ghost predicate EnforcedKeptWhenAnswered(cfg: Config)
    requires cfg.Valid()
  {
    forall events :: AllFit(cfg, events) && AllAnswered(events) ==>
      EnforcedTotal(cfg, Exec(cfg, Fresh(cfg), events).fleet) <= cfg.limit
  }

  /** The static shares sum to the limit exactly when the node count divides it. */
  lemma EvenIff(cfg: Config)
    requires cfg.Valid()
    ensures cfg.nodes * NodeShare(cfg.limit, cfg.nodes) == cfg.limit <==> cfg.limit % cfg.nodes == 0
  {
    hide NodeShare;
    var n, c, q := cfg.nodes, NodeShare(cfg.limit, cfg.nodes), cfg.limit / cfg.nodes;
    SharesCoverLimit(cfg.limit, n);
    if cfg.limit % n == 0 {
      assert cfg.limit == n * q;
      if c > q { MulMono(q + 1, c, n); } else if c < q { MulMono(c, q - 1, n); }
    } else if n * c == cfg.limit {
      MulMod(c, n);
    }
  }

  lemma FreshRun(cfg: Config)
    requires cfg.Valid()
    ensures AllFit(cfg, []) && AllAnswered([])
    ensures Total(cfg, Exec(cfg, Fresh(cfg), []).fleet) == cfg.nodes * NodeShare(cfg.limit, cfg.nodes)
    ensures EnforcedTotal(cfg, Exec(cfg, Fresh(cfg), []).fleet) == cfg.nodes * NodeShare(cfg.limit, cfg.nodes)
  {
    hide NodeShare, EnforcedTotal, Total;
    FreshTotal(cfg);
    ConstantEnforced(cfg, Fresh(cfg).fleet);
  }

  lemma QuietKept(cfg: Config, events: seq<Event>)
    requires cfg.Valid() && AllFit(cfg, events) && !RoundCanFire(cfg) && cfg.limit % cfg.nodes == 0
    ensures Total(cfg, Exec(cfg, Fresh(cfg), events).fleet) == cfg.limit
    ensures EnforcedTotal(cfg, Exec(cfg, Fresh(cfg), events).fleet) == cfg.limit
  {
    hide NodeShare, EnforcedTotal, Total, Exec, AllFit, RoundCanFire;
    EvenIff(cfg);
    QuietRun(cfg, events);
    ConstantTotal(cfg, Exec(cfg, Fresh(cfg), events).fleet, NodeShare(cfg.limit, cfg.nodes));
    ConstantEnforced(cfg, Exec(cfg, Fresh(cfg), events).fleet);
  }

  /** Every run from a fresh start keeps the shares within the limit, with every poll
      answered, exactly when the node count divides it; with polls unanswered, or counting
      a stored zero as the one it is enforced as, exactly when besides no round can fire. */
  lemma LimitKeptIff(cfg: Config)
    requires cfg.Valid()
    ensures TotalKeptWhenAnswered(cfg) <==> cfg.limit % cfg.nodes == 0
    ensures TotalKept(cfg) <==> cfg.limit % cfg.nodes == 0 && !RoundCanFire(cfg)
    ensures EnforcedKeptWhenAnswered(cfg) <==> cfg.limit % cfg.nodes == 0 && !RoundCanFire(cfg)
  {
    hide NodeShare, EnforcedTotal, Total, Exec, AllFit, AllAnswered, RoundCanFire;
    EvenIff(cfg);
    SharesCoverLimit(cfg.limit, cfg.nodes);
    FreshRun(cfg);
    if cfg.limit % cfg.nodes == 0 {
      forall events | AllFit(cfg, events) && AllAnswered(events)
        ensures Total(cfg, Exec(cfg, Fresh(cfg), events).fleet) <= cfg.limit
      {
        RunTotal(cfg, events);
      }
      if RoundCanFire(cfg) {
        AnyRunTotalReached(cfg);
        EnforcedMostReached(cfg);
        TwoNodes(cfg);
      } else {
        forall events | AllFit(cfg, events)
          ensures Total(cfg, Exec(cfg, Fresh(cfg), events).fleet) <= cfg.limit
          ensures EnforcedTotal(cfg, Exec(cfg, Fresh(cfg), events).fleet) <= cfg.limit
        {
          QuietKept(cfg, events);
        }
      }
    }
  }

  lemma TwoNodes(cfg: Config)
    requires cfg.Valid() && RoundCanFire(cfg)
    ensures cfg.nodes >= 2 && cfg.nodes * cfg.limit > cfg.limit
  {
    MulMono(2, cfg.nodes, cfg.limit);
  }
}
