/** How rounds end, and what their fences leave for the next one. */
module RoundOutcomes {
  import opened Seqs
  import opened StaticShares
  import opened Rounds
  import opened RoundSafety
  import Split

  /** No node has applied a later round than the proposer. */
  ghost predicate NoneAhead(cfg: Config, fleet: seq<Node>)
    requires cfg.Valid() && |fleet| == cfg.nodes
  {
    forall i :: 0 <= i < cfg.nodes ==> LastApplied(fleet[i]) <= LastApplied(fleet[cfg.proposer])
  }

  lemma NoneAheadNotFenced(cfg: Config, s: System, e: Event)
    requires WellFormed(cfg, s) && s.phase.Idle? && NoneAhead(cfg, s.fleet)
    requires e.Tick? && Fits(cfg, e) && Next(cfg, s, e).phase.Shrinking?
    ensures var r := Next(cfg, s, e); forall i :: 0 <= i < cfg.nodes ==> !Fenced(r, i)
    ensures GateCanOpen(cfg, Next(cfg, s, e)) && Ceilings(cfg, Next(cfg, s, e)) == Next(cfg, s, e).goal
  {
    hide NodeShare, WorthARound;
  }

  /** The state in which a round whose calls were all acknowledged leaves the system. */
  function Completed(cfg: Config, r: System): (t: System)
    requires WellFormed(cfg, r)
    ensures WellFormed(cfg, t)
  {
    Play(cfg, r, AllAcked(2 * cfg.nodes + 1) + [Acked])
  }

  /** A node stands at the round's number if its share moved, and where it stood if not. */
  ghost predicate FenceAfter(cfg: Config, s: System, e: Event, t: System, i: nat)
    requires WellFormed(cfg, s) && WellFormed(cfg, t) && e.Tick? && Fits(cfg, e) && i < cfg.nodes
  {
    LastApplied(t.fleet[i]) ==
      if GoalOf(cfg, s.fleet, e)[i] != Share(cfg, s.fleet[i]) then LastApplied(s.fleet[cfg.proposer]) + 1
      else LastApplied(s.fleet[i])
  }

  lemma CompletedRound(cfg: Config, s: System, e: Event)
    requires WellFormed(cfg, s) && s.phase.Idle? && NoneAhead(cfg, s.fleet)
    requires e.Tick? && Fits(cfg, e) && Next(cfg, s, e).phase.Shrinking?
    ensures
      var t := Completed(cfg, Next(cfg, s, e));
      && t.phase.Idle?
      && Shares(cfg, t.fleet) == GoalOf(cfg, s.fleet, e)
      && Next(cfg, t, e) == t
      && (FullyAnswered(e) ==> Total(cfg, t.fleet) == cfg.limit)
      && (NoneAhead(cfg, t.fleet) <==> e.targets[cfg.proposer] != Share(cfg, s.fleet[cfg.proposer]))
      && (forall i :: 0 <= i < cfg.nodes ==> FenceAfter(cfg, s, e, t, i))
  {
    hide FenceAfter, NodeShare, Sum, Play, GateCanOpen, RoundInv, Ceilings;
    var r := Next(cfg, s, e);
    NoneAheadNotFenced(cfg, s, e);
    RoundStarts(cfg, s, e);
    SureRoundReachesCeilings(cfg, r);
    var g := Play(cfg, r, AllAcked(2 * cfg.nodes + 1));
    var t := Completed(cfg, r);
    assert Init(AllAcked(2 * cfg.nodes + 1) + [Acked]) == AllAcked(2 * cfg.nodes + 1);
    PlayStep(cfg, r, AllAcked(2 * cfg.nodes + 1) + [Acked]);
    assert t.fleet == g.fleet && t.phase.Idle?;
    if FullyAnswered(e) { FullGoalSum(cfg, s.fleet, e); }
    SameGoalAgain(cfg, s, t, e);
    FencesAfter(cfg, s, e, r, g);
    forall i | 0 <= i < cfg.nodes ensures FenceAfter(cfg, s, e, t, i) {
      SameFence(cfg, s, e, g, t, i);
    }
  }

  lemma SameFence(cfg: Config, s: System, e: Event, g: System, t: System, i: nat)
    requires WellFormed(cfg, s) && WellFormed(cfg, g) && WellFormed(cfg, t) && e.Tick? && Fits(cfg, e)
    requires i < cfg.nodes && g.fleet == t.fleet && FenceAfter(cfg, s, e, g, i)
    ensures FenceAfter(cfg, s, e, t, i)
  {
  }

  lemma RoundStarts(cfg: Config, s: System, e: Event)
    requires WellFormed(cfg, s) && s.phase.Idle?
    requires e.Tick? && Fits(cfg, e) && Next(cfg, s, e).phase.Shrinking?
    ensures
      var r := Next(cfg, s, e);
      r.phase == Shrinking(0, true) && RoundInv(cfg, r, true) && RoundInv(cfg, r, false)
  {
    hide NodeShare, WorthARound;
  }

  /** With the shares at the goal the same tick finds nothing to move. */
  lemma SameGoalAgain(cfg: Config, s: System, t: System, e: Event)
    requires WellFormed(cfg, s) && WellFormed(cfg, t) && e.Tick? && Fits(cfg, e)
    requires Shares(cfg, t.fleet) == GoalOf(cfg, s.fleet, e)
    ensures Next(cfg, t, e) == t
  {
    hide NodeShare;
    forall i | 0 <= i < cfg.nodes ensures GoalOf(cfg, t.fleet, e)[i] == Shares(cfg, t.fleet)[i] {
      assert Shares(cfg, t.fleet)[i] == GoalOf(cfg, s.fleet, e)[i];
    }
  }

  /** After a completed round some node stands at its number, and the proposer does if
      and only if its own share moved. */
  lemma FencesAfter(cfg: Config, s: System, e: Event, r: System, g: System)
    requires WellFormed(cfg, s) && s.phase.Idle? && NoneAhead(cfg, s.fleet)
    requires e.Tick? && Fits(cfg, e) && Next(cfg, s, e) == r && r.phase.Shrinking?
    requires WellFormed(cfg, g) && SameRound(r, g) && g.phase == Growing(cfg.nodes) && RoundInv(cfg, g, true)
    ensures NoneAhead(cfg, g.fleet) <==> e.targets[cfg.proposer] != Share(cfg, s.fleet[cfg.proposer])
    ensures forall i :: 0 <= i < cfg.nodes ==> FenceAfter(cfg, s, e, g, i)
  {
    hide NodeShare;
    var start, p := Shares(cfg, s.fleet), cfg.proposer;
    var k :| 0 <= k < cfg.nodes && Split.Abs(r.goal[k] - start[k]) >= HYSTERESIS_RPM;
    forall i | 0 <= i < cfg.nodes
      ensures LastApplied(g.fleet[i]) == if r.goal[i] != start[i] then r.round else LastApplied(s.fleet[i])
    {
      assert !Fenced(r, i);
    }
    assert LastApplied(g.fleet[k]) == r.round;
  }

  /** When a shrink goes unacknowledged the round stops at the gate, with every share at
      its starting value or its smaller target. */
  lemma AbandonedRound(cfg: Config, s: System, e: Event, ds: seq<Delivery>)
    requires WellFormed(cfg, s) && s.phase.Idle?
    requires e.Tick? && Fits(cfg, e) && Next(cfg, s, e).phase.Shrinking?
    requires Play(cfg, Next(cfg, s, e), ds).phase == Shrinking(cfg.nodes, false)
    ensures
      var t := Play(cfg, Next(cfg, s, e), ds);
      && Next(cfg, t, Advance(Acked)) == t.(phase := Idle)
      && forall i :: 0 <= i < cfg.nodes ==>
           || Share(cfg, t.fleet[i]) == Share(cfg, s.fleet[i])
           || Share(cfg, t.fleet[i]) == GoalOf(cfg, s.fleet, e)[i] < Share(cfg, s.fleet[i])
  {
    hide NodeShare, Play, WorthARound;
    RoundStarts(cfg, s, e);
    PlayKeepsRound(cfg, Next(cfg, s, e), ds);
  }

  /** A node that must shrink but is fenced keeps the gate shut, whatever the deliveries. */
  lemma FencedShrinkStalls(cfg: Config, s: System, e: Event, ds: seq<Delivery>)
    requires WellFormed(cfg, s) && s.phase.Idle?
    requires e.Tick? && Fits(cfg, e) && Next(cfg, s, e).phase.Shrinking?
    requires !GateCanOpen(cfg, Next(cfg, s, e))
    ensures !Play(cfg, Next(cfg, s, e), ds).phase.Growing?
    ensures Total(cfg, Play(cfg, Next(cfg, s, e), ds).fleet) <= Total(cfg, s.fleet)
  {
    hide NodeShare, Play, WorthARound, Total;
    var r := Next(cfg, s, e);
    RoundStarts(cfg, s, e);
    PlayKeepsRound(cfg, r, ds);
    CeilingsAlike(cfg, r, Play(cfg, r, ds));
    PlayBounded(cfg, r, ds, Total(cfg, s.fleet));
  }

  // ----- the gate -----

  /** Where the shrink phase stands, and which of its calls were acknowledged. */
  ghost predicate AckedSoFar(cfg: Config, t: System, ds: seq<Delivery>)
    requires WellFormed(cfg, t)
  {
    match t.phase
    case Shrinking(next, acked) => next == |ds| && (acked ==> ShrinksAcked(cfg, t, ds, next))
    case Growing(_) => |ds| >= cfg.nodes && ShrinksAcked(cfg, t, ds, cfg.nodes)
    case Idle => true
  }

  ghost predicate ShrinksAcked(cfg: Config, t: System, ds: seq<Delivery>, next: nat)
    requires WellFormed(cfg, t) && next <= cfg.nodes && next <= |ds|
  {
    forall i :: 0 <= i < next && i != cfg.proposer && t.goal[i] < Share(cfg, t.polled[i]) ==> ds[i] == Acked
  }

  lemma AckedStep(cfg: Config, t: System, before: seq<Delivery>, d: Delivery)
    requires WellFormed(cfg, t) && AckedSoFar(cfg, t, before)
    ensures AckedSoFar(cfg, Next(cfg, t, Advance(d)), before + [d])
  {
    hide NodeShare, Apply;
    var ds := before + [d];
    assert forall i :: 0 <= i < |before| ==> ds[i] == before[i];
  }

  lemma {:induction false} PlayAcked(cfg: Config, r: System, ds: seq<Delivery>)
    requires WellFormed(cfg, r) && r.phase == Shrinking(0, true)
    ensures AckedSoFar(cfg, Play(cfg, r, ds), ds)
  {
    hide Play, Next, AckedSoFar;
    if ds == [] {
      EmptyPlay(cfg, r);
      assert AckedSoFar(cfg, r, []) by { NothingAcked(cfg, r); }
    } else {
      PlayAcked(cfg, r, Init(ds));
      PlayStep(cfg, r, ds);
      AckedStep(cfg, Play(cfg, r, Init(ds)), Init(ds), Last(ds));
      assert Init(ds) + [Last(ds)] == ds;
    }
  }

  lemma NothingAcked(cfg: Config, r: System)
    requires WellFormed(cfg, r) && r.phase == Shrinking(0, true)
    ensures AckedSoFar(cfg, r, [])
  {
  }

  /** No grow is sent before every shrink has been acknowledged: a lost call or a lost reply
      to any node that must shrink keeps the gate shut. */
  lemma GateNeedsEveryAck(cfg: Config, s: System, e: Event, ds: seq<Delivery>)
    requires WellFormed(cfg, s) && s.phase.Idle?
    requires e.Tick? && Fits(cfg, e) && Next(cfg, s, e).phase.Shrinking?
    requires Play(cfg, Next(cfg, s, e), ds).phase.Growing?
    ensures |ds| > cfg.nodes - 1
    ensures forall i :: 0 <= i < cfg.nodes && i != cfg.proposer ==>
      GoalOf(cfg, s.fleet, e)[i] < Share(cfg, s.fleet[i]) ==> ds[i] == Acked
  {
    hide NodeShare, Play, WorthARound;
    var r := Next(cfg, s, e);
    RoundStarts(cfg, s, e);
    PlayKeepsRound(cfg, r, ds);
    PlayAcked(cfg, r, ds);
  }

  // ----- the proposer's own share -----

  /** The proposer's own call is never lost: once its turn has come, it has moved. */
  ghost predicate ProposerMoved(cfg: Config, s: System)
    requires WellFormed(cfg, s)
  {
    var p := cfg.proposer;
    var start := Share(cfg, s.polled[p]);
    match s.phase
    case Idle => true
    case Shrinking(next, _) => s.goal[p] < start && p < next ==> Moved(cfg, s, p)
    case Growing(next) => s.goal[p] < start || (s.goal[p] > start && p < next) ==> Moved(cfg, s, p)
  }

  lemma ProposerStep(cfg: Config, s: System, d: Delivery)
    requires WellFormed(cfg, s) && RoundInv(cfg, s, false) && ProposerMoved(cfg, s) && !Fenced(s, cfg.proposer)
    ensures ProposerMoved(cfg, Next(cfg, s, Advance(d)))
  {
    hide NodeShare;
    StepKeepsRound(cfg, s, Advance(d), false);
  }

  /** Whatever the network does to the calls of a round, the proposer applies its own: it
      stands at its target once its turn is past, shrinking or growing. */
  lemma {:induction false} ProposerAlwaysMoves(cfg: Config, s: System, e: Event, ds: seq<Delivery>)
    requires WellFormed(cfg, s) && s.phase.Idle?
    requires e.Tick? && Fits(cfg, e) && Next(cfg, s, e).phase.Shrinking?
    ensures
      var t, p := Play(cfg, Next(cfg, s, e), ds), cfg.proposer;
      && ProposerMoved(cfg, t)
      && (t.phase.Shrinking? && p < t.phase.next && e.targets[p] < Share(cfg, s.fleet[p]) ==>
            Share(cfg, t.fleet[p]) == e.targets[p])
      && (t.phase.Growing? && p < t.phase.next ==> Share(cfg, t.fleet[p]) == e.targets[p])
  {
    hide NodeShare, Play, RoundInv, ProposerMoved, WorthARound;
    var r := Next(cfg, s, e);
    RoundStarts(cfg, s, e);
    PlayKeepsRound(cfg, r, ds);
    if ds == [] {
      EmptyPlay(cfg, r);
      assert ProposerMoved(cfg, r) by { StartMoved(cfg, r); }
    } else {
      ProposerAlwaysMoves(cfg, s, e, Init(ds));
      PlayStep(cfg, r, ds);
      PlayKeepsRound(cfg, r, Init(ds));
      ProposerStep(cfg, Play(cfg, r, Init(ds)), Last(ds));
    }
    ProposerAt(cfg, Play(cfg, r, ds));
  }

  lemma StartMoved(cfg: Config, r: System)
    requires WellFormed(cfg, r) && r.phase == Shrinking(0, true)
    ensures ProposerMoved(cfg, r)
  {
  }

  lemma ProposerAt(cfg: Config, t: System)
    requires WellFormed(cfg, t) && ProposerMoved(cfg, t) && RoundInv(cfg, t, false)
    ensures
      var p := cfg.proposer;
      && (t.phase.Shrinking? && p < t.phase.next && t.goal[p] < Share(cfg, t.polled[p]) ==>
            Share(cfg, t.fleet[p]) == t.goal[p])
      && (t.phase.Growing? && p < t.phase.next ==> Share(cfg, t.fleet[p]) == t.goal[p])
  {
    hide NodeShare;
  }

  /** Calls never touch the limit a node has cached. */
  lemma {:induction false} PlayKeepsLimit(cfg: Config, s: System, ds: seq<Delivery>, i: nat)
    requires WellFormed(cfg, s) && i < cfg.nodes && s.fleet[i].Known?
    ensures
      var node := Play(cfg, s, ds).fleet[i];
      node.Known? && node.globalLimit == s.fleet[i].globalLimit
  {
    hide Play, NodeShare;
    if ds == [] {
      EmptyPlay(cfg, s);
    } else {
      PlayKeepsLimit(cfg, s, Init(ds), i);
      PlayStep(cfg, s, ds);
    }
  }
}
