/** Calls that are delivered after the proposer gave up on them: exactly when one is
    harmless, and what a run with such deliveries keeps. */
module LateCalls {
  import opened Seqs
  import opened StaticShares
  import opened Rounds
  import opened RoundSafety

  datatype LostCall = LostCall(node: nat, round: nat, quota: int)

  /** The round machine with every call it sent and lost, any of which may still arrive. */
  datatype LateSystem = LateSystem(sys: System, lost: seq<LostCall>)

  datatype LateEvent = Step(event: Event) | Arrive(k: nat)

  ghost predicate LateFits(cfg: Config, e: LateEvent) {
    e.Step? ==> Fits(cfg, e.event) && FullyAnswered(e.event)
  }

  ghost predicate AllLateFit(cfg: Config, events: seq<LateEvent>) {
    forall i :: 0 <= i < |events| ==> LateFits(cfg, events[i])
  }

  ghost predicate WellFormedLate(cfg: Config, l: LateSystem) {
    && WellFormed(cfg, l.sys)
    && forall k :: 0 <= k < |l.lost| ==> l.lost[k].node < cfg.nodes && l.lost[k].round >= 1
  }

  /** The call this event makes and loses, if any. */
  function LostBy(cfg: Config, s: System, e: Event): seq<LostCall>
    requires WellFormed(cfg, s)
  {
    if !e.Advance? || s.phase.Idle? || s.phase.next == cfg.nodes then []
    else
      var i := s.phase.next;
      var start := Share(cfg, s.polled[i]);
      var sent := if s.phase.Shrinking? then s.goal[i] < start else s.goal[i] > start;
      if sent && Reach(cfg, i, e.delivery) == Lost then [LostCall(i, s.round, s.goal[i])] else []
  }

  /** A call is lost when the step that makes it moves nothing, and would have had the node
      apply it had it been acknowledged. */
  lemma LostMeans(cfg: Config, s: System, e: Event, call: LostCall)
    requires WellFormed(cfg, s) && call in LostBy(cfg, s, e)
    ensures e == Advance(Lost) && call.node < cfg.nodes && call.node != cfg.proposer
    ensures call.quota != Share(cfg, s.polled[call.node])
    ensures Next(cfg, s, e).fleet == s.fleet
    ensures Next(cfg, s, Advance(Acked)).fleet[call.node] == Apply(s.fleet[call.node], call.round, call.quota).0
  {
    hide NodeShare, Apply;
  }

  function Delivered(s: System, call: LostCall): System
    requires call.node < |s.fleet|
  {
    s.(fleet := s.fleet[call.node := Apply(s.fleet[call.node], call.round, call.quota).0])
  }

  function LateNext(cfg: Config, l: LateSystem, e: LateEvent): (l': LateSystem)
    requires WellFormedLate(cfg, l) && LateFits(cfg, e)
    ensures WellFormedLate(cfg, l')
  {
    match e
    case Step(event) => LateSystem(Next(cfg, l.sys, event), l.lost + LostBy(cfg, l.sys, event))
    case Arrive(k) => if k < |l.lost| then l.(sys := Delivered(l.sys, l.lost[k])) else l
  }

  function LateExec(cfg: Config, l: LateSystem, events: seq<LateEvent>): (l': LateSystem)
    requires WellFormedLate(cfg, l) && AllLateFit(cfg, events)
    ensures WellFormedLate(cfg, l')
  {
    if events == [] then l else LateNext(cfg, LateExec(cfg, l, Init(events)), Last(events))
  }

  // ----- one late call -----

  /** In any state of any round whose total is within a bound, a late call keeps it there
      if and only if it is fenced out or raises its node's share by no more than is left. */
  lemma LateCallIff(cfg: Config, s: System, call: LostCall, bound: int)
    requires WellFormed(cfg, s) && call.node < cfg.nodes && call.round >= 1 && Total(cfg, s.fleet) <= bound
    ensures
      var node := s.fleet[call.node];
      Total(cfg, Delivered(s, call).fleet) <= bound <==>
        || call.round <= LastApplied(node)
        || call.quota - Share(cfg, node) <= bound - Total(cfg, s.fleet)
  {
    hide NodeShare, Sum;
    var i, shares := call.node, Shares(cfg, s.fleet);
    SumUpdate(shares, i, call.quota);
    if call.round <= LastApplied(s.fleet[i]) {
      assert Delivered(s, call).fleet == s.fleet;
    } else {
      assert Shares(cfg, Delivered(s, call).fleet) == shares[i := call.quota];
    }
  }

  // ----- runs with late calls -----

  /** A delivery that cannot hurt: refused by a node touched since, or no grow for the
      share the node holds now, or between rounds and within what the bound leaves. */
  predicate Harmless(cfg: Config, l: LateSystem, e: LateEvent, bound: int)
    requires WellFormedLate(cfg, l)
  {
    e.Arrive? && e.k < |l.lost| ==>
      var call := l.lost[e.k];
      var node := l.sys.fleet[call.node];
      || call.round <= LastApplied(node)
      || call.quota <= Share(cfg, node)
      || (l.sys.phase.Idle? && call.quota - Share(cfg, node) <= bound - Total(cfg, l.sys.fleet))
  }

  ghost predicate AllHarmless(cfg: Config, l: LateSystem, events: seq<LateEvent>, bound: int)
    requires WellFormedLate(cfg, l) && AllLateFit(cfg, events)
  {
    events != [] ==>
      && AllHarmless(cfg, l, Init(events), bound)
      && Harmless(cfg, LateExec(cfg, l, Init(events)), Last(events), bound)
  }

  /** What late calls leave of the round invariant: no share is above where the round found
      it, nor above its goal once the round has seen it shrink. */
  ghost predicate LateInv(cfg: Config, s: System, bound: int)
    requires WellFormed(cfg, s)
  {
    match s.phase
    case Idle => Total(cfg, s.fleet) <= bound
    case Shrinking(next, acked) =>
      && Total(cfg, s.polled) <= bound && Sum(s.goal) <= bound
      && (forall i :: 0 <= i < cfg.nodes ==> Share(cfg, s.fleet[i]) <= Share(cfg, s.polled[i]))
      && (forall i :: 0 <= i < next && acked && s.goal[i] < Share(cfg, s.polled[i]) ==>
            Share(cfg, s.fleet[i]) <= s.goal[i])
    case Growing(_) =>
      && Sum(s.goal) <= bound
      && (forall i :: 0 <= i < cfg.nodes ==> Share(cfg, s.fleet[i]) <= s.goal[i])
  }

  lemma LateInvBounds(cfg: Config, s: System, bound: int)
    requires WellFormed(cfg, s) && LateInv(cfg, s, bound)
    ensures Total(cfg, s.fleet) <= bound
  {
    hide NodeShare, Sum;
    if s.phase.Shrinking? { SumMono(Shares(cfg, s.fleet), Shares(cfg, s.polled)); }
    if s.phase.Growing? { SumMono(Shares(cfg, s.fleet), s.goal); }
  }

  lemma StepKeepsLateInv(cfg: Config, s: System, e: Event, bound: int)
    requires WellFormed(cfg, s) && Fits(cfg, e) && FullyAnswered(e) && cfg.limit <= bound
    requires LateInv(cfg, s, bound)
    ensures LateInv(cfg, Next(cfg, s, e), bound)
  {
    hide NodeShare, Sum, WorthARound, Call, Fits, FullyAnswered, Total;
    LateInvBounds(cfg, s, bound);
    if e.Tick? { FullGoalSum(cfg, s.fleet, e); }
    if e.Request? { RequestKeepsTotal(cfg, s, e); }
    if e.Advance? {
      if !s.phase.Idle? && s.phase.next < cfg.nodes {
        var i := s.phase.next;
        CallSets(cfg, s.fleet[i], s.round, s.goal[i], Reach(cfg, i, e.delivery));
      }
    }
  }

  lemma RequestKeepsTotal(cfg: Config, s: System, e: Event)
    requires WellFormed(cfg, s) && e.Request?
    ensures Total(cfg, Next(cfg, s, e).fleet) == Total(cfg, s.fleet)
  {
    hide NodeShare, Sum;
    assert Shares(cfg, Next(cfg, s, e).fleet) == Shares(cfg, s.fleet);
  }

  lemma LateKeepsLateInv(cfg: Config, l: LateSystem, e: LateEvent, bound: int)
    requires WellFormedLate(cfg, l) && e.Arrive? && LateFits(cfg, e)
    requires LateInv(cfg, l.sys, bound) && Harmless(cfg, l, e, bound)
    ensures LateInv(cfg, LateNext(cfg, l, e).sys, bound)
  {
    hide NodeShare, Sum, Total;
    if e.k < |l.lost| {
      LateInvBounds(cfg, l.sys, bound);
      LateCallIff(cfg, l.sys, l.lost[e.k], bound);
    }
  }

  /** From between rounds, with polls answered: calls that arrive after they were given up
      on never take the total past a bound that covers it and the limit, at any step, as
      long as each is refused by a fence, or finds its node's share no smaller than its
      quota, or comes between rounds and fits. */
  lemma {:induction false} LateRunStaysBounded(cfg: Config, l: LateSystem, events: seq<LateEvent>, bound: int)
    requires WellFormedLate(cfg, l) && AllLateFit(cfg, events) && AllHarmless(cfg, l, events, bound)
    requires l.sys.phase.Idle? && Total(cfg, l.sys.fleet) <= bound && cfg.limit <= bound
    ensures LateInv(cfg, LateExec(cfg, l, events).sys, bound)
    ensures Total(cfg, LateExec(cfg, l, events).sys.fleet) <= bound
  {
    hide NodeShare, Sum, Total, LateInv, Next, Fits, FullyAnswered, Harmless, Delivered, LostBy;
    if events == [] {
      assert LateInv(cfg, l.sys, bound) by { IdleInv(cfg, l.sys, bound); }
    } else {
      LateRunStaysBounded(cfg, l, Init(events), bound);
      var before := LateExec(cfg, l, Init(events));
      match Last(events) {
        case Step(event) => StepKeepsLateInv(cfg, before.sys, event, bound);
        case Arrive(_) => LateKeepsLateInv(cfg, before, Last(events), bound);
      }
      LateInvBounds(cfg, LateExec(cfg, l, events).sys, bound);
    }
  }

  lemma IdleInv(cfg: Config, s: System, bound: int)
    requires WellFormed(cfg, s) && s.phase.Idle? && Total(cfg, s.fleet) <= bound
    ensures LateInv(cfg, s, bound)
  {
  }
}
