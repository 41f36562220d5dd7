/** The most that calls arriving after they were given up on can do to whole runs. */
module LateExtremes {
  import opened Seqs
  import opened StaticShares
  import opened Rounds
  import opened RoundSafety
  import opened RoundOutcomes
  import opened ShareRange
  import opened Handover
  import opened LateCalls
  import opened ShareExtremes

  function LateFresh(cfg: Config): (l: LateSystem)
    requires cfg.Valid()
    ensures WellFormedLate(cfg, l)
  {
    LateSystem(Fresh(cfg), [])
  }

  // ----- the bound -----

  ghost predicate LateInRange(cfg: Config, l: LateSystem)
    requires WellFormedLate(cfg, l)
  {
    && InRange(cfg, l.sys)
    && forall k :: 0 <= k < |l.lost| ==> 0 <= l.lost[k].quota <= cfg.limit
  }

  lemma LateStepInRange(cfg: Config, l: LateSystem, e: LateEvent)
    requires WellFormedLate(cfg, l) && LateFits(cfg, e) && LateInRange(cfg, l)
    ensures LateInRange(cfg, LateNext(cfg, l, e))
  {
    hide NodeShare, Next, Fits, FullyAnswered;
    if e.Step? { StepKeepsRange(cfg, l.sys, e.event); }
  }

  lemma {:induction false} LateRunInRange(cfg: Config, events: seq<LateEvent>)
    requires cfg.Valid() && AllLateFit(cfg, events)
    ensures LateInRange(cfg, LateExec(cfg, LateFresh(cfg), events))
  {
    hide NodeShare, LateNext, LateFits;
    if events == [] {
      StaticShareInRange(cfg);
    } else {
      LateRunInRange(cfg, Init(events));
      LateStepInRange(cfg, LateExec(cfg, LateFresh(cfg), Init(events)), Last(events));
    }
  }

  /** Whatever arrives late, and however often, the shares of a run from a fresh start
      total at most N * L. */
  lemma AnyLateRunTotal(cfg: Config, events: seq<LateEvent>)
    requires cfg.Valid() && AllLateFit(cfg, events)
    ensures 0 <= Total(cfg, LateExec(cfg, LateFresh(cfg), events).sys.fleet) <= cfg.nodes * cfg.limit
  {
    hide NodeShare, LateExec, Total;
    LateRunInRange(cfg, events);
    InRangeTotal(cfg, LateExec(cfg, LateFresh(cfg), events).sys);
  }

  // ----- runs without late calls -----

  function Steps(events: seq<Event>): (late: seq<LateEvent>)
    ensures |late| == |events|
  {
    seq(|events|, i requires 0 <= i < |events| => Step(events[i]))
  }

  ghost predicate NothingLost(events: seq<Event>) {
    forall i :: 0 <= i < |events| && events[i].Advance? ==> events[i].delivery != Lost
  }

  lemma {:induction false} StepsOnly(cfg: Config, l: LateSystem, events: seq<Event>)
    requires WellFormedLate(cfg, l) && AllFit(cfg, events) && AllAnswered(events)
    ensures AllLateFit(cfg, Steps(events))
    ensures
      var l' := LateExec(cfg, l, Steps(events));
      && l'.sys == Exec(cfg, l.sys, events)
      && (NothingLost(events) ==> l'.lost == l.lost)
  {
    hide NodeShare, Next, Fits, FullyAnswered;
    if events != [] {
      StepsOnly(cfg, l, Init(events));
      assert Init(Steps(events)) == Steps(Init(events));
      if NothingLost(events) {
        assert NothingLost(Init(events)) && LostBy(cfg, Exec(cfg, l.sys, Init(events)), Last(events)) == [];
      }
    }
  }

  lemma {:induction false} LateConcat(cfg: Config, l: LateSystem, a: seq<LateEvent>, b: seq<LateEvent>)
    requires WellFormedLate(cfg, l) && AllLateFit(cfg, a) && AllLateFit(cfg, b)
    ensures LateExec(cfg, l, a + b) == LateExec(cfg, LateExec(cfg, l, a), b)
  {
    hide LateNext, LateFits;
    if b == [] {
      assert a + b == a;
    } else {
      assert Init(a + b) == a + Init(b);
      LateConcat(cfg, l, a, Init(b));
    }
  }

  // ----- a grow that is lost -----

  function AllLost(k: nat): seq<Delivery> { seq(k, _ => Lost) }

  /** A tick that hands the limit to `to`, whose shrinks are acknowledged and whose grow is lost. */
  function LosingRound(cfg: Config, to: nat): (events: seq<Event>) {
    [HandoverTick(cfg, Everyone(cfg.nodes), to)]
    + Advances(AllAcked(cfg.nodes + 1)) + Advances(AllLost(cfg.nodes)) + [Advance(Acked)]
  }

  /** Only `to` must grow in this round. */
  ghost predicate OneGrower(cfg: Config, s: System, to: nat)
    requires WellFormed(cfg, s)
  {
    forall i :: 0 <= i < cfg.nodes ==> (s.goal[i] > Share(cfg, s.polled[i]) <==> i == to)
  }

  lemma {:induction false} GrowLost(cfg: Config, l: LateSystem, to: nat, k: nat)
    requires WellFormedLate(cfg, l) && l.sys.phase == Growing(0) && OneGrower(cfg, l.sys, to)
    requires to < cfg.nodes && to != cfg.proposer && k <= cfg.nodes
    ensures AllLateFit(cfg, Steps(Advances(AllLost(k))))
    ensures LateExec(cfg, l, Steps(Advances(AllLost(k))))
         == LateSystem(l.sys.(phase := Growing(k)),
                       l.lost + if k > to then [LostCall(to, l.sys.round, l.sys.goal[to])] else [])
  {
    hide NodeShare, LateNext, Fits;
    LosesFit(cfg, k);
    if k > 0 {
      GrowLost(cfg, l, to, k - 1);
      assert Init(Steps(Advances(AllLost(k)))) == Steps(Advances(AllLost(k - 1)));
      LoseOne(cfg, LateExec(cfg, l, Steps(Advances(AllLost(k - 1)))), to);
    }
  }

  lemma LosesFit(cfg: Config, k: nat)
    ensures AllLateFit(cfg, Steps(Advances(AllLost(k))))
  {
  }

  lemma LoseOne(cfg: Config, l: LateSystem, to: nat)
    requires WellFormedLate(cfg, l) && l.sys.phase.Growing? && OneGrower(cfg, l.sys, to)
    requires to != cfg.proposer && l.sys.phase.next < cfg.nodes
    ensures
      var k := l.sys.phase.next;
      LateNext(cfg, l, Step(Advance(Lost)))
        == LateSystem(l.sys.(phase := Growing(k + 1)),
                      l.lost + if k == to then [LostCall(to, l.sys.round, l.sys.goal[to])] else [])
  {
    hide NodeShare;
    var k := l.sys.phase.next;
    assert l.sys.fleet[k := l.sys.fleet[k]] == l.sys.fleet;
  }

  /** The proposer holds the limit and the rest nothing. */
  ghost predicate AllAtProposer(cfg: Config, s: System) {
    && Ready(cfg, s)
    && forall i :: 0 <= i < cfg.nodes ==> Share(cfg, s.fleet[i]) == if i == cfg.proposer then cfg.limit else 0
  }

  lemma LosingRoundFits(cfg: Config, to: nat)
    requires cfg.Valid() && to < cfg.nodes
    ensures Fits(cfg, HandoverTick(cfg, Everyone(cfg.nodes), to))
    ensures AllFit(cfg, LosingRound(cfg, to)) && AllAnswered(LosingRound(cfg, to))
  {
    hide Fits;
    HandoverFits(cfg, Everyone(cfg.nodes), to);
    assert forall d :: Fits(cfg, Advance(d)) by { AdvanceFits(cfg); }
  }

  lemma AdvanceFits(cfg: Config)
    ensures forall d :: Fits(cfg, Advance(d))
  {
  }

  /** Up to the gate. */
  lemma LosingShrinks(cfg: Config, s: System, to: nat)
    requires AllAtProposer(cfg, s) && cfg.limit >= HYSTERESIS_RPM && to < cfg.nodes && to != cfg.proposer
    requires Fits(cfg, HandoverTick(cfg, Everyone(cfg.nodes), to))
    ensures
      var r := Next(cfg, s, HandoverTick(cfg, Everyone(cfg.nodes), to));
      var g := Play(cfg, r, AllAcked(cfg.nodes + 1));
      && g.phase == Growing(0) && OneGrower(cfg, g, to)
      && g.goal[to] == cfg.limit && g.round == LastApplied(s.fleet[cfg.proposer]) + 1
      && (forall i :: 0 <= i < cfg.nodes ==> Share(cfg, g.fleet[i]) == 0)
      && (forall i :: 0 <= i < cfg.nodes ==>
            LastApplied(g.fleet[i]) == if i == cfg.proposer then g.round else LastApplied(s.fleet[i]))
  {
    hide NodeShare, Play, Fits, NoneAhead, GateCanOpen, RoundInv, Fenced, WorthARound;
    var e := HandoverTick(cfg, Everyone(cfg.nodes), to);
    var r := Next(cfg, s, e);
    TickFires(cfg, s, to);
    NoneAheadNotFenced(cfg, s, e);
    RoundStarts(cfg, s, e);
    SureRound(cfg, r, cfg.nodes + 1);
    var g := Play(cfg, r, AllAcked(cfg.nodes + 1));
    CeilingsAlike(cfg, r, g);
    forall i | 0 <= i < cfg.nodes
      ensures Share(cfg, g.fleet[i]) == 0 && (g.goal[i] > Share(cfg, g.polled[i]) <==> i == to)
      ensures LastApplied(g.fleet[i]) == if i == cfg.proposer then g.round else LastApplied(s.fleet[i])
    {
      ShrunkAt(cfg, s, g, to, i);
    }
  }

  lemma TickFires(cfg: Config, s: System, to: nat)
    requires AllAtProposer(cfg, s) && cfg.limit >= HYSTERESIS_RPM && to < cfg.nodes && to != cfg.proposer
    requires Fits(cfg, HandoverTick(cfg, Everyone(cfg.nodes), to))
    ensures
      Next(cfg, s, HandoverTick(cfg, Everyone(cfg.nodes), to))
        == System(s.fleet, s.fleet, OneHot(cfg.nodes, to, cfg.limit),
                  LastApplied(s.fleet[cfg.proposer]) + 1, Shrinking(0, true))
  {
    hide NodeShare, Fits, NoneAhead;
    var e := HandoverTick(cfg, Everyone(cfg.nodes), to);
    assert GoalOf(cfg, s.fleet, e) == OneHot(cfg.nodes, to, cfg.limit);
    assert GoalOf(cfg, s.fleet, e)[cfg.proposer] == 0;
    assert Shares(cfg, s.fleet)[cfg.proposer] == cfg.limit;
  }

  lemma ShrunkAt(cfg: Config, s: System, g: System, to: nat, i: nat)
    requires AllAtProposer(cfg, s) && cfg.limit >= HYSTERESIS_RPM && to < cfg.nodes && to != cfg.proposer
    requires WellFormed(cfg, g) && g.phase == Growing(0) && RoundInv(cfg, g, true) && i < cfg.nodes
    requires g.polled == s.fleet && g.goal == OneHot(cfg.nodes, to, cfg.limit)
    ensures Share(cfg, g.fleet[i]) == 0 && (g.goal[i] > Share(cfg, g.polled[i]) <==> i == to)
    ensures LastApplied(g.fleet[i]) == if i == cfg.proposer then g.round else LastApplied(s.fleet[i])
  {
    hide NodeShare, NoneAhead;
  }

  /** The round leaves nobody with anything, and the lost grow on its way. */
  lemma LosingRoundDone(cfg: Config, l: LateSystem, to: nat)
    requires WellFormedLate(cfg, l) && AllAtProposer(cfg, l.sys)
    requires cfg.limit >= HYSTERESIS_RPM && to < cfg.nodes && to != cfg.proposer
    ensures AllLateFit(cfg, Steps(LosingRound(cfg, to)))
    ensures
      var l', fleet := LateExec(cfg, l, Steps(LosingRound(cfg, to))), l.sys.fleet;
      var round := LastApplied(fleet[cfg.proposer]) + 1;
      && Ready(cfg, l'.sys)
      && l'.lost == l.lost + [LostCall(to, round, cfg.limit)]
      && (forall i :: 0 <= i < cfg.nodes ==> Share(cfg, l'.sys.fleet[i]) == 0)
      && (forall i :: 0 <= i < cfg.nodes && i != cfg.proposer ==>
            LastApplied(l'.sys.fleet[i]) == LastApplied(fleet[i]) < round)
  {
    hide NodeShare, Exec, LateExec, Play, Fits, AllFit, FullyAnswered, Next, LateNext, AllLateFit;
    LosingRoundFits(cfg, to);
    var n, tick := cfg.nodes, HandoverTick(cfg, Everyone(cfg.nodes), to);
    var shrinks, grows := [tick] + Advances(AllAcked(n + 1)), Advances(AllLost(n));
    var gate := ToTheGate(cfg, l, to);
    GrowLost(cfg, gate, to, n);
    var grown := LateExec(cfg, gate, Steps(grows));
    LastAdvance(cfg, grown);
    assert Steps(LosingRound(cfg, to)) == Steps(shrinks) + Steps(grows) + Steps([Advance(Acked)]);
    LateConcat(cfg, l, Steps(shrinks), Steps(grows));
    FitTogether(cfg, Steps(shrinks), Steps(grows));
    FitTogether(cfg, Steps(shrinks) + Steps(grows), Steps([Advance(Acked)]));
    LateConcat(cfg, l, Steps(shrinks) + Steps(grows), Steps([Advance(Acked)]));
  }

  lemma FitTogether(cfg: Config, a: seq<LateEvent>, b: seq<LateEvent>)
    requires AllLateFit(cfg, a) && AllLateFit(cfg, b)
    ensures AllLateFit(cfg, a + b)
  {
    hide LateFits;
  }

  lemma LastAdvance(cfg: Config, l: LateSystem)
    requires WellFormedLate(cfg, l) && l.sys.phase == Growing(cfg.nodes)
    ensures AllLateFit(cfg, Steps([Advance(Acked)]))
    ensures LateExec(cfg, l, Steps([Advance(Acked)])) == l.(sys := l.sys.(phase := Idle))
  {
    hide NodeShare;
    assert Init(Steps([Advance(Acked)])) == [];
  }

  lemma ToTheGate(cfg: Config, l: LateSystem, to: nat) returns (gate: LateSystem)
    requires WellFormedLate(cfg, l) && AllAtProposer(cfg, l.sys)
    requires cfg.limit >= HYSTERESIS_RPM && to < cfg.nodes && to != cfg.proposer
    ensures
      var shrinks := [HandoverTick(cfg, Everyone(cfg.nodes), to)] + Advances(AllAcked(cfg.nodes + 1));
      && AllLateFit(cfg, Steps(shrinks)) && gate == LateExec(cfg, l, Steps(shrinks))
    ensures WellFormedLate(cfg, gate) && gate.lost == l.lost
    ensures gate.sys.phase == Growing(0) && OneGrower(cfg, gate.sys, to)
    ensures gate.sys.goal[to] == cfg.limit && gate.sys.round == LastApplied(l.sys.fleet[cfg.proposer]) + 1
    ensures Ready(cfg, gate.sys.(phase := Idle))
    ensures forall i :: 0 <= i < cfg.nodes ==> Share(cfg, gate.sys.fleet[i]) == 0
    ensures forall i :: 0 <= i < cfg.nodes && i != cfg.proposer ==>
      LastApplied(gate.sys.fleet[i]) == LastApplied(l.sys.fleet[i]) < gate.sys.round
  {
    hide NodeShare, Exec, LateExec, Play, Fits, FullyAnswered, Next, LateNext;
    LosingRoundFits(cfg, to);
    var tick, calls := HandoverTick(cfg, Everyone(cfg.nodes), to), AllAcked(cfg.nodes + 1);
    var r := Next(cfg, l.sys, tick);
    TickFires(cfg, l.sys, to);
    LosingShrinks(cfg, l.sys, to);
    AdvancesFit(cfg, calls);
    HandoverAnswered(cfg, to);
    assert FullyAnswered(HandoverRound(cfg, Everyone(cfg.nodes), to)[0]);
    OneFits(cfg, tick);
    BothFit(cfg, [tick], Advances(calls));
    AdvancesAnswered(calls);
    StepsOnly(cfg, l, [tick] + Advances(calls));
    assert NothingLost([tick] + Advances(calls));
    ExecConcat(cfg, l.sys, [tick], Advances(calls));
    ExecOne(cfg, l.sys, tick);
    PlayIsExec(cfg, r, calls);
    PlayKeepsLimit(cfg, r, calls, cfg.proposer);
    gate := LateExec(cfg, l, Steps([tick] + Advances(calls)));
  }

  lemma OneFits(cfg: Config, e: Event)
    requires Fits(cfg, e) && FullyAnswered(e)
    ensures AllFit(cfg, [e]) && AllAnswered([e])
  {
    hide Fits, FullyAnswered;
  }

  lemma AdvancesAnswered(ds: seq<Delivery>)
    ensures AllAnswered(Advances(ds))
  {
  }

  // ----- a grow lost to every node -----

  /** The m-th lost call would still bring node i the whole limit. */
  ghost predicate Owes(cfg: Config, l: LateSystem, m: nat, i: nat)
    requires WellFormedLate(cfg, l) && i < cfg.nodes
  {
    m < |l.lost| && l.lost[m].node == i && l.lost[m].quota == cfg.limit
    && l.lost[m].round > LastApplied(l.sys.fleet[i])
  }

  ghost predicate Owed(cfg: Config, l: LateSystem, i: nat)
    requires WellFormedLate(cfg, l) && i < cfg.nodes
  {
    exists m :: Owes(cfg, l, m, i)
  }

  ghost predicate OwedBelow(cfg: Config, l: LateSystem, k: nat) {
    && WellFormedLate(cfg, l) && AllAtProposer(cfg, l.sys)
    && forall i :: 0 <= i < k && i < cfg.nodes && i != cfg.proposer ==> Owed(cfg, l, i)
  }

  lemma OwedStays(cfg: Config, l: LateSystem, t: LateSystem, i: nat)
    requires WellFormedLate(cfg, l) && WellFormedLate(cfg, t) && i < cfg.nodes && Owed(cfg, l, i)
    requires LastApplied(t.sys.fleet[i]) == LastApplied(l.sys.fleet[i]) && l.lost <= t.lost
    ensures Owed(cfg, t, i)
  {
    var m :| Owes(cfg, l, m, i);
    assert Owes(cfg, t, m, i);
  }

  /** The limit goes out to node k, is lost on the way, and goes back to the proposer. */
  function OweOne(cfg: Config, k: nat): (events: seq<LateEvent>) {
    Steps(LosingRound(cfg, k)) + Steps(HandoverRound(cfg, Everyone(cfg.nodes), cfg.proposer))
  }

  lemma OweOneMore(cfg: Config, l: LateSystem, k: nat)
    requires OwedBelow(cfg, l, k) && cfg.limit >= HYSTERESIS_RPM && k < cfg.nodes && k != cfg.proposer
    ensures AllLateFit(cfg, OweOne(cfg, k)) && OwedBelow(cfg, LateExec(cfg, l, OweOne(cfg, k)), k + 1)
  {
    hide NodeShare, Exec, LateExec, Fits, FullyAnswered, AllLateFit, AllFit, AllAnswered, NoneAhead, Owed;
    hide HandoverRound;
    var p, all := cfg.proposer, Everyone(cfg.nodes);
    LosingRoundDone(cfg, l, k);
    var t := LateExec(cfg, l, Steps(LosingRound(cfg, k)));
    HandoverDone(cfg, t.sys, all, p, p);
    HandoverAnswered(cfg, p);
    StepsOnly(cfg, t, HandoverRound(cfg, all, p));
    NothingLostInHandover(cfg, all, p);
    FitTogether(cfg, Steps(LosingRound(cfg, k)), Steps(HandoverRound(cfg, all, p)));
    LateConcat(cfg, l, Steps(LosingRound(cfg, k)), Steps(HandoverRound(cfg, all, p)));
    var u := LateExec(cfg, l, OweOne(cfg, k));
    forall i | 0 <= i < k + 1 && i != p ensures Owed(cfg, u, i) {
      if i < k {
        OwedStays(cfg, l, u, i);
      } else {
        NowOwed(cfg, u, i, |l.lost|);
      }
    }
  }

  lemma NowOwed(cfg: Config, l: LateSystem, i: nat, m: nat)
    requires WellFormedLate(cfg, l) && i < cfg.nodes && Owes(cfg, l, m, i)
    ensures Owed(cfg, l, i)
  {
  }

  lemma NothingLostInHandover(cfg: Config, answered: seq<bool>, to: nat)
    ensures NothingLost(HandoverRound(cfg, answered, to))
  {
  }

  lemma {:induction false} OweAll(cfg: Config, k: nat) returns (events: seq<LateEvent>)
    requires cfg.Valid() && RoundCanFire(cfg) && k <= cfg.nodes
    ensures AllLateFit(cfg, events) && OwedBelow(cfg, LateExec(cfg, LateFresh(cfg), events), k)
  {
    hide NodeShare, LateExec, AllLateFit, RoundCanFire, OwedBelow, OweOne;
    if k == 0 {
      events := FirstToProposer(cfg);
    } else {
      events := OweAll(cfg, k - 1);
      var l := LateExec(cfg, LateFresh(cfg), events);
      if k - 1 == cfg.proposer {
        SkipProposer(cfg, l, k - 1);
      } else {
        LimitIsWorth(cfg);
        OweOneMore(cfg, l, k - 1);
        FitTogether(cfg, events, OweOne(cfg, k - 1));
        LateConcat(cfg, LateFresh(cfg), events, OweOne(cfg, k - 1));
        events := events + OweOne(cfg, k - 1);
      }
    }
  }

  lemma SkipProposer(cfg: Config, l: LateSystem, k: nat)
    requires OwedBelow(cfg, l, k) && k == cfg.proposer
    ensures OwedBelow(cfg, l, k + 1)
  {
    hide AllAtProposer, Owed;
  }

  lemma LimitIsWorth(cfg: Config)
    requires cfg.Valid() && RoundCanFire(cfg)
    ensures cfg.nodes >= 2 && cfg.limit >= HYSTERESIS_RPM
    ensures NodeShare(cfg.limit, cfg.nodes) != cfg.limit
  {
    hide NodeShare;
    StaticShareInRange(cfg);
    SharesCoverLimit(cfg.limit, cfg.nodes);
    var c, n := NodeShare(cfg.limit, cfg.nodes), cfg.nodes;
    if c == cfg.limit { TwiceAtLeast(n, c); }
  }

  lemma TwiceAtLeast(n: nat, c: int)
    requires n >= 2 && c >= 2
    ensures n * c > c + n - 1
  {
  }

  /** One request and one round bring the whole limit to the proposer. */
  lemma FirstToProposer(cfg: Config) returns (events: seq<LateEvent>)
    requires cfg.Valid() && RoundCanFire(cfg)
    ensures AllLateFit(cfg, events) && OwedBelow(cfg, LateExec(cfg, LateFresh(cfg), events), 0)
  {
    hide NodeShare, LateExec, Exec, HandoverRound, AllFit, AllAnswered, Fits, FullyAnswered;
    var p, all := cfg.proposer, Everyone(cfg.nodes);
    var first, round := [Request(p, 0)], HandoverRound(cfg, all, p);
    var s := StartFits(cfg, 0);
    ReadyAfterRequest(cfg, 0);
    LimitIsWorth(cfg);
    OtherIsNode(cfg);
    HandoverDone(cfg, s, all, p, if NodeShare(cfg.limit, cfg.nodes) >= HYSTERESIS_RPM then Other(cfg) else p);
    HandoverAnswered(cfg, p);
    BothFit(cfg, first, round);
    ExecConcat(cfg, Fresh(cfg), first, round);
    StepsOnly(cfg, LateFresh(cfg), first + round);
    events := Steps(first + round);
  }

  // ----- and then they all arrive -----

  /** The nodes below k have received theirs; the rest still can. */
  ghost predicate Received(cfg: Config, l: LateSystem, k: nat) {
    && WellFormedLate(cfg, l)
    && forall i :: 0 <= i < cfg.nodes ==>
         if i < k || i == cfg.proposer then Share(cfg, l.sys.fleet[i]) == cfg.limit else Owed(cfg, l, i)
  }

  lemma {:induction false} ReceiveAll(cfg: Config, l: LateSystem, k: nat) returns (events: seq<LateEvent>)
    requires OwedBelow(cfg, l, cfg.nodes) && k <= cfg.nodes
    ensures AllLateFit(cfg, events) && Received(cfg, LateExec(cfg, l, events), k)
  {
    hide NodeShare, LateNext, Owed, Ready, LateFits;
    if k == 0 {
      events := [];
    } else {
      events := ReceiveAll(cfg, l, k - 1);
      if k - 1 != cfg.proposer {
        var t := LateExec(cfg, l, events);
        var m := Arrival(cfg, t, k - 1);
        assert Init(events + [Arrive(m)]) == events;
        assert LateFits(cfg, Arrive(m)) by { ArrivalFits(cfg, m); }
        events := events + [Arrive(m)];
      }
    }
  }

  lemma ArrivalFits(cfg: Config, m: nat)
    ensures LateFits(cfg, Arrive(m))
  {
  }

  lemma Arrival(cfg: Config, l: LateSystem, i: nat) returns (m: nat)
    requires Received(cfg, l, i) && i < cfg.nodes && i != cfg.proposer
    ensures LateFits(cfg, Arrive(m)) && Received(cfg, LateNext(cfg, l, Arrive(m)), i + 1)
  {
    hide NodeShare, Owed;
    m := OwedCall(cfg, l, i);
    var t := LateNext(cfg, l, Arrive(m));
    forall j | i < j < cfg.nodes && j != cfg.proposer ensures Owed(cfg, t, j) {
      OwedStays(cfg, l, t, j);
    }
  }

  lemma OwedCall(cfg: Config, l: LateSystem, i: nat) returns (m: nat)
    requires WellFormedLate(cfg, l) && i < cfg.nodes && Owed(cfg, l, i)
    ensures Owes(cfg, l, m, i)
  {
    m :| Owes(cfg, l, m, i);
  }

  ghost predicate LateReachesTotal(cfg: Config, count: int)
    requires cfg.Valid()
  {
    exists events :: AllLateFit(cfg, events) && Total(cfg, LateExec(cfg, LateFresh(cfg), events).sys.fleet) == count
  }

  /** N * L is met, although every poll is answered, exactly when the static share is already
      the limit or a round can fire: a grow of the limit is lost to one node after another,
      and then they all arrive. */
  lemma AnyLateRunTotalReached(cfg: Config)
    requires cfg.Valid()
    ensures LateReachesTotal(cfg, cfg.nodes * cfg.limit)
       <==> NodeShare(cfg.limit, cfg.nodes) == cfg.limit || RoundCanFire(cfg)
  {
    hide NodeShare, LateExec, AllLateFit, Total, RoundCanFire, Owed, OwedBelow;
    if RoundCanFire(cfg) {
      var owing := OweAll(cfg, cfg.nodes);
      var l := LateExec(cfg, LateFresh(cfg), owing);
      var late := ReceiveAll(cfg, l, cfg.nodes);
      LateConcat(cfg, LateFresh(cfg), owing, late);
      FitTogether(cfg, owing, late);
      ConstantTotal(cfg, LateExec(cfg, l, late).sys.fleet, cfg.limit);
      assert Total(cfg, LateExec(cfg, LateFresh(cfg), owing + late).sys.fleet) == cfg.nodes * cfg.limit;
    } else {
      var share := NodeShare(cfg.limit, cfg.nodes);
      forall events | AllLateFit(cfg, events)
        ensures Total(cfg, LateExec(cfg, LateFresh(cfg), events).sys.fleet) == cfg.nodes * share
      {
        QuietLateRun(cfg, events);
        ConstantTotal(cfg, LateExec(cfg, LateFresh(cfg), events).sys.fleet, share);
      }
      assert AllLateFit(cfg, []) by { NothingFits(cfg); }
      assert Total(cfg, LateExec(cfg, LateFresh(cfg), []).sys.fleet) == cfg.nodes * share;
      if cfg.nodes * share == cfg.nodes * cfg.limit { SameFactor(cfg.nodes, share, cfg.limit); }
    }
  }

  lemma NothingFits(cfg: Config)
    ensures AllLateFit(cfg, [])
  {
  }

  /** When no round can fire no call is ever sent, so none can arrive. */
  lemma {:induction false} QuietLateRun(cfg: Config, events: seq<LateEvent>)
    requires cfg.Valid() && AllLateFit(cfg, events) && !RoundCanFire(cfg)
    ensures
      var l := LateExec(cfg, LateFresh(cfg), events);
      l.lost == [] && Quiet(cfg, l.sys)
  {
    hide NodeShare, Next, Fits, FullyAnswered, RoundCanFire;
    if events != [] {
      QuietLateRun(cfg, Init(events));
      var l := LateExec(cfg, LateFresh(cfg), Init(events));
      if Last(events).Step? { StepKeepsQuiet(cfg, l.sys, Last(events).event); }
    }
  }
}
