/** What the system admits when polls are answered and time runs forward: what the shares
    are worth over the window, and two periods' worth for every move of a share. */
module SharesOverTime {
  import opened Seqs
  import opened Gcra
  import opened StaticShares
  import opened ShareGcra
  import opened Rounds
  import opened RoundSafety
  import opened ShareRange
  import opened ShareExtremes
  import opened Joint
  import opened JointRuns

  /** The time of the last request. */
  function Clock(events: seq<Event>): Instant {
    if events == [] then ZERO_TIME
    else if Last(events).Request? then Last(events).now
    else Clock(Init(events))
  }

  predicate InOrder(events: seq<Event>) {
    events != [] ==> InOrder(Init(events)) && Clock(Init(events)) <= Clock(events)
  }

  function Clip(t: int, lo: int, hi: int): int {
    if t < lo then lo else if t < hi then t else hi
  }

  /** How much of the window the last event lets pass. */
  function Passed(events: seq<Event>, lo: int, hi: int): int
    requires events != []
  {
    Clip(Clock(events), lo, hi) - Clip(Clock(Init(events)), lo, hi)
  }

  /** What node i's enforced share adds up to over the window, request by request. */
  function Held(cfg: Config, events: seq<Event>, i: nat, lo: int, hi: int): int
    requires cfg.Valid() && AllFit(cfg, events) && i < cfg.nodes
  {
    if events == [] then 0
    else Held(cfg, Init(events), i, lo, hi)
         + Passed(events, lo, hi) * EnforcedQuota(Share(cfg, Exec(cfg, Fresh(cfg), Init(events)).fleet[i]))
  }

  /** How often node i's share moves while the clock is in the window. */
  function Moves(cfg: Config, events: seq<Event>, i: nat, lo: int, hi: int): nat
    requires cfg.Valid() && AllFit(cfg, events) && i < cfg.nodes
  {
    if events == [] then 0
    else
      var s := Exec(cfg, Fresh(cfg), Init(events));
      var moved := Share(cfg, Next(cfg, s, Last(events)).fleet[i]) != Share(cfg, s.fleet[i]);
      Moves(cfg, Init(events), i, lo, hi) + if moved && lo <= Clock(Init(events)) < hi then 1 else 0
  }

  // ----- one limiter -----

  /** What a limiter has spent ahead of the clock, in shares times time. */
  function Ahead(h: ShareHistory, now: int, period: int): int {
    var q := EnforcedQuota(h.quota);
    q * Capped(Max(h.tat - now, 0), 2 * (period / q))
  }

  function Capped(x: int, cap: int): int { if x <= cap then x else cap }

  /** The least that an emission and its quota multiply to. */
  function Grain(period: int, limit: int): int { period - limit + 1 }

  lemma GrainBelow(quota: int, period: int, limit: int)
    requires EnforcedQuota(quota) <= limit <= period
    ensures
      var q := EnforcedQuota(quota);
      1 <= Grain(period, limit) <= q * (period / q) <= period
  {
    FloorAtLeastOne(period, EnforcedQuota(quota));
  }

  lemma AheadRange(h: ShareHistory, now: int, period: int, limit: int)
    requires EnforcedQuota(h.quota) <= limit <= period
    ensures 0 <= Ahead(h, now, period) <= 2 * period
  {
    var q := EnforcedQuota(h.quota);
    var e := period / q;
    GrainBelow(h.quota, period, limit);
    var debt := Capped(Max(h.tat - now, 0), 2 * e);
    MulMono(0, debt, q);
    MulMono(debt, 2 * e, q);
    assert debt * q == q * debt && 2 * e * q == 2 * (q * e);
  }

  /** Time pays back no faster than the share earns. */
  lemma TimePasses(h: ShareHistory, earlier: int, now: int, period: int, limit: int)
    requires EnforcedQuota(h.quota) <= limit <= period && earlier <= now
    ensures Ahead(h, earlier, period) <= Ahead(h, now, period) + (now - earlier) * EnforcedQuota(h.quota)
  {
    var q := EnforcedQuota(h.quota);
    var e := period / q;
    GrainBelow(h.quota, period, limit);
    var a, b := Capped(Max(h.tat - earlier, 0), 2 * e), Capped(Max(h.tat - now, 0), 2 * e);
    assert a <= b + (now - earlier);
    MulMono(a, b + (now - earlier), q);
    assert a * q == q * a && (b + (now - earlier)) * q == q * b + (now - earlier) * q;
  }

  /** An admission is at least a grain more ahead. */
  lemma AdmissionAhead(h: ShareHistory, now: Instant, period: int, limit: int)
    requires EnforcedQuota(h.quota) <= limit <= period
    ensures
      var h' := ServeOp(h, Arrive(now), period, NODE_BURST);
      if h'.log == h.log then h' == h
      else |h'.log| == |h.log| + 1 && Last(h'.log).at == now && Init(h'.log) == h.log
           && Ahead(h, now, period) + Grain(period, limit) <= Ahead(h', now, period)
  {
    var q := EnforcedQuota(h.quota);
    var e := period / q;
    GrainBelow(h.quota, period, limit);
    assert ShareRate(h.quota, period, NODE_BURST) == Rate(e, 1, q);
    var debt := Max(h.tat - now, 0);
    if debt <= e {
      assert q * (debt + e) == q * debt + q * e;
    }
  }

  /** The count of a window is paid for by the shares held over it, two periods for every
      move of the share, and what the limiter is ahead by. */
  predicate Paid(h: ShareHistory, count: int, held: int, moves: nat, clock: int, lo: int, hi: int,
                 period: int, limit: int)
  {
    && held >= 0 && (clock < lo ==> count == 0)
    && Grain(period, limit) * count
         <= held + 2 * period * moves + if clock < hi then Ahead(h, clock, period) else 2 * period
  }

  lemma PaidOverTime(h: ShareHistory, count: int, held: int, moves: nat, t: int, now: int, lo: int, hi: int,
                     period: int, limit: int)
    requires EnforcedQuota(h.quota) <= limit <= period && t <= now && lo <= hi
    requires Paid(h, count, held, moves, t, lo, hi, period, limit)
    ensures now >= lo ==>
      Paid(h, count, held + (Clip(now, lo, hi) - Clip(t, lo, hi)) * EnforcedQuota(h.quota), moves, now, lo, hi,
           period, limit)
    ensures now < lo ==> Paid(h, count, held, moves, now, lo, hi, period, limit)
    ensures now < lo ==> Clip(now, lo, hi) == Clip(t, lo, hi)
  {
    hide Ahead;
    AheadRange(h, t, period, limit);
    AheadRange(h, now, period, limit);
    TimePasses(h, t, now, period, limit);
    MulMono(0, moves, 2 * period);
    var d := Clip(now, lo, hi) - Clip(t, lo, hi);
    MulMono(0, d, EnforcedQuota(h.quota));
    if t < lo { assert Grain(period, limit) * 0 == 0; }
  }

  lemma PaidAdmission(h: ShareHistory, count: int, held: int, moves: nat, now: Instant, lo: int, hi: int,
                      period: int, limit: int)
    requires EnforcedQuota(h.quota) <= limit <= period && lo <= hi
    requires Paid(h, count, held, moves, now, lo, hi, period, limit)
    ensures
      var h' := ServeOp(h, Arrive(now), period, NODE_BURST);
      Paid(h', count + if h'.log != h.log && lo <= now < hi then 1 else 0, held, moves, now, lo, hi, period, limit)
  {
    hide Ahead, ServeOp;
    AdmissionAhead(h, now, period, limit);
    var g := Grain(period, limit);
    assert g * (count + 1) == g * count + g;
  }

  lemma PaidMove(h: ShareHistory, quota: int, count: int, held: int, moves: nat, t: int, lo: int, hi: int,
                 period: int, limit: int)
    requires EnforcedQuota(h.quota) <= limit <= period && EnforcedQuota(quota) <= limit && lo <= hi
    requires Paid(h, count, held, moves, t, lo, hi, period, limit)
    ensures Paid(h.(quota := quota), count, held, moves + if quota != h.quota && lo <= t < hi then 1 else 0,
                 t, lo, hi, period, limit)
  {
    hide Ahead;
    AheadRange(h, t, period, limit);
    AheadRange(h.(quota := quota), t, period, limit);
    MulMono(0, moves, 2 * period);
    assert 2 * period * (moves + 1) == 2 * period * moves + 2 * period;
    if t < lo { assert Grain(period, limit) * 0 == 0; }
  }

  // ----- one node -----

  /** Node i's account after these events. */
  ghost predicate NodePaid(cfg: Config, period: int, events: seq<Event>, i: nat, lo: int, hi: int)
    requires cfg.Valid() && cfg.limit <= period && AllFit(cfg, events) && i < cfg.nodes
  {
    var h := LimiterAfter(cfg, period, events, i);
    Paid(h, CountIn(Times(h.log), lo, hi), Held(cfg, events, i, lo, hi), Moves(cfg, events, i, lo, hi),
         Clock(events), lo, hi, period, cfg.limit)
  }

  lemma {:induction false} NodeAccount(cfg: Config, period: int, events: seq<Event>, i: nat, lo: int, hi: int)
    requires cfg.Valid() && cfg.limit <= period && AllFit(cfg, events) && i < cfg.nodes
    requires InOrder(events) && lo <= hi
    ensures NodePaid(cfg, period, events, i, lo, hi)
  {
    hide NodeShare, Exec, JointExec, Fits, Paid, Next, JointNext, ServeOp, Clip;
    if events == [] {
      FirstAccount(cfg, period, i, lo, hi);
    } else {
      NodeAccount(cfg, period, Init(events), i, lo, hi);
      AccountStep(cfg, period, events, i, lo, hi);
    }
  }

  lemma FirstAccount(cfg: Config, period: int, i: nat, lo: int, hi: int)
    requires cfg.Valid() && cfg.limit <= period && i < cfg.nodes && lo <= hi
    ensures AllFit(cfg, []) && NodePaid(cfg, period, [], i, lo, hi)
  {
    hide NodeShare, Ahead;
    StaticShareInRange(cfg);
    AheadRange(LimiterAfter(cfg, period, [], i), 0, period, cfg.limit);
    assert Grain(period, cfg.limit) * 0 == 0;
  }

  lemma LimiterStep(cfg: Config, period: int, events: seq<Event>, i: nat)
    requires cfg.Valid() && cfg.limit <= period && AllFit(cfg, events) && i < cfg.nodes && events != []
    ensures LimiterAfter(cfg, period, events, i)
         == ServeOp(LimiterAfter(cfg, period, Init(events), i),
                    OpOf(cfg, Exec(cfg, Fresh(cfg), Init(events)), Last(events), i), period, NODE_BURST)
    ensures LimiterAfter(cfg, period, Init(events), i).quota
         == Share(cfg, Exec(cfg, Fresh(cfg), Init(events)).fleet[i])
    ensures 0 <= LimiterAfter(cfg, period, Init(events), i).quota <= cfg.limit
  {
    hide NodeShare, ServeOp, Next, JointNext, Fits;
    NodeRun(cfg, period, Init(events), i);
    NextAt(cfg, period, JointExec(cfg, period, JointFresh(cfg, period), Init(events)), Last(events), i);
  }

  lemma CountStep(log: seq<Admission>, a: Admission, lo: int, hi: int)
    ensures CountIn(Times(log + [a]), lo, hi) == CountIn(Times(log), lo, hi) + if lo <= a.at < hi then 1 else 0
  {
    assert Init(Times(log + [a])) == Times(log);
  }

  lemma AccountStep(cfg: Config, period: int, events: seq<Event>, i: nat, lo: int, hi: int)
    requires cfg.Valid() && cfg.limit <= period && AllFit(cfg, events) && i < cfg.nodes && events != []
    requires InOrder(events) && lo <= hi && NodePaid(cfg, period, Init(events), i, lo, hi)
    ensures NodePaid(cfg, period, events, i, lo, hi)
  {
    hide NodeShare, Exec, Fits, Next, ServeOp, LimiterAfter, Paid, Times, CountIn;
    var h, h' := LimiterAfter(cfg, period, Init(events), i), LimiterAfter(cfg, period, events, i);
    var held, moves := Held(cfg, Init(events), i, lo, hi), Moves(cfg, Init(events), i, lo, hi);
    var count, t, now := CountIn(Times(h.log), lo, hi), Clock(Init(events)), Clock(events);
    var s, e := Exec(cfg, Fresh(cfg), Init(events)), Last(events);
    StaticShareInRange(cfg);
    LimiterStep(cfg, period, events, i);
    PaidOverTime(h, count, held, moves, t, now, lo, hi, period, cfg.limit);
    var held' := Held(cfg, events, i, lo, hi);
    assert held' == held + Passed(events, lo, hi) * EnforcedQuota(h.quota);
    assert now < lo ==> Passed(events, lo, hi) == 0;
    assert Paid(h, count, held', moves, now, lo, hi, period, cfg.limit);
    if e.Request? { RequestKeepsShare(cfg, s, e, i); }
    if e.Request? && e.node == i {
      AdmissionCount(h, e.now, period, cfg.limit, lo, hi);
      PaidAdmission(h, count, held', moves, e.now, lo, hi, period, cfg.limit);
    } else {
      var quota := Share(cfg, Next(cfg, s, e).fleet[i]);
      QuotaAfter(cfg, events, i);
      PaidMove(h, quota, count, held', moves, now, lo, hi, period, cfg.limit);
      SetQuotaOnly(h, quota, period);
    }
  }

  lemma QuotaAfter(cfg: Config, events: seq<Event>, i: nat)
    requires cfg.Valid() && AllFit(cfg, events) && i < cfg.nodes && events != []
    ensures
      var s := Next(cfg, Exec(cfg, Fresh(cfg), Init(events)), Last(events));
      EnforcedQuota(Share(cfg, s.fleet[i])) <= cfg.limit
  {
    hide NodeShare, Next, Fits;
    RunInRange(cfg, events);
  }

  lemma SetQuotaOnly(h: ShareHistory, quota: int, period: int)
    requires EnforcedQuota(h.quota) <= period
    ensures ServeOp(h, SetQuota(quota), period, NODE_BURST) == h.(quota := quota)
  {
  }

  lemma AdmissionCount(h: ShareHistory, now: Instant, period: int, limit: int, lo: int, hi: int)
    requires EnforcedQuota(h.quota) <= limit <= period
    ensures
      var h' := ServeOp(h, Arrive(now), period, NODE_BURST);
      CountIn(Times(h'.log), lo, hi)
        == CountIn(Times(h.log), lo, hi) + if h'.log != h.log && lo <= now < hi then 1 else 0
  {
    hide ServeOp, Ahead;
    var h' := ServeOp(h, Arrive(now), period, NODE_BURST);
    AdmissionAhead(h, now, period, limit);
    if h'.log != h.log {
      assert h'.log == h.log + [Last(h'.log)];
      CountStep(h.log, Last(h'.log), lo, hi);
    }
  }

  // ----- the system -----

  function HeldAll(cfg: Config, events: seq<Event>, lo: int, hi: int): (s: seq<int>)
    requires cfg.Valid() && AllFit(cfg, events)
    ensures |s| == cfg.nodes
  {
    seq(cfg.nodes, i requires 0 <= i < cfg.nodes => Held(cfg, events, i, lo, hi))
  }

  function MovesAll(cfg: Config, events: seq<Event>, lo: int, hi: int): (s: seq<int>)
    requires cfg.Valid() && AllFit(cfg, events)
    ensures |s| == cfg.nodes
  {
    seq(cfg.nodes, i requires 0 <= i < cfg.nodes => Moves(cfg, events, i, lo, hi))
  }

  /** At every moment of a fully answered run the enforced shares total at most L + N - 1. */
  lemma {:induction false} HeldTotal(cfg: Config, events: seq<Event>, lo: int, hi: int)
    requires cfg.Valid() && AllFit(cfg, events) && AllAnswered(events) && InOrder(events) && lo <= hi
    ensures Sum(HeldAll(cfg, events, lo, hi))
         <= (Clip(Clock(events), lo, hi) - Clip(0, lo, hi)) * EnforcedMost(cfg)
  {
    hide NodeShare, Exec, Sum, Fits, FullyAnswered, EnforcedMost, Clip;
    if events == [] {
      ConstantSum(HeldAll(cfg, [], lo, hi), 0);
    } else {
      HeldTotal(cfg, Init(events), lo, hi);
      var fleet, d := Exec(cfg, Fresh(cfg), Init(events)).fleet, Passed(events, lo, hi);
      var now := Scaled(d, Enforced(Shares(cfg, fleet)));
      assert forall i :: 0 <= i < cfg.nodes ==>
        HeldAll(cfg, Init(events), lo, hi)[i] + now[i] == HeldAll(cfg, events, lo, hi)[i];
      SumOfSums(HeldAll(cfg, Init(events), lo, hi), now, HeldAll(cfg, events, lo, hi));
      ScaledSum(d, Enforced(Shares(cfg, fleet)));
      EnforcedThen(cfg, Init(events));
      PassedForward(events, lo, hi);
      MulMono(EnforcedTotal(cfg, fleet), EnforcedMost(cfg), d);
      assert d * EnforcedTotal(cfg, fleet) == EnforcedTotal(cfg, fleet) * d;
      var before := Clip(Clock(Init(events)), lo, hi) - Clip(0, lo, hi);
      assert (before + d) * EnforcedMost(cfg) == before * EnforcedMost(cfg) + EnforcedMost(cfg) * d;
    }
  }

  lemma EnforcedThen(cfg: Config, events: seq<Event>)
    requires cfg.Valid() && AllFit(cfg, events) && AllAnswered(events)
    ensures EnforcedTotal(cfg, Exec(cfg, Fresh(cfg), events).fleet) <= EnforcedMost(cfg)
  {
    hide Exec, EnforcedTotal, AllFit, AllAnswered;
    RunEnforced(cfg, events);
  }

  lemma PassedForward(events: seq<Event>, lo: int, hi: int)
    requires events != [] && InOrder(events) && lo <= hi
    ensures Passed(events, lo, hi) >= 0
  {
  }

  /** What node i admits in the window, paid for. */
  lemma NodePays(cfg: Config, period: int, events: seq<Event>, i: nat, lo: int, hi: int)
    requires cfg.Valid() && cfg.limit <= period && AllFit(cfg, events) && i < cfg.nodes
    requires InOrder(events) && lo <= hi
    ensures Grain(period, cfg.limit) * CountIn(Times(LimiterAfter(cfg, period, events, i).log), lo, hi)
         <= Held(cfg, events, i, lo, hi) + 2 * period * (Moves(cfg, events, i, lo, hi) + 1)
  {
    hide NodeShare, LimiterAfter, Held, Moves, CountIn, Times, Fits, Ahead;
    NodeAccount(cfg, period, events, i, lo, hi);
    var h := LimiterAfter(cfg, period, events, i);
    LimiterQuota(cfg, period, events, i);
    AheadRange(h, Clock(events), period, cfg.limit);
    var m := Moves(cfg, events, i, lo, hi);
    assert 2 * period * (m + 1) == 2 * period * m + 2 * period;
  }

  lemma LimiterQuota(cfg: Config, period: int, events: seq<Event>, i: nat)
    requires cfg.Valid() && cfg.limit <= period && AllFit(cfg, events) && i < cfg.nodes
    ensures EnforcedQuota(LimiterAfter(cfg, period, events, i).quota) <= cfg.limit
  {
    hide NodeShare, JointExec, Fits;
  }

  /** With every poll answered and time running forward, the admissions of any window, times
      a little under a period, are at most what L + N - 1 shares are worth over the window
      and two periods for each node and for each move of a share in the window. */
  lemma SharesOverTimeBound(cfg: Config, period: int, events: seq<Event>, lo: int, len: nat)
    requires cfg.Valid() && cfg.limit <= period && AllFit(cfg, events) && AllAnswered(events) && InOrder(events)
    ensures
      var j := JointExec(cfg, period, JointFresh(cfg, period), events);
      (period - cfg.limit + 1) * SystemAdmissions(j, lo, lo + len)
        <= len * (cfg.limit + cfg.nodes - 1)
           + 2 * period * (Sum(MovesAll(cfg, events, lo, lo + len)) + cfg.nodes)
  {
    hide NodeShare, JointExec, Sum, CountIn, Times, Fits, FullyAnswered, Held, Moves, Grain, Clock, InOrder;
    var hi, g, n := lo + len, Grain(period, cfg.limit), cfg.nodes;
    var j := JointExec(cfg, period, JointFresh(cfg, period), events);
    var counts, held, moves := Counts(j, lo, hi), HeldAll(cfg, events, lo, hi), MovesAll(cfg, events, lo, hi);
    var moved := seq(n, i requires 0 <= i < n => moves[i] + 1);
    var paid := seq(n, i requires 0 <= i < n => held[i] + Scaled(2 * period, moved)[i]);
    forall i | 0 <= i < n ensures Scaled(g, counts)[i] <= paid[i] {
      NodePays(cfg, period, events, i, lo, hi);
      assert counts[i] == CountIn(Times(LimiterAfter(cfg, period, events, i).log), lo, hi);
      assert held[i] == Held(cfg, events, i, lo, hi) && moved[i] == Moves(cfg, events, i, lo, hi) + 1;
      assert Scaled(2 * period, moved)[i] == 2 * period * moved[i] && Scaled(g, counts)[i] == g * counts[i];
    }
    SumMono(Scaled(g, counts), paid);
    ScaledSum(g, counts);
    SumOfSums(held, Scaled(2 * period, moved), paid);
    ScaledSum(2 * period, moved);
    SumOfSums(moves, seq(n, _ => 1), moved);
    ConstantSum(seq(n, _ => 1), 1);
    HeldTotal(cfg, events, lo, hi);
    WindowLength(Clock(events), lo, len, EnforcedMost(cfg));
    GrainIs(period, cfg.limit);
  }

  lemma GrainIs(period: int, limit: int)
    ensures Grain(period, limit) == period - limit + 1
  {
  }

  lemma WindowLength(t: Instant, lo: int, len: nat, most: int)
    requires most >= 0
    ensures (Clip(t, lo, lo + len) - Clip(0, lo, lo + len)) * most <= len * most
  {
    MulMono(Clip(t, lo, lo + len) - Clip(0, lo, lo + len), len, most);
  }

  // ----- rounds -----

  /** Whether the present round may still move node i's share. */
  predicate CanMove(cfg: Config, s: System, i: nat)
    requires WellFormed(cfg, s) && i < cfg.nodes
  {
    match s.phase
    case Idle => false
    case Shrinking(next, _) => s.goal[i] > Share(cfg, s.polled[i]) || (s.goal[i] < Share(cfg, s.polled[i]) && next <= i)
    case Growing(next) => s.goal[i] > Share(cfg, s.polled[i]) && next <= i
  }

  lemma MoveOnce(cfg: Config, s: System, e: Event, i: nat)
    requires WellFormed(cfg, s) && Fits(cfg, e) && i < cfg.nodes
    ensures
      var s' := Next(cfg, s, e);
      && (Share(cfg, s'.fleet[i]) != Share(cfg, s.fleet[i]) ==> CanMove(cfg, s, i) && !CanMove(cfg, s', i))
      && (CanMove(cfg, s', i) && !CanMove(cfg, s, i) ==> s.phase.Idle? && s'.phase.Shrinking?)
  {
    hide NodeShare, WorthARound, Fits;
  }

  /** How many rounds start while the clock is in the window. */
  function RoundsStarted(cfg: Config, events: seq<Event>, lo: int, hi: int): nat
    requires cfg.Valid() && AllFit(cfg, events)
  {
    if events == [] then 0
    else
      var s := Exec(cfg, Fresh(cfg), Init(events));
      var starts := s.phase.Idle? && Next(cfg, s, Last(events)).phase.Shrinking?;
      RoundsStarted(cfg, Init(events), lo, hi) + if starts && lo <= Clock(Init(events)) < hi then 1 else 0
  }

  /** A node's share moves at most once per round that starts in the window, and once for
      a round already under way. */
  lemma {:induction false} MovesPerRound(cfg: Config, events: seq<Event>, i: nat, lo: int, hi: int)
    requires cfg.Valid() && AllFit(cfg, events) && i < cfg.nodes && InOrder(events)
    ensures
      var moves, rounds := Moves(cfg, events, i, lo, hi), RoundsStarted(cfg, events, lo, hi);
      && moves <= rounds + 1
      && (Clock(events) < lo ==> moves == 0)
      && (Clock(events) < hi && CanMove(cfg, Exec(cfg, Fresh(cfg), events), i) ==> moves <= rounds)
  {
    hide NodeShare, Next, Fits, CanMove;
    if events == [] {
      NoMoveYet(cfg, i);
    } else {
      MovesPerRound(cfg, Init(events), i, lo, hi);
      MoveOnce(cfg, Exec(cfg, Fresh(cfg), Init(events)), Last(events), i);
      if !Last(events).Request? { assert Clock(events) == Clock(Init(events)); }
      StartsOnTick(cfg, Exec(cfg, Fresh(cfg), Init(events)), Last(events));
    }
  }

  lemma NoMoveYet(cfg: Config, i: nat)
    requires cfg.Valid() && i < cfg.nodes
    ensures !CanMove(cfg, Fresh(cfg), i)
  {
  }

  lemma StartsOnTick(cfg: Config, s: System, e: Event)
    requires WellFormed(cfg, s) && Fits(cfg, e)
    ensures s.phase.Idle? && Next(cfg, s, e).phase.Shrinking? ==> e.Tick?
  {
    hide NodeShare, WorthARound;
  }

  /** The bound by the number of rounds that start in the window. */
  lemma RoundsInWindowBound(cfg: Config, period: int, events: seq<Event>, lo: int, len: nat)
    requires cfg.Valid() && cfg.limit <= period && AllFit(cfg, events) && AllAnswered(events) && InOrder(events)
    ensures
      var j := JointExec(cfg, period, JointFresh(cfg, period), events);
      (period - cfg.limit + 1) * SystemAdmissions(j, lo, lo + len)
        <= len * (cfg.limit + cfg.nodes - 1)
           + 2 * period * (cfg.nodes * (RoundsStarted(cfg, events, lo, lo + len) + 2))
  {
    hide NodeShare, JointExec, Sum, Fits, FullyAnswered, Moves, RoundsStarted, InOrder, SystemAdmissions;
    SharesOverTimeBound(cfg, period, events, lo, len);
    var rounds, moves := RoundsStarted(cfg, events, lo, lo + len), MovesAll(cfg, events, lo, lo + len);
    var most := seq(cfg.nodes, _ => rounds + 1);
    forall i | 0 <= i < cfg.nodes ensures moves[i] <= most[i] {
      MovesPerRound(cfg, events, i, lo, lo + len);
    }
    SumMono(moves, most);
    ConstantSum(most, rounds + 1);
    TwoPeriods(period, Sum(moves), cfg.nodes, rounds);
  }

  lemma TwoPeriods(period: int, moves: int, n: nat, rounds: nat)
    requires period >= 0 && moves <= n * (rounds + 1)
    ensures 2 * period * (moves + n) <= 2 * period * (n * (rounds + 2))
  {
    assert n * (rounds + 2) == n * (rounds + 1) + n;
    MulMono(moves + n, n * (rounds + 2), 2 * period);
  }
}
