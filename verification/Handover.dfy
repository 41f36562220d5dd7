/** Rounds that hand the whole limit to one node, every call acknowledged. */
module Handover {
  import opened Seqs
  import opened Gcra
  import opened StaticShares
  import opened Rounds
  import opened RoundSafety
  import opened RoundOutcomes
  import opened ShareRange
  import Split

  function OneHot(n: nat, k: nat, x: int): (s: seq<int>)
    ensures |s| == n
  {
    seq(n, i => if i == k then x else 0)
  }

  lemma {:induction false} OneHotSum(n: nat, k: nat, x: int)
    ensures Sum(OneHot(n, k, x)) == if k < n then x else 0
  {
    if n > 0 {
      OneHotSum(n - 1, k, x);
      assert Init(OneHot(n, k, x)) == OneHot(n - 1, k, x);
    }
  }

  /** A tick answered by these nodes, whose split gives the whole limit to node `to`. */
  function HandoverTick(cfg: Config, answered: seq<bool>, to: nat): Event {
    Tick(answered, OneHot(cfg.nodes, to, cfg.limit))
  }

  function HandoverRound(cfg: Config, answered: seq<bool>, to: nat): (events: seq<Event>) {
    [HandoverTick(cfg, answered, to)] + Advances(AllAcked(2 * cfg.nodes + 1) + [Acked])
  }

  ghost predicate CanAnswer(cfg: Config, answered: seq<bool>, to: nat) {
    cfg.Valid() && to < cfg.nodes == |answered| && answered[cfg.proposer] && answered[to]
  }

  lemma HandoverFits(cfg: Config, answered: seq<bool>, to: nat)
    requires CanAnswer(cfg, answered, to)
    ensures Fits(cfg, HandoverTick(cfg, answered, to)) && AllFit(cfg, HandoverRound(cfg, answered, to))
  {
    hide Sum;
    OneHotSum(cfg.nodes, to, cfg.limit);
    var e := HandoverTick(cfg, answered, to);
    assert Masked(e.targets, answered) == e.targets;
  }

  /** Between rounds, with the proposer knowing the limit and none ahead of it. */
  ghost predicate Ready(cfg: Config, s: System) {
    && WellFormed(cfg, s) && s.phase.Idle? && NoneAhead(cfg, s.fleet)
    && s.fleet[cfg.proposer].Known? && s.fleet[cfg.proposer].globalLimit == cfg.limit
  }

  function HandedShare(cfg: Config, s: System, answered: seq<bool>, to: nat, i: nat): int
    requires WellFormed(cfg, s) && |answered| == cfg.nodes && i < cfg.nodes
  {
    if !answered[i] then Share(cfg, s.fleet[i]) else if i == to then cfg.limit else 0
  }

  lemma {:induction false} ExecConcat(cfg: Config, s: System, a: seq<Event>, b: seq<Event>)
    requires WellFormed(cfg, s) && AllFit(cfg, a) && AllFit(cfg, b)
    ensures Exec(cfg, s, a + b) == Exec(cfg, Exec(cfg, s, a), b)
  {
    hide Next, Fits;
    if b == [] {
      assert a + b == a;
    } else {
      assert Init(a + b) == a + Init(b);
      ExecConcat(cfg, s, a, Init(b));
    }
  }

  lemma ExecOne(cfg: Config, s: System, e: Event)
    requires WellFormed(cfg, s) && Fits(cfg, e)
    ensures Exec(cfg, s, [e]) == Next(cfg, s, e)
  {
    hide Next;
    assert Init([e]) == [];
  }

  /** A handover that some node's change makes worth a round leaves every node that
      answered at zero or, for the receiver, at the limit. */
  lemma HandoverDone(cfg: Config, s: System, answered: seq<bool>, to: nat, k: nat)
    requires Ready(cfg, s) && CanAnswer(cfg, answered, to) && k < cfg.nodes
    requires Split.Abs(HandedShare(cfg, s, answered, to, k) - Share(cfg, s.fleet[k])) >= HYSTERESIS_RPM
    requires HandedShare(cfg, s, answered, to, cfg.proposer) != Share(cfg, s.fleet[cfg.proposer])
    ensures AllFit(cfg, HandoverRound(cfg, answered, to))
    ensures
      var t := Exec(cfg, s, HandoverRound(cfg, answered, to));
      && Ready(cfg, t)
      && (forall i :: 0 <= i < cfg.nodes ==> Share(cfg, t.fleet[i]) == HandedShare(cfg, s, answered, to, i))
      && (forall i :: 0 <= i < cfg.nodes && HandedShare(cfg, s, answered, to, i) == Share(cfg, s.fleet[i]) ==>
            LastApplied(t.fleet[i]) == LastApplied(s.fleet[i]))
  {
    hide NodeShare, Exec, Play, NoneAhead, Fits;
    HandoverFits(cfg, answered, to);
    var e := HandoverTick(cfg, answered, to);
    var r := Next(cfg, s, e);
    assert GoalOf(cfg, s.fleet, e)[k] == HandedShare(cfg, s, answered, to, k);
    assert Shares(cfg, s.fleet)[k] == Share(cfg, s.fleet[k]);
    assert r.phase.Shrinking? && r.fleet == s.fleet;
    var calls := AllAcked(2 * cfg.nodes + 1) + [Acked];
    CompletedRound(cfg, s, e);
    PlayKeepsLimit(cfg, r, calls, cfg.proposer);
    var t := Exec(cfg, s, HandoverRound(cfg, answered, to));
    assert t == Completed(cfg, r) by {
      AdvancesFit(cfg, calls);
      ExecConcat(cfg, s, [e], Advances(calls));
      ExecOne(cfg, s, e);
      PlayIsExec(cfg, r, calls);
    }
    forall i | 0 <= i < cfg.nodes ensures Share(cfg, t.fleet[i]) == HandedShare(cfg, s, answered, to, i) {
      assert Shares(cfg, t.fleet)[i] == GoalOf(cfg, s.fleet, e)[i];
    }
    forall i | 0 <= i < cfg.nodes && HandedShare(cfg, s, answered, to, i) == Share(cfg, s.fleet[i])
      ensures LastApplied(t.fleet[i]) == LastApplied(s.fleet[i])
    {
      assert FenceAfter(cfg, s, e, t, i);
    }
  }

  lemma AdvancesFit(cfg: Config, ds: seq<Delivery>)
    ensures AllFit(cfg, Advances(ds))
  {
  }

  lemma PlayIsExec(cfg: Config, s: System, ds: seq<Delivery>)
    requires WellFormed(cfg, s)
    ensures Play(cfg, s, ds) == Exec(cfg, s, Advances(ds))
  {
  }

  /** The first request at the proposer makes a fresh system ready for rounds. */
  lemma ReadyAfterRequest(cfg: Config, now: Instant)
    requires cfg.Valid()
    ensures
      var s := Exec(cfg, Fresh(cfg), [Request(cfg.proposer, now)]);
      && Ready(cfg, s)
      && forall i :: 0 <= i < cfg.nodes ==> Share(cfg, s.fleet[i]) == NodeShare(cfg.limit, cfg.nodes)
  {
    hide NodeShare;
    ExecOne(cfg, Fresh(cfg), Request(cfg.proposer, now));
  }

  function Everyone(n: nat): (answered: seq<bool>)
    ensures |answered| == n
  {
    seq(n, _ => true)
  }

  lemma HandoverAnswered(cfg: Config, to: nat)
    ensures AllAnswered(HandoverRound(cfg, Everyone(cfg.nodes), to))
  {
  }

  /** Another node than the proposer. */
  function Other(cfg: Config): (i: nat)
    requires cfg.Valid()
    ensures i != cfg.proposer && (cfg.nodes >= 2 ==> i < cfg.nodes)
  {
    if cfg.proposer == 0 then 1 else 0
  }

  /** From a fresh start, one request and one round can bring the whole limit to one node. */
  lemma WholeLimitAtOne(cfg: Config, now: Instant)
    requires cfg.Valid() && RoundCanFire(cfg)
    ensures
      var events := [Request(cfg.proposer, now)] + HandoverRound(cfg, Everyone(cfg.nodes), Other(cfg));
      && AllFit(cfg, events) && AllAnswered(events)
      && var t := Exec(cfg, Fresh(cfg), events);
      && Ready(cfg, t)
      && forall i :: 0 <= i < cfg.nodes ==> Share(cfg, t.fleet[i]) == if i == Other(cfg) then cfg.limit else 0
  {
    hide NodeShare, Exec, HandoverRound, AllFit, AllAnswered, Ready, Fits, FullyAnswered;
    var to, all, first := Other(cfg), Everyone(cfg.nodes), [Request(cfg.proposer, now)];
    var s := StartFits(cfg, now);
    ReadyAfterRequest(cfg, now);
    StaticShareInRange(cfg);
    HandoverFits(cfg, all, to);
    HandoverAnswered(cfg, to);
    HandoverDone(cfg, s, all, to, if NodeShare(cfg.limit, cfg.nodes) >= HYSTERESIS_RPM then cfg.proposer else to);
    ExecConcat(cfg, Fresh(cfg), first, HandoverRound(cfg, all, to));
    BothFit(cfg, first, HandoverRound(cfg, all, to));
  }

  lemma StartFits(cfg: Config, now: Instant) returns (s: System)
    requires cfg.Valid()
    ensures AllFit(cfg, [Request(cfg.proposer, now)]) && AllAnswered([Request(cfg.proposer, now)])
    ensures s == Exec(cfg, Fresh(cfg), [Request(cfg.proposer, now)])
  {
    s := Exec(cfg, Fresh(cfg), [Request(cfg.proposer, now)]);
  }

  lemma BothFit(cfg: Config, a: seq<Event>, b: seq<Event>)
    ensures AllFit(cfg, a) && AllFit(cfg, b) ==> AllFit(cfg, a + b)
    ensures AllAnswered(a) && AllAnswered(b) ==> AllAnswered(a + b)
  {
    hide Fits, FullyAnswered;
  }
}
