/** Rounds while the customer's limit changes: every request brings the limit it resolved
    to, a node caches the last one, and a round splits the one its proposer has cached. */
module LimitChanges {
  import opened Seqs
  import opened Gcra
  import opened StaticShares
  import opened Rounds
  import opened RoundSafety

  /** The round machine, and the limit its present round was planned with. */
  datatype Changing = Changing(sys: System, roundLimit: int)

  datatype ChangeEvent =
    | Resolved(node: nat, limit: Limit)
    | Protocol(event: Event)

  /** `cfg.limit` is the largest limit in force; each step runs at its own. */
  function At(cfg: Config, limit: int): Config { cfg.(limit := limit) }

  ghost predicate WellFormedChanging(cfg: Config, c: Changing) {
    && WellFormed(cfg, c.sys) && 1 <= c.roundLimit <= cfg.limit
    && forall i :: 0 <= i < cfg.nodes && c.sys.fleet[i].Known? ==> c.sys.fleet[i].globalLimit <= cfg.limit
  }

  /** The limit a tick would split: none unless the proposer has cached one. */
  function Cached(cfg: Config, s: System): int
    requires WellFormed(cfg, s)
  {
    var self := s.fleet[cfg.proposer];
    if self.Known? then self.globalLimit else 0
  }

  /** Limits within the largest, and every poll answered. */
  ghost predicate ChangeFits(cfg: Config, c: Changing, e: ChangeEvent)
    requires WellFormedChanging(cfg, c)
  {
    match e
    case Resolved(_, limit) => limit <= cfg.limit
    case Protocol(event) =>
      && !event.Request? && FullyAnswered(event)
      && (event.Tick? && Cached(cfg, c.sys) > 0 ==> Fits(At(cfg, Cached(cfg, c.sys)), event))
  }

  /** A fully answered tick may come at any time while the proposer knows no limit, and then
      does nothing. */
  lemma NoLimitNoRound(cfg: Config, c: Changing, event: Event)
    requires WellFormedChanging(cfg, c) && event.Tick? && FullyAnswered(event) && Cached(cfg, c.sys) <= 0
    ensures ChangeFits(cfg, c, Protocol(event)) && ChangeNext(cfg, c, Protocol(event)) == c
  {
  }

  function ChangeNext(cfg: Config, c: Changing, e: ChangeEvent): (c': Changing)
    requires WellFormedChanging(cfg, c) && ChangeFits(cfg, c, e)
    ensures WellFormedChanging(cfg, c')
  {
    match e
    case Resolved(i, limit) => c.(sys := Next(At(cfg, limit), c.sys, Request(i, 0)))
    case Protocol(event) =>
      if event.Tick? then
        var limit := Cached(cfg, c.sys);
        if limit <= 0 || !c.sys.phase.Idle? then c
        else Changing(Next(At(cfg, limit), c.sys, event), limit)
      else c.(sys := Next(At(cfg, c.roundLimit), c.sys, event))
  }

  ghost predicate AllChangesFit(cfg: Config, c: Changing, events: seq<ChangeEvent>)
    requires WellFormedChanging(cfg, c)
    decreases |events|, 0
  {
    events != [] ==>
      && AllChangesFit(cfg, c, Init(events))
      && ChangeFits(cfg, ChangeExec(cfg, c, Init(events)), Last(events))
  }

  ghost function ChangeExec(cfg: Config, c: Changing, events: seq<ChangeEvent>): (c': Changing)
    requires WellFormedChanging(cfg, c) && AllChangesFit(cfg, c, events)
    ensures WellFormedChanging(cfg, c')
    decreases |events|, 1
  {
    if events == [] then c else ChangeNext(cfg, ChangeExec(cfg, c, Init(events)), Last(events))
  }

  function ChangeFresh(cfg: Config): (c: Changing)
    requires cfg.Valid()
    ensures WellFormedChanging(cfg, c)
  {
    Changing(Fresh(cfg), cfg.limit)
  }

  // ----- the bound -----

  lemma ShareMono(small: int, large: int, n: nat)
    requires n >= 1 && small <= large
    ensures NodeShare(small, n) <= NodeShare(large, n)
  {
    CeilDivLeast(large, n);
    CeilDivAtMost(small, n, CeilDiv(large, n));
  }

  /** What an unseen node may yet bootstrap to beyond what the round took it to hold. */
  function Slack(cfg: Config, c: Changing): (s: seq<int>)
    requires WellFormedChanging(cfg, c)
    ensures |s| == cfg.nodes
  {
    seq(cfg.nodes, i requires 0 <= i < cfg.nodes => SlackOf(cfg, c.roundLimit, c.sys.polled[i]))
  }

  function SlackOf(cfg: Config, roundLimit: int, polled: Node): int
    requires cfg.Valid()
  {
    if polled.Unseen? then NodeShare(cfg.limit, cfg.nodes) - NodeShare(roundLimit, cfg.nodes) else 0
  }

  /** An unseen node counts at the largest static share it could start from. */
  ghost predicate ChangeInv(cfg: Config, c: Changing, bound: int)
    requires WellFormedChanging(cfg, c)
  {
    var s := c.sys;
    match s.phase
    case Idle => Total(cfg, s.fleet) <= bound
    case Shrinking(next, acked) =>
      && Total(cfg, s.polled) <= bound && Sum(s.goal) <= c.roundLimit
      && (forall i :: 0 <= i < cfg.nodes ==> Share(cfg, s.fleet[i]) <= Share(cfg, s.polled[i]))
      && (forall i :: 0 <= i < next && acked && s.goal[i] < Share(At(cfg, c.roundLimit), s.polled[i]) ==>
            Share(cfg, s.fleet[i]) <= s.goal[i])
    case Growing(_) =>
      && Sum(s.goal) <= c.roundLimit
      && (forall i :: 0 <= i < cfg.nodes ==>
            Share(cfg, s.fleet[i]) <= s.goal[i] + SlackOf(cfg, c.roundLimit, s.polled[i]))
  }

  /** What a growing round can reach. */
  function GrowingMost(cfg: Config, roundLimit: int): int
    requires cfg.Valid()
  {
    roundLimit + cfg.nodes * (NodeShare(cfg.limit, cfg.nodes) - NodeShare(roundLimit, cfg.nodes))
  }

  lemma GrowingMostAtMost(cfg: Config, roundLimit: int)
    requires cfg.Valid() && 1 <= roundLimit
    ensures GrowingMost(cfg, roundLimit) <= cfg.nodes * NodeShare(cfg.limit, cfg.nodes)
  {
    hide NodeShare;
    SharesCoverLimit(roundLimit, cfg.nodes);
    var n, a, b := cfg.nodes, NodeShare(cfg.limit, cfg.nodes), NodeShare(roundLimit, cfg.nodes);
    assert n * (a - b) == n * a - n * b;
  }

  lemma GrowingTotal(cfg: Config, c: Changing, bound: int)
    requires WellFormedChanging(cfg, c) && ChangeInv(cfg, c, bound) && c.sys.phase.Growing?
    ensures Total(cfg, c.sys.fleet) <= GrowingMost(cfg, c.roundLimit)
  {
    hide NodeShare, Sum;
    var s, slack := c.sys, Slack(cfg, c);
    var most := seq(cfg.nodes, i requires 0 <= i < cfg.nodes => s.goal[i] + slack[i]);
    var each := NodeShare(cfg.limit, cfg.nodes) - NodeShare(c.roundLimit, cfg.nodes);
    ShareMono(c.roundLimit, cfg.limit, cfg.nodes);
    SumMono(Shares(cfg, s.fleet), most);
    SumOfSums(s.goal, slack, most);
    SumMono(slack, seq(cfg.nodes, _ => each));
    ConstantSum(seq(cfg.nodes, _ => each), each);
  }

  lemma ChangeInvBounds(cfg: Config, c: Changing, bound: int)
    requires WellFormedChanging(cfg, c) && ChangeInv(cfg, c, bound)
    requires cfg.nodes * NodeShare(cfg.limit, cfg.nodes) <= bound
    ensures Total(cfg, c.sys.fleet) <= bound
  {
    hide NodeShare, Sum;
    if c.sys.phase.Shrinking? { SumMono(Shares(cfg, c.sys.fleet), Shares(cfg, c.sys.polled)); }
    if c.sys.phase.Growing? {
      hide ChangeInv, Total;
      GrowingTotal(cfg, c, bound);
      GrowingMostAtMost(cfg, c.roundLimit);
    }
  }

  // ----- every step -----

  lemma ResolvedKeepsInv(cfg: Config, c: Changing, e: ChangeEvent, bound: int)
    requires WellFormedChanging(cfg, c) && ChangeFits(cfg, c, e) && e.Resolved?
    requires ChangeInv(cfg, c, bound)
    ensures ChangeInv(cfg, ChangeNext(cfg, c, e), bound)
  {
    hide NodeShare, Sum;
    ShareMono(e.limit, cfg.limit, cfg.nodes);
    var c' := ChangeNext(cfg, c, e);
    assert forall i :: 0 <= i < cfg.nodes ==> Share(cfg, c'.sys.fleet[i]) <= Share(cfg, c.sys.fleet[i]);
    SumMono(Shares(cfg, c'.sys.fleet), Shares(cfg, c.sys.fleet));
  }

  lemma TickKeepsInv(cfg: Config, c: Changing, e: ChangeEvent, bound: int)
    requires WellFormedChanging(cfg, c) && ChangeFits(cfg, c, e) && e.Protocol? && e.event.Tick?
    requires ChangeInv(cfg, c, bound)
    ensures ChangeInv(cfg, ChangeNext(cfg, c, e), bound)
  {
    hide NodeShare, Sum, WorthARound, Fits, FullyAnswered, Total;
    var limit := Cached(cfg, c.sys);
    if limit > 0 && c.sys.phase.Idle? { FullGoalSum(At(cfg, limit), c.sys.fleet, e.event); }
  }

  /** With its limit the round took an unseen node at no more than it may start from. */
  lemma PolledShare(cfg: Config, roundLimit: int, node: Node)
    requires cfg.Valid() && 1 <= roundLimit <= cfg.limit
    ensures Share(cfg, node) == Share(At(cfg, roundLimit), node) + SlackOf(cfg, roundLimit, node)
    ensures SlackOf(cfg, roundLimit, node) >= 0
  {
    hide NodeShare;
    ShareMono(roundLimit, cfg.limit, cfg.nodes);
  }

  lemma AdvanceKeepsInv(cfg: Config, c: Changing, d: Delivery, bound: int)
    requires WellFormedChanging(cfg, c) && ChangeInv(cfg, c, bound)
    requires cfg.nodes * NodeShare(cfg.limit, cfg.nodes) <= bound
    requires ChangeFits(cfg, c, Protocol(Advance(d)))
    ensures ChangeInv(cfg, ChangeNext(cfg, c, Protocol(Advance(d))), bound)
  {
    hide NodeShare, Sum, Call, Total, SlackOf;
    ChangeInvBounds(cfg, c, bound);
    var s := c.sys;
    assert forall i :: 0 <= i < cfg.nodes ==>
      && Share(cfg, s.polled[i]) == Share(At(cfg, c.roundLimit), s.polled[i]) + SlackOf(cfg, c.roundLimit, s.polled[i])
      && SlackOf(cfg, c.roundLimit, s.polled[i]) >= 0 by { AllPolled(cfg, c); }
    if !s.phase.Idle? && s.phase.next < cfg.nodes {
      var i := s.phase.next;
      CallSets(cfg, s.fleet[i], s.round, s.goal[i], Reach(At(cfg, c.roundLimit), i, d));
    }
  }

  lemma AllPolled(cfg: Config, c: Changing)
    requires WellFormedChanging(cfg, c)
    ensures forall i :: 0 <= i < cfg.nodes ==>
      && Share(cfg, c.sys.polled[i])
           == Share(At(cfg, c.roundLimit), c.sys.polled[i]) + SlackOf(cfg, c.roundLimit, c.sys.polled[i])
      && SlackOf(cfg, c.roundLimit, c.sys.polled[i]) >= 0
  {
    hide NodeShare, SlackOf;
    forall i | 0 <= i < cfg.nodes
      ensures Share(cfg, c.sys.polled[i])
           == Share(At(cfg, c.roundLimit), c.sys.polled[i]) + SlackOf(cfg, c.roundLimit, c.sys.polled[i])
      ensures SlackOf(cfg, c.roundLimit, c.sys.polled[i]) >= 0
    {
      PolledShare(cfg, c.roundLimit, c.sys.polled[i]);
    }
  }

  lemma StepKeepsInv(cfg: Config, c: Changing, e: ChangeEvent, bound: int)
    requires WellFormedChanging(cfg, c) && ChangeFits(cfg, c, e) && ChangeInv(cfg, c, bound)
    requires cfg.nodes * NodeShare(cfg.limit, cfg.nodes) <= bound
    ensures ChangeInv(cfg, ChangeNext(cfg, c, e), bound)
  {
    hide *;
    match e
    case Resolved(_, _) => ResolvedKeepsInv(cfg, c, e, bound);
    case Protocol(event) =>
      match event
      case Request(_, _) => NoRequest(cfg, c, e);
      case Tick(_, _) => TickKeepsInv(cfg, c, e, bound);
      case Advance(d) => AdvanceKeepsInv(cfg, c, d, bound);
  }

  lemma NoRequest(cfg: Config, c: Changing, e: ChangeEvent)
    requires WellFormedChanging(cfg, c) && ChangeFits(cfg, c, e) && e.Protocol?
    ensures !e.event.Request?
  {
  }

  /** With every poll answered, and whatever limits up to the largest come in whatever order:
      the shares total at most N * ceil(L / N) of the largest limit L at every step, and in a
      grow phase at most the limit that round split and what unseen nodes may yet start from
      beyond what it took them for. */
  lemma {:induction false} ChangingRunTotal(cfg: Config, events: seq<ChangeEvent>)
    requires cfg.Valid() && AllChangesFit(cfg, ChangeFresh(cfg), events)
    ensures
      var c, most := ChangeExec(cfg, ChangeFresh(cfg), events), cfg.nodes * NodeShare(cfg.limit, cfg.nodes);
      && ChangeInv(cfg, c, most) && Total(cfg, c.sys.fleet) <= most
      && (c.sys.phase.Growing? ==> Total(cfg, c.sys.fleet) <= GrowingMost(cfg, c.roundLimit))
  {
    hide NodeShare, ChangeInv, ChangeNext, ChangeFits, Total, GrowingMost;
    var most := cfg.nodes * NodeShare(cfg.limit, cfg.nodes);
    if events == [] {
      FreshTotal(cfg);
      FreshInv(cfg);
    } else {
      ChangingRunTotal(cfg, Init(events));
      StepKeepsInv(cfg, ChangeExec(cfg, ChangeFresh(cfg), Init(events)), Last(events), most);
    }
    var c := ChangeExec(cfg, ChangeFresh(cfg), events);
    ChangeInvBounds(cfg, c, most);
    if c.sys.phase.Growing? { GrowingTotal(cfg, c, most); }
  }

  lemma FreshInv(cfg: Config)
    requires cfg.Valid()
    ensures ChangeInv(cfg, ChangeFresh(cfg), cfg.nodes * NodeShare(cfg.limit, cfg.nodes))
  {
    hide NodeShare;
    FreshTotal(cfg);
  }
}
