/** The rebalance protocol for one customer as a state machine: poll, shrink calls,
    gate, grow calls, with client requests arriving at any point in between.

    The customer's limit is fixed through a run.  Handling of one apply-share call is one
    atomic step, and no call is delivered after it has returned, which LateCalls lifts. */
module Rounds {
  import opened Seqs
  import opened Gcra
  import opened StaticShares
  import Split

  const HYSTERESIS_RPM: int := 15

  /** A node's state for the customer; Unseen until a request or a call names it. */
  datatype Node = Unseen | Known(share: int, lastApplied: nat, globalLimit: int)

  /** What the network does to one call: it never arrives, or its reply is lost, or the
      proposer hears whether it was applied. */
  datatype Delivery = Lost | ReplyLost | Acked

  datatype Config = Config(nodes: nat, proposer: nat, limit: int) {
    predicate Valid() { proposer < nodes && limit >= 1 }
  }

  datatype Phase = Idle | Shrinking(next: nat, acked: bool) | Growing(next: nat)

  /** `polled` are the nodes as the round found them, `goal` the shares it drives at:
      the target of an answering node, the present share of a silent one. */
  datatype System = System(fleet: seq<Node>, polled: seq<Node>, goal: seq<int>, round: nat, phase: Phase)

  datatype Event =
    | Request(node: nat, now: Instant)
    | Tick(answered: seq<bool>, targets: seq<int>)
    | Advance(delivery: Delivery)

  // ----- one node -----

  /** customerFor with a known limit: a first sight gets the static share. */
  function Seen(cfg: Config, node: Node): Node
    requires cfg.Valid()
  {
    match node
    case Unseen => Known(NodeShare(cfg.limit, cfg.nodes), 0, cfg.limit)
    case Known(_, _, _) => node.(globalLimit := cfg.limit)
  }

  /** An apply-share instruction: customerFor without a limit, then the round fence. */
  function Apply(node: Node, round: nat, quota: int): (Node, bool) {
    var known := if node.Unseen? then Known(1, 0, 0) else node;
    if round <= known.lastApplied then (known, false)
    else (Known(quota, round, known.globalLimit), true)
  }

  /** One call, and what the proposer is told of it. */
  function Call(node: Node, round: nat, quota: int, d: Delivery): (Node, bool) {
    match d
    case Lost => (node, false)
    case ReplyLost => (Apply(node, round, quota).0, false)
    case Acked => Apply(node, round, quota)
  }

  /** The share a node holds; an unseen one will start from, and is polled as, the static share. */
  function Share(cfg: Config, node: Node): int
    requires cfg.Valid()
  {
    if node.Unseen? then NodeShare(cfg.limit, cfg.nodes) else node.share
  }

  function LastApplied(node: Node): nat {
    if node.Unseen? then 0 else node.lastApplied
  }

  // ----- the fleet -----

  function Shares(cfg: Config, fleet: seq<Node>): (s: seq<int>)
    requires cfg.Valid()
    ensures |s| == |fleet|
  {
    seq(|fleet|, i requires 0 <= i < |fleet| => Share(cfg, fleet[i]))
  }

  function Total(cfg: Config, fleet: seq<Node>): int
    requires cfg.Valid()
  {
    Sum(Shares(cfg, fleet))
  }

  predicate WellFormed(cfg: Config, s: System) {
    cfg.Valid() && |s.fleet| == |s.polled| == |s.goal| == cfg.nodes
    && (s.phase.Shrinking? || s.phase.Growing? ==> s.phase.next <= cfg.nodes && s.round >= 1)
  }

  /** The targets of a tick are nonnegative and split the limit over the nodes that
      answered its poll, the proposer always among them. */
  ghost predicate Fits(cfg: Config, e: Event) {
    e.Tick? ==>
      && |e.answered| == |e.targets| == cfg.nodes
      && cfg.proposer < cfg.nodes && e.answered[cfg.proposer]
      && (forall i :: 0 <= i < cfg.nodes ==> 0 <= e.targets[i])
      && Sum(Masked(e.targets, e.answered)) == cfg.limit
  }

  function Masked(s: seq<int>, mask: seq<bool>): (r: seq<int>)
    requires |s| == |mask|
    ensures |r| == |s|
  {
    seq(|s|, i requires 0 <= i < |s| => if mask[i] then s[i] else 0)
  }

  ghost predicate FullyAnswered(e: Event) {
    e.Tick? ==> forall i :: 0 <= i < |e.answered| ==> e.answered[i]
  }

  function GoalOf(cfg: Config, fleet: seq<Node>, e: Event): (goal: seq<int>)
    requires cfg.Valid() && e.Tick? && |e.answered| == |e.targets| == |fleet|
    ensures |goal| == |fleet|
  {
    seq(|fleet|, i requires 0 <= i < |fleet| => if e.answered[i] then e.targets[i] else Share(cfg, fleet[i]))
  }

  /** Whether some share would move by at least the hysteresis. */
  predicate WorthARound(start: seq<int>, goal: seq<int>)
    requires |start| == |goal|
  {
    exists i :: 0 <= i < |start| && Split.Abs(goal[i] - start[i]) >= HYSTERESIS_RPM
  }

  /** A round is worth its calls when some share would move by fifteen or more. */
  lemma WorthMeans(start: seq<int>, goal: seq<int>)
    requires |start| == |goal|
    ensures WorthARound(start, goal) <==>
      exists i :: 0 <= i < |start| && (goal[i] >= start[i] + 15 || goal[i] <= start[i] - 15)
  {
  }

  function Reach(cfg: Config, i: nat, d: Delivery): Delivery {
    if i == cfg.proposer then Acked else d  // the proposer's own share never goes over the network
  }

  function Next(cfg: Config, s: System, e: Event): (s': System)
    requires WellFormed(cfg, s) && Fits(cfg, e)
    ensures WellFormed(cfg, s')
  {
    match e
    case Request(i, _) =>
      if i < cfg.nodes then s.(fleet := s.fleet[i := Seen(cfg, s.fleet[i])]) else s
    case Tick(_, _) =>
      var self := s.fleet[cfg.proposer];
      if !s.phase.Idle? || self.Unseen? || self.globalLimit <= 0 then s
      else
        var goal := GoalOf(cfg, s.fleet, e);
        if !WorthARound(Shares(cfg, s.fleet), goal) then s
        else System(s.fleet, s.fleet, goal, self.lastApplied + 1, Shrinking(0, true))
    case Advance(d) =>
      match s.phase
      case Idle => s
      case Shrinking(next, acked) =>
        if next == cfg.nodes then s.(phase := if acked then Growing(0) else Idle)
        else if s.goal[next] >= Share(cfg, s.polled[next]) then s.(phase := Shrinking(next + 1, acked))
        else
          var (node, ok) := Call(s.fleet[next], s.round, s.goal[next], Reach(cfg, next, d));
          s.(fleet := s.fleet[next := node], phase := Shrinking(next + 1, acked && ok))
      case Growing(next) =>
        if next == cfg.nodes then s.(phase := Idle)
        else if s.goal[next] <= Share(cfg, s.polled[next]) then s.(phase := Growing(next + 1))
        else
          var (node, _) := Call(s.fleet[next], s.round, s.goal[next], Reach(cfg, next, d));
          s.(fleet := s.fleet[next := node], phase := Growing(next + 1))
  }

  ghost predicate AllFit(cfg: Config, events: seq<Event>) {
    forall i :: 0 <= i < |events| ==> Fits(cfg, events[i])
  }

  function Exec(cfg: Config, s: System, events: seq<Event>): (s': System)
    requires WellFormed(cfg, s) && AllFit(cfg, events)
    ensures WellFormed(cfg, s')
  {
    if events == [] then s else Next(cfg, Exec(cfg, s, Init(events)), Last(events))
  }

  function Fresh(cfg: Config): (s: System)
    requires cfg.Valid()
    ensures WellFormed(cfg, s)
  {
    var unseen := seq(cfg.nodes, _ => Unseen);
    System(unseen, unseen, seq(cfg.nodes, _ => 0), 0, Idle)
  }

  // ----- what every step keeps -----

  /** The node has already applied this round's number or a later one. */
  predicate Fenced(s: System, i: nat)
    requires i < |s.polled|
  {
    LastApplied(s.polled[i]) >= s.round
  }

  /** No node that must shrink is fenced. */
  ghost predicate GateCanOpen(cfg: Config, s: System)
    requires WellFormed(cfg, s)
  {
    forall i :: 0 <= i < cfg.nodes && s.goal[i] < Share(cfg, s.polled[i]) ==> !Fenced(s, i)
  }

  ghost predicate Untouched(cfg: Config, s: System, i: nat)
    requires WellFormed(cfg, s) && i < cfg.nodes
  {
    && Share(cfg, s.fleet[i]) == Share(cfg, s.polled[i])
    && LastApplied(s.fleet[i]) == LastApplied(s.polled[i])
  }

  ghost predicate Moved(cfg: Config, s: System, i: nat)
    requires WellFormed(cfg, s) && i < cfg.nodes
  {
    !Fenced(s, i) && Share(cfg, s.fleet[i]) == s.goal[i] && LastApplied(s.fleet[i]) == s.round
  }

  /** A node whose call has been made: it moved, or it was fenced, or the call was lost,
      which cannot happen when `sure`. */
  ghost predicate CallMade(cfg: Config, s: System, i: nat, sure: bool)
    requires WellFormed(cfg, s) && i < cfg.nodes
  {
    Moved(cfg, s, i) || (Untouched(cfg, s, i) && (sure ==> Fenced(s, i)))
  }

  /** Where every node stands during a round.  `sure` is for rounds in which every call
      is delivered and acknowledged. */
  ghost predicate RoundInv(cfg: Config, s: System, sure: bool)
    requires WellFormed(cfg, s)
  {
    match s.phase
    case Idle => true
    case Shrinking(next, acked) =>
      && (forall i :: 0 <= i < cfg.nodes ==>
            if s.goal[i] < Share(cfg, s.polled[i]) && i < next
            then CallMade(cfg, s, i, sure) && (acked ==> Moved(cfg, s, i))
            else Untouched(cfg, s, i))
      && (sure && GateCanOpen(cfg, s) ==> acked)
    case Growing(next) =>
      && GateCanOpen(cfg, s)
      && (forall i :: 0 <= i < cfg.nodes ==>
            if s.goal[i] < Share(cfg, s.polled[i]) then Moved(cfg, s, i)
            else if s.goal[i] > Share(cfg, s.polled[i]) && i < next then CallMade(cfg, s, i, sure)
            else Untouched(cfg, s, i))
  }

  lemma CallOutcome(cfg: Config, s: System, i: nat, d: Delivery, sure: bool)
    requires WellFormed(cfg, s) && i < cfg.nodes && s.round >= 1 && Untouched(cfg, s, i)
    requires sure ==> d.Acked?
    ensures
      var (node, ok) := Call(s.fleet[i], s.round, s.goal[i], d);
      var s' := s.(fleet := s.fleet[i := node]);
      && CallMade(cfg, s', i, sure)
      && (ok ==> Moved(cfg, s', i))
      && (sure && !Fenced(s, i) ==> ok)
  {
    hide NodeShare;
  }

  lemma StepKeepsRound(cfg: Config, s: System, e: Event, sure: bool)
    requires WellFormed(cfg, s) && Fits(cfg, e) && RoundInv(cfg, s, sure)
    requires sure ==> e == Advance(Acked)
    ensures RoundInv(cfg, Next(cfg, s, e), sure)
  {
    hide NodeShare, Call, WorthARound;
    var s' := Next(cfg, s, e);
    if e.Request? {
      assert forall i :: 0 <= i < cfg.nodes ==>
        Share(cfg, s'.fleet[i]) == Share(cfg, s.fleet[i]) && LastApplied(s'.fleet[i]) == LastApplied(s.fleet[i]);
    } else if e.Advance? && !s.phase.Idle? && s.phase.next < cfg.nodes {
      var i := s.phase.next;
      if Untouched(cfg, s, i) { CallOutcome(cfg, s, i, Reach(cfg, i, e.delivery), sure); }
    }
  }
}
