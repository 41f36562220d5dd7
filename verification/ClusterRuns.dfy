/** Runs of the peers' own objects, client requests and ticks in any order, proved to be
    runs of the joint machine, TATs included. */
module ClusterRuns {
  import opened Seqs
  import opened Gcra
  import opened StaticShares
  import opened ShareGcra
  import opened Rounds
  import opened RoundSafety
  import opened Handover
  import opened PeerNode
  import opened Rebalance
  import opened Joint
  import opened JointRuns
  import Split

  /** A node has cached the customer's limit, or none. */
  ghost predicate LimitsCached(cfg: Config, fleet: seq<Node>) {
    forall i :: 0 <= i < |fleet| && fleet[i].Known? ==> fleet[i].globalLimit == 0 || fleet[i].globalLimit == cfg.limit
  }

  /** Between rounds, the objects hold what the joint machine says. */
  ghost predicate Represents(cfg: Config, period: int, j: Joint, views: seq<View>, customer: string) {
    && Sound(cfg, period, j) && j.sys.phase.Idle? && LimitsCached(cfg, j.sys.fleet)
    && FleetOf(views, customer) == j.sys.fleet
    && forall i :: 0 <= i < |views| ==> TatIn(views[i], customer) == j.tats[i]
  }

  // ----- a client request -----

  /** What Peer.Allow does to a view is what the joint machine does to the node. */
  lemma AllowIsRequest(cfg: Config, period: int, j: Joint, views: seq<View>, customer: string, i: nat, now: Instant)
    requires Represents(cfg, period, j, views, customer) && i < cfg.nodes
    ensures EnforcedQuota(Met(views[i], customer, cfg.limit, cfg.nodes).share) <= period
    ensures
      var met := Met(views[i], customer, cfg.limit, cfg.nodes);
      var (d, tat) := Gcra.Step(met.tat, now, ShareRate(met.share, period, NODE_BURST));
      var j' := JointNext(cfg, period, j, Request(i, now));
      && Represents(cfg, period, j', views[i := views[i][customer := met.(tat := tat)]], customer)
      && |j'.logs[i]| == |j.logs[i]| + if d.allowed then 1 else 0
  {
    hide NodeShare, Gcra.Step, ShareRate;
    var met := Met(views[i], customer, cfg.limit, cfg.nodes);
    assert NodeOf(views[i], customer) == j.sys.fleet[i];
    assert met.tat == j.tats[i] && met.share == Share(cfg, j.sys.fleet[i]);
    RejectionKeepsTat(met.tat, now, ShareRate(met.share, period, NODE_BURST));
  }

  method ServeRequest(peers: seq<Peer>, i: nat, customer: string, now: Instant,
                      ghost cfg: Config, limit: int, ghost period: int, ghost j: Joint)
    returns (d: Decision)
    requires Cluster(peers) && |peers| == cfg.nodes && i < |peers| && limit == cfg.limit
    requires peers[i].period == period && Represents(cfg, period, j, Views(peers), customer)
    modifies peers[i].Repr
    ensures Cluster(peers) && fresh(peers[i].Repr - old(peers[i].Repr))
    ensures forall k :: 0 <= k < |peers| && k != i ==> peers[k].Repr == old(peers[k].Repr)
    ensures
      var j' := JointNext(cfg, period, j, Request(i, now));
      && Represents(cfg, period, j', Views(peers), customer)
      && |j'.logs[i]| == |j.logs[i]| + if d.allowed then 1 else 0
  {
    hide Peer.Valid, Represents, Met, EnforcedQuota, ShareRate, Gcra.Step, JointNext;
    ghost var before := Views(peers);
    assert |before| == cfg.nodes;
    AllowIsRequest(cfg, period, j, before, customer, i, now);
    d := peers[i].Allow(customer, limit, now);
    assert Views(peers) == before[i := peers[i].view];
  }

  // ----- a tick -----

  /** A tick and the calls of the round it may start. */
  function TickRun(e: Event, net: seq<Delivery>): (events: seq<Event>) {
    [e] + Advances(Fates(net))
  }

  lemma TickRunFits(cfg: Config, e: Event, net: seq<Delivery>)
    requires Fits(cfg, e)
    ensures AllFit(cfg, TickRun(e, net))
  {
    hide Fits;
    AdvancesFit(cfg, Fates(net));
  }

  /** Where a round's calls have got to. */
  lemma {:induction false} CallsMade(cfg: Config, s: System, ds: seq<Delivery>, grow: bool)
    requires WellFormed(cfg, s) && |ds| <= cfg.nodes
    requires if grow then s.phase == Growing(0) else s.phase.Shrinking? && s.phase.next == 0
    ensures
      var t := Play(cfg, s, ds);
      if grow then t.phase == Growing(|ds|) else t.phase.Shrinking? && t.phase.next == |ds|
  {
    hide Play, NodeShare, Call;
    if ds == [] {
      EmptyPlay(cfg, s);
    } else {
      CallsMade(cfg, s, Init(ds), grow);
      PlayStep(cfg, s, ds);
    }
  }

  /** A round's fates bring it back to rest. */
  lemma FatesEnd(cfg: Config, s: System, net: seq<Delivery>)
    requires WellFormed(cfg, s) && |net| == cfg.nodes
    requires s.phase.Idle? || s.phase == Shrinking(0, true)
    ensures Play(cfg, s, Fates(net)).phase.Idle?
  {
    hide Play, NodeShare;
    if s.phase.Idle? {
      IdlePlay(cfg, s, Fates(net));
    } else {
      CallsMade(cfg, s, net, false);
      PlayConcat(cfg, s, net, [Acked]);
      PlayOne(cfg, Play(cfg, s, net));
      var open := Play(cfg, s, net + [Acked]);
      PlayConcat(cfg, s, net + [Acked], net);
      PlayConcat(cfg, s, net + [Acked] + net, [Acked]);
      if open.phase.Idle? {
        IdlePlay(cfg, open, net);
        IdlePlay(cfg, open, [Acked]);
      } else {
        CallsMade(cfg, open, net, true);
        PlayOne(cfg, Play(cfg, open, net));
      }
    }
  }

  /** What a tick does depends on the fleet alone. */
  lemma TickFromRest(cfg: Config, s: System, e: Event)
    requires WellFormed(cfg, s) && s.phase.Idle? && e.Tick? && Fits(cfg, e)
    requires s.fleet[cfg.proposer].Known? && s.fleet[cfg.proposer].globalLimit > 0
    ensures
      var r, t := Next(cfg, s, e), Next(cfg, AtRest(s.fleet), e);
      && r.fleet == t.fleet == s.fleet
      && if t == AtRest(s.fleet) then r == s else r == t && r.phase == Shrinking(0, true)
  {
    hide NodeShare, WorthARound, Fits;
    TickOutcome(cfg, s.fleet, e);
  }

  lemma TickRunIs(cfg: Config, s: System, e: Event, net: seq<Delivery>)
    requires WellFormed(cfg, s) && Fits(cfg, e)
    ensures AllFit(cfg, TickRun(e, net))
    ensures Exec(cfg, s, TickRun(e, net)) == Play(cfg, Next(cfg, s, e), Fates(net))
  {
    hide Play, Fits, Exec, Next, Fates;
    TickRunFits(cfg, e, net);
    AdvancesFit(cfg, Fates(net));
    ExecConcat(cfg, s, [e], Advances(Fates(net)));
    ExecOne(cfg, s, e);
    PlayIsExec(cfg, Next(cfg, s, e), Fates(net));
  }

  /** A tick from rest ends where RoundOutcome says, at rest. */
  lemma TickRunOutcome(cfg: Config, s: System, e: Event, net: seq<Delivery>)
    requires WellFormed(cfg, s) && s.phase.Idle? && e.Tick? && Fits(cfg, e) && |net| == cfg.nodes
    requires s.fleet[cfg.proposer].Known? && s.fleet[cfg.proposer].globalLimit > 0
    ensures AllFit(cfg, TickRun(e, net))
    ensures
      var t := Exec(cfg, s, TickRun(e, net));
      t.fleet == RoundOutcome(cfg, s.fleet, e, net) && t.phase.Idle?
  {
    hide Play, NodeShare, Fits, Exec, Next, Fates, TickRun;
    TickFromRest(cfg, s, e);
    TickRunIs(cfg, s, e, net);
    FatesEnd(cfg, Next(cfg, s, e), net);
    if Next(cfg, s, e) == s {
      IdlePlay(cfg, s, Fates(net));
      IdlePlay(cfg, AtRest(s.fleet), Fates(net));
    }
  }

  lemma {:induction false} ProtocolKeepsLimits(cfg: Config, s: System, events: seq<Event>)
    requires WellFormed(cfg, s) && AllFit(cfg, events) && LimitsCached(cfg, s.fleet)
    ensures LimitsCached(cfg, Exec(cfg, s, events).fleet)
  {
    hide NodeShare, Fits, WorthARound;
    if events != [] { ProtocolKeepsLimits(cfg, s, Init(events)); }
  }

  /** What RebalanceCustomer does to the views is a tick of the joint machine. */
  lemma RebalanceIsTick(cfg: Config, period: int, j: Joint, before: seq<View>, after: seq<View>, customer: string,
                        e: Event, net: seq<Delivery>)
    requires Represents(cfg, period, j, before, customer) && |net| == |before| == cfg.nodes
    requires Rebalance.Limit(before, cfg.proposer, customer) > 0 && e.Tick? && Fits(cfg, e)
    requires OnlyShares(before, after, customer)
    requires FleetOf(after, customer) == RoundOutcome(cfg, FleetOf(before, customer), e, net)
    ensures AllFit(cfg, TickRun(e, net))
    ensures Represents(cfg, period, JointExec(cfg, period, j, TickRun(e, net)), after, customer)
  {
    hide NodeShare, Fits, Exec, JointExec, RoundOutcome, LimitsCached, TickRun;
    TickRunFits(cfg, e, net);
    assert NodeOf(before[cfg.proposer], customer) == j.sys.fleet[cfg.proposer];
    TickRunOutcome(cfg, j.sys, e, net);
    JointIsExec(cfg, period, j, TickRun(e, net));
    NoRequests(e, net);
    ProtocolOnly(cfg, period, j, TickRun(e, net));
    ProtocolKeepsLimits(cfg, j.sys, TickRun(e, net));
  }

  lemma NoRequests(e: Event, net: seq<Delivery>)
    requires e.Tick?
    ensures forall k :: 0 <= k < |TickRun(e, net)| ==> !TickRun(e, net)[k].Request?
  {
  }

  lemma {:induction false} JointIsExec(cfg: Config, period: int, j: Joint, events: seq<Event>)
    requires Sound(cfg, period, j) && AllFit(cfg, events)
    ensures JointExec(cfg, period, j, events).sys == Exec(cfg, j.sys, events)
  {
    hide Next, Fits;
    if events != [] { JointIsExec(cfg, period, j, Init(events)); }
  }

  // ----- any run -----

  /** What reaches the cluster: a client's request, or the proposer's ticker, with who
      answers, the weights of the split and the fates of the calls. */
  datatype Input =
    | Client(node: nat, now: Instant)
    | Ticker(answered: seq<bool>, weights: seq<nat>, net: seq<Delivery>)

  predicate InputOk(cfg: Config, input: Input)
    requires cfg.Valid()
  {
    match input
    case Client(node, _) => node < cfg.nodes
    case Ticker(answered, weights, net) =>
      |answered| == |weights| == |net| == cfg.nodes && answered[cfg.proposer]
  }

  /** The events that an input stands for: a request, or a tick with a split by the weights
      of the nodes that answered, and its calls; no events if the proposer has no limit. */
  ghost predicate InputTrace(cfg: Config, s: System, input: Input, events: seq<Event>)
    requires WellFormed(cfg, s) && InputOk(cfg, input)
  {
    match input
    case Client(node, now) => events == [Request(node, now)]
    case Ticker(answered, weights, net) =>
      var self := s.fleet[cfg.proposer];
      if self.Unseen? || self.globalLimit <= 0 then events == []
      else exists targets :: TickTrace(cfg, answered, weights, net, targets, events)
  }

  ghost predicate TickTrace(cfg: Config, answered: seq<bool>, weights: seq<nat>, net: seq<Delivery>,
                            targets: seq<int>, events: seq<Event>)
    requires cfg.Valid() && |answered| == |weights|
  {
    && Fits(cfg, Tick(answered, targets)) && |targets| == |answered|
    && Split.IsSplit(cfg.limit, Split.EffectiveWeights(Kept(weights, answered)), Kept(targets, answered))
    && events == TickRun(Tick(answered, targets), net)
  }

  method RunTick(peers: seq<Peer>, proposer: nat, customer: string, input: Input,
                 ghost cfg: Config, ghost period: int, ghost j: Joint)
    returns (ghost events: seq<Event>)
    requires Cluster(peers) && cfg.Valid() && |peers| == cfg.nodes && proposer == cfg.proposer
    requires input.Ticker? && InputOk(cfg, input)
    requires Represents(cfg, period, j, Views(peers), customer)
    modifies set p, o | p in peers && o in p.Repr :: o
    ensures Cluster(peers)
    ensures forall i :: 0 <= i < |peers| ==> fresh(peers[i].Repr - old(peers[i].Repr))
    ensures AllFit(cfg, events) && InputTrace(cfg, j.sys, input, events)
    ensures Represents(cfg, period, JointExec(cfg, period, j, events), Views(peers), customer)
  {
    hide Cluster, OnlyShares, RoundOutcome, Split.IsSplit, Split.EffectiveWeights, Fits, Kept, TickRun;
    ghost var before := Views(peers);
    assert NodeOf(before[proposer], customer) == j.sys.fleet[proposer];
    ghost var targets := RebalanceCustomer(peers, proposer, customer, input.answered, input.weights, input.net);
    if Rebalance.Limit(before, proposer, customer) <= 0 {
      events := [];
    } else {
      ghost var e := Tick(input.answered, targets);
      events := TickRun(e, input.net);
      RebalanceIsTick(cfg, period, j, before, Views(peers), customer, e, input.net);
      TickShape(cfg, input.answered, targets);
      assert TickTrace(cfg, input.answered, input.weights, input.net, targets, events);
    }
  }

  lemma TickShape(cfg: Config, answered: seq<bool>, targets: seq<int>)
    requires Fits(cfg, Tick(answered, targets))
    ensures |targets| == |answered|
  {
  }

  function Flat(pieces: seq<seq<Event>>): seq<Event> {
    if pieces == [] then [] else Flat(Init(pieces)) + Last(pieces)
  }

  /** Piece by piece, the events that these inputs stand for. */
  ghost predicate Traces(cfg: Config, inputs: seq<Input>, pieces: seq<seq<Event>>)
    requires cfg.Valid() && forall k :: 0 <= k < |inputs| ==> InputOk(cfg, inputs[k])
  {
    && |pieces| == |inputs| && AllFit(cfg, Flat(pieces))
    && (inputs != [] ==>
          && Traces(cfg, Init(inputs), Init(pieces))
          && InputTrace(cfg, Exec(cfg, Fresh(cfg), Flat(Init(pieces))), Last(inputs), Last(pieces)))
  }

  lemma TracesOneMore(cfg: Config, inputs: seq<Input>, pieces: seq<seq<Event>>, input: Input, piece: seq<Event>)
    requires cfg.Valid() && InputOk(cfg, input)
    requires forall k :: 0 <= k < |inputs| ==> InputOk(cfg, inputs[k])
    requires Traces(cfg, inputs, pieces) && AllFit(cfg, piece)
    requires InputTrace(cfg, Exec(cfg, Fresh(cfg), Flat(pieces)), input, piece)
    ensures AllFit(cfg, Flat(pieces + [piece])) && Flat(pieces + [piece]) == Flat(pieces) + piece
    ensures Traces(cfg, inputs + [input], pieces + [piece])
  {
    hide InputTrace, Fits;
    assert Init(pieces + [piece]) == pieces && Init(inputs + [input]) == inputs;
    BothFit(cfg, Flat(pieces), piece);
  }

  lemma NothingSeen(cfg: Config, period: int, views: seq<View>, customer: string)
    requires cfg.Valid() && cfg.limit <= period && |views| == cfg.nodes
    requires forall i :: 0 <= i < |views| ==> customer !in views[i]
    ensures Represents(cfg, period, JointFresh(cfg, period), views, customer)
    ensures AllFit(cfg, []) && JointExec(cfg, period, JointFresh(cfg, period), []) == JointFresh(cfg, period)
  {
    hide NodeShare;
    assert FleetOf(views, customer) == Fresh(cfg).fleet;
  }

  lemma JointRunSystem(cfg: Config, period: int, events: seq<Event>)
    requires cfg.Valid() && cfg.limit <= period && AllFit(cfg, events)
    ensures JointExec(cfg, period, JointFresh(cfg, period), events).sys == Exec(cfg, Fresh(cfg), events)
  {
    JointIsExec(cfg, period, JointFresh(cfg, period), events);
  }

  lemma JointOne(cfg: Config, period: int, j: Joint, e: Event)
    requires Sound(cfg, period, j) && Fits(cfg, e)
    ensures AllFit(cfg, [e]) && JointExec(cfg, period, j, [e]) == JointNext(cfg, period, j, e)
  {
    hide JointNext, Fits;
    assert Init([e]) == [];
  }

  /** One input, whatever it is. */
  method Handle(peers: seq<Peer>, proposer: nat, customer: string, limit: int, input: Input,
                ghost cfg: Config, ghost period: int, ghost j: Joint)
    returns (ghost events: seq<Event>)
    requires Cluster(peers) && cfg.Valid() && |peers| == cfg.nodes && proposer == cfg.proposer && limit == cfg.limit
    requires InputOk(cfg, input) && forall i :: 0 <= i < |peers| ==> peers[i].period == period
    requires Represents(cfg, period, j, Views(peers), customer)
    modifies set p, o | p in peers && o in p.Repr :: o
    ensures Cluster(peers)
    ensures forall i :: 0 <= i < |peers| ==> fresh(peers[i].Repr - old(peers[i].Repr))
    ensures AllFit(cfg, events) && InputTrace(cfg, j.sys, input, events)
    ensures Represents(cfg, period, JointExec(cfg, period, j, events), Views(peers), customer)
  {
    hide Cluster, JointNext, JointExec, Fits;
    match input {
      case Client(node, now) =>
        events := [Request(node, now)];
        RequestFits(cfg, node, now);
        JointOne(cfg, period, j, Request(node, now));
        var _ := ServeRequest(peers, node, customer, now, cfg, limit, period, j);
      case Ticker(_, _, _) =>
        events := RunTick(peers, proposer, customer, input, cfg, period, j);
    }
  }

  lemma RequestFits(cfg: Config, node: nat, now: Instant)
    ensures Fits(cfg, Request(node, now))
  {
  }

  /** Any run of the objects, from peers that have not seen the customer, is a run of the
      joint machine over the events its inputs stand for. */
  method Drive(peers: seq<Peer>, proposer: nat, customer: string, limit: int, inputs: seq<Input>,
               ghost cfg: Config, ghost period: int)
    returns (ghost pieces: seq<seq<Event>>)
    requires Cluster(peers) && cfg == Config(|peers|, proposer, limit) && cfg.Valid() && limit <= period
    requires forall i :: 0 <= i < |peers| ==> peers[i].period == period && customer !in peers[i].view
    requires forall k :: 0 <= k < |inputs| ==> InputOk(cfg, inputs[k])
    modifies set p, o | p in peers && o in p.Repr :: o
    ensures Cluster(peers) && Traces(cfg, inputs, pieces)
    ensures Represents(cfg, period, JointExec(cfg, period, JointFresh(cfg, period), Flat(pieces)),
                       Views(peers), customer)
  {
    hide Cluster, JointExec, Represents, InputTrace, InputOk, Fits, Traces, Flat, Views;
    pieces := [];
    NothingSeen(cfg, period, Views(peers), customer);
    assert Traces(cfg, inputs[..0], []) && Flat([]) == [] by { NoTraces(cfg, inputs[..0]); }
    var k := 0;
    while k < |inputs|
      invariant 0 <= k <= |inputs| && Cluster(peers)
      invariant forall i :: 0 <= i < |peers| ==> fresh(peers[i].Repr - old(peers[i].Repr))
      invariant AllFit(cfg, Flat(pieces)) && Traces(cfg, inputs[..k], pieces)
      invariant Represents(cfg, period, JointExec(cfg, period, JointFresh(cfg, period), Flat(pieces)),
                           Views(peers), customer)
    {
      ghost var done := Flat(pieces);
      ghost var j := JointExec(cfg, period, JointFresh(cfg, period), done);
      JointRunSystem(cfg, period, done);
      ghost var piece := Handle(peers, proposer, customer, limit, inputs[k], cfg, period, j);
      TracesOneMore(cfg, inputs[..k], pieces, inputs[k], piece);
      JointConcat(cfg, period, JointFresh(cfg, period), done, piece);
      assert inputs[..k] + [inputs[k]] == inputs[..k + 1];
      pieces := pieces + [piece];
      k := k + 1;
    }
    assert inputs[..k] == inputs;
  }

  lemma NoTraces(cfg: Config, inputs: seq<Input>)
    requires cfg.Valid() && inputs == []
    ensures Traces(cfg, inputs, []) && Flat([]) == []
  {
  }
}
