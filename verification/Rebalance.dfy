/** rebalanceCustomer over the peers' own objects, proved to be a run of the round machine. */
module Rebalance {
  import opened Seqs
  import opened StaticShares
  import opened Rounds
  import opened RoundSafety
  import opened PeerNode
  import Split

  type View = map<string, CustomerView>

  ghost predicate Cluster(peers: seq<Peer>)
    reads peers, set p, o | p in peers && o in p.Repr :: o
  {
    && |peers| >= 1
    && (forall i :: 0 <= i < |peers| ==> peers[i].Valid() && peers[i].nodeCount == |peers|)
    && (forall i, j :: 0 <= i < j < |peers| ==> peers[i].Repr !! peers[j].Repr)
  }

  ghost function Views(peers: seq<Peer>): (views: seq<View>)
    reads peers
    ensures |views| == |peers|
    ensures forall i :: 0 <= i < |peers| ==> views[i] == peers[i].view
  {
    seq(|peers|, i requires 0 <= i < |peers| reads peers => peers[i].view)
  }

  function FleetOf(views: seq<View>, customer: string): (fleet: seq<Node>)
    ensures |fleet| == |views|
    ensures forall i :: 0 <= i < |views| ==> fleet[i] == NodeOf(views[i], customer)
  {
    seq(|views|, i requires 0 <= i < |views| => NodeOf(views[i], customer))
  }

  /** Nothing of any other customer changes, nor the customer's TAT anywhere. */
  ghost predicate OnlyShares(before: seq<View>, after: seq<View>, customer: string) {
    && |before| == |after|
    && forall i :: 0 <= i < |before| ==>
      && after[i] - {customer} == before[i] - {customer}
      && (customer in before[i] ==> customer in after[i])
      && TatIn(after[i], customer) == TatIn(before[i], customer)
  }

  /** One instruction to node `i`, with what the network does to it. */
  method Send(peers: seq<Peer>, i: nat, customer: string, round: nat, quota: int, d: Delivery) returns (ok: bool)
    requires Cluster(peers) && i < |peers|
    modifies peers[i].Repr
    ensures Cluster(peers) && fresh(peers[i].Repr - old(peers[i].Repr))
    ensures forall j :: 0 <= j < |peers| && j != i ==> peers[j].Repr == old(peers[j].Repr)
    ensures OnlyShares(old(Views(peers)), Views(peers), customer)
    ensures
      var before := FleetOf(old(Views(peers)), customer);
      var r := Call(before[i], round, quota, d);
      FleetOf(Views(peers), customer) == before[i := r.0] && ok == r.1
    ensures d == Lost ==> !ok && Views(peers) == old(Views(peers))
    ensures d == ReplyLost ==> !ok
    ensures
      var view, fence := peers[i].view, LastApplied(NodeOf(old(peers[i].view), customer));
      && (d == Acked ==> (ok <==> round > fence))
      && (d != Lost && round > fence ==>
            customer in view && view[customer].share == quota && view[customer].lastApplied == round)
  {
    hide Peer.Valid;
    if d.Lost? { return false; }
    ok := peers[i].HandleApplyShare(customer, round, quota);
    if d.ReplyLost? { ok := false; }
  }

  // ----- the plan -----

  /** A vector over the answering nodes, laid out over all nodes. */
  function Spread(xs: seq<int>, mask: seq<bool>): (r: seq<int>)
    requires |xs| == Split.CountTrue(mask)
    ensures |r| == |mask|
  {
    if mask == [] then []
    else if Last(mask) then Spread(Init(xs), Init(mask)) + [Last(xs)]
    else Spread(xs, Init(mask)) + [0]
  }

  /** The last step of a spread, and what is left of the parts before it. */
  lemma SpreadStep(xs: seq<int>, mask: seq<bool>) returns (rest: seq<int>)
    requires |xs| == Split.CountTrue(mask) && mask != []
    ensures |rest| == Split.CountTrue(Init(mask))
    ensures Spread(xs, mask) == Spread(rest, Init(mask)) + [if Last(mask) then Last(xs) else 0]
    ensures if Last(mask) then xs != [] && rest == Init(xs) else rest == xs
  {
    rest := if Last(mask) then Init(xs) else xs;
  }

  lemma {:induction false} SpreadSum(xs: seq<int>, mask: seq<bool>)
    requires |xs| == Split.CountTrue(mask)
    ensures Sum(Masked(Spread(xs, mask), mask)) == Sum(xs)
  {
    if mask != [] {
      var rest := SpreadStep(xs, mask);
      hide Spread;
      SpreadSum(rest, Init(mask));
      assert Init(Masked(Spread(xs, mask), mask)) == Masked(Spread(rest, Init(mask)), Init(mask));
    }
  }

  lemma {:induction false} SpreadKept(xs: seq<int>, mask: seq<bool>)
    requires |xs| == Split.CountTrue(mask)
    ensures Kept(Spread(xs, mask), mask) == xs
  {
    if mask != [] {
      var rest := SpreadStep(xs, mask);
      hide Spread;
      SpreadKept(rest, Init(mask));
      assert Init(Spread(xs, mask)) == Spread(rest, Init(mask));
    }
  }

  lemma {:induction false} SpreadNonnegative(xs: seq<int>, mask: seq<bool>)
    requires |xs| == Split.CountTrue(mask)
    requires forall k :: 0 <= k < |xs| ==> xs[k] >= 0
    ensures forall i :: 0 <= i < |mask| ==> Spread(xs, mask)[i] >= 0
  {
    if mask != [] { SpreadNonnegative(if Last(mask) then Init(xs) else xs, Init(mask)); }
  }

  /** The proposer's plan: the shares it polled, what they should become, and the targets
      it split over the nodes that answered. */
  method MakePlan(cfg: Config, statuses: seq<Node>, answered: seq<bool>, weights: seq<nat>)
    returns (current: seq<int>, goal: seq<int>, ghost targets: seq<int>)
    requires cfg.Valid() && cfg.nodes == |statuses| == |answered| == |weights| && answered[cfg.proposer]
    ensures current == Shares(cfg, statuses)
    ensures Fits(cfg, Tick(answered, targets))
    ensures goal == GoalOf(cfg, statuses, Tick(answered, targets))
    ensures Split.IsSplit(cfg.limit, Split.EffectiveWeights(Kept(weights, answered)), Kept(targets, answered))
    ensures Sum(Kept(targets, answered)) == cfg.limit
  {
    hide NodeShare, Split.IsSplit, Split.EffectiveWeights;
    current := [];
    var ws: seq<nat> := [];
    for i := 0 to |statuses|
      invariant current == Shares(cfg, statuses)[..i]
      invariant ws == Kept(weights[..i], answered[..i])
    {
      current := current + [if statuses[i].Known? then statuses[i].share else NodeShare(cfg.limit, cfg.nodes)];
      assert Init(weights[..i + 1]) == weights[..i] && Init(answered[..i + 1]) == answered[..i];
      if answered[i] { ws := ws + [weights[i]]; }
    }
    assert weights[..|statuses|] == weights && answered[..|statuses|] == answered;
    Split.KeptLength(weights, answered);
    Split.SomeMarked(answered, cfg.proposer);

    var parts := Split.ProportionalSplit(cfg.limit, ws);
    ghost var xs := parts[..];
    Split.SplitIsExact(cfg.limit, Split.EffectiveWeights(ws), xs);
    targets := Spread(xs, answered);
    SpreadSum(xs, answered);
    SpreadKept(xs, answered);
    SpreadNonnegative(xs, answered);
    goal := LayOut(cfg, statuses, answered, parts, current);
  }

  lemma {:induction false} SpreadPrefix(xs: seq<int>, mask: seq<bool>, i: nat)
    requires |xs| == Split.CountTrue(mask) && i <= |mask|
    ensures Split.CountTrue(mask[..i]) <= |xs|
    ensures Spread(xs[..Split.CountTrue(mask[..i])], mask[..i]) == Spread(xs, mask)[..i]
  {
    if i == |mask| {
      assert mask[..i] == mask && xs[..|xs|] == xs;
    } else {
      assert Init(mask)[..i] == mask[..i];
      var rest := if Last(mask) then Init(xs) else xs;
      SpreadPrefix(rest, Init(mask), i);
      assert rest[..Split.CountTrue(mask[..i])] == xs[..Split.CountTrue(mask[..i])];
    }
  }

  /** The i-th entry of the spread: the next part if node i answered. */
  lemma SpreadAt(xs: seq<int>, mask: seq<bool>, i: nat)
    requires |xs| == Split.CountTrue(mask) && i < |mask|
    ensures var k := Split.CountTrue(mask[..i]);
      && Split.CountTrue(mask[..i + 1]) == k + (if mask[i] then 1 else 0) <= |xs|
      && (mask[i] ==> Spread(xs, mask)[i] == xs[k])
  {
    var k := Split.CountTrue(mask[..i]);
    SpreadPrefix(xs, mask, i + 1);
    assert Init(mask[..i + 1]) == mask[..i];
    if mask[i] {
      assert Last(Spread(xs[..k + 1], mask[..i + 1])) == xs[k];
      assert Spread(xs, mask)[..i + 1][i] == Spread(xs, mask)[i];
    }
  }

  /** The goal over all nodes: a silent node's entry repeats its share, so it is never called. */
  method LayOut(cfg: Config, ghost fleet: seq<Node>, answered: seq<bool>, parts: array<int>, current: seq<int>)
    returns (goal: seq<int>)
    requires cfg.Valid() && cfg.nodes == |fleet| == |answered|
    requires current == Shares(cfg, fleet) && parts.Length == Split.CountTrue(answered)
    ensures goal == GoalOf(cfg, fleet, Tick(answered, Spread(parts[..], answered)))
  {
    hide NodeShare, Spread, Split.CountTrue;
    goal := [];
    var k := 0;
    EmptyCount(answered[..0]);
    ghost var whole := GoalOf(cfg, fleet, Tick(answered, Spread(parts[..], answered)));
    for i := 0 to |answered|
      invariant 0 <= k <= parts.Length && k == Split.CountTrue(answered[..i])
      invariant goal == whole[..i]
    {
      SpreadAt(parts[..], answered, i);
      if answered[i] {
        goal := goal + [parts[k]];
        k := k + 1;
      } else {
        goal := goal + [current[i]];
      }
    }
  }

  lemma EmptyCount(mask: seq<bool>)
    requires mask == []
    ensures Split.CountTrue(mask) == 0
  {
  }

  // ----- the round -----

  /** What each node reports of the customer. */
  method Poll(peers: seq<Peer>, customer: string) returns (statuses: seq<Node>)
    requires Cluster(peers)
    ensures statuses == FleetOf(Views(peers), customer)
  {
    statuses := [];
    for i := 0 to |peers|
      invariant statuses == FleetOf(Views(peers), customer)[..i]
    {
      var p := peers[i];
      var status := Unseen;
      if customer in p.customers {
        var cs := p.customers[customer];
        assert p.Holds(customer, cs);
        status := Known(cs.share.quota, cs.lastApplied, cs.globalLimit);
      }
      statuses := statuses + [status];
    }
  }

  lemma OnlySharesTransitive(a: seq<View>, b: seq<View>, c: seq<View>, customer: string)
    requires OnlyShares(a, b, customer) && OnlyShares(b, c, customer)
    ensures OnlyShares(a, c, customer)
  {
  }

  lemma PlayPrefix(cfg: Config, s: System, ds: seq<Delivery>, i: nat)
    requires WellFormed(cfg, s) && i < |ds|
    ensures Play(cfg, s, ds[..i + 1]) == Next(cfg, Play(cfg, s, ds[..i]), Advance(ds[i]))
  {
    hide Next, Play;
    assert Init(ds[..i + 1]) == ds[..i];
    PlayStep(cfg, s, ds[..i + 1]);
  }

  /** One turn of a phase's loop: a call if the share must move this way, else nothing. */
  lemma PhaseTurn(cfg: Config, s: System, i: nat, d: Delivery, grow: bool, acked: bool)
    requires WellFormed(cfg, s) && i < cfg.nodes && s.phase == PhaseAt(grow, i, acked)
    ensures
      var share := Share(cfg, s.polled[i]);
      var r := Call(s.fleet[i], s.round, s.goal[i], Reach(cfg, i, d));
      Next(cfg, s, Advance(d)) ==
        if (if grow then s.goal[i] > share else s.goal[i] < share)
        then s.(fleet := s.fleet[i := r.0], phase := PhaseAt(grow, i + 1, acked && r.1))
        else s.(phase := PhaseAt(grow, i + 1, acked))
  {
    hide NodeShare, Call;
  }

  function PhaseAt(grow: bool, next: nat, acked: bool): Phase {
    if grow then Growing(next) else Shrinking(next, acked)
  }

  /** Phase 1 or phase 2: a call to every node whose share must move in this direction. */
  method CallPhase(peers: seq<Peer>, cfg: Config, customer: string, grow: bool,
                   current: seq<int>, goal: seq<int>, round: nat, net: seq<Delivery>, ghost s: System)
    returns (allAcked: bool)
    requires Cluster(peers) && WellFormed(cfg, s) && |net| == |peers| == cfg.nodes
    requires s.phase == PhaseAt(grow, 0, true)
    requires s.fleet == FleetOf(Views(peers), customer)
    requires s.goal == goal && s.round == round && current == Shares(cfg, s.polled)
    modifies set p, o | p in peers && o in p.Repr :: o
    ensures Cluster(peers)
    ensures forall i :: 0 <= i < |peers| ==> fresh(peers[i].Repr - old(peers[i].Repr))
    ensures OnlyShares(old(Views(peers)), Views(peers), customer)
    ensures Play(cfg, s, net).fleet == FleetOf(Views(peers), customer)
    ensures SameRound(s, Play(cfg, s, net))
    ensures Play(cfg, s, net).phase == PhaseAt(grow, cfg.nodes, allAcked)
  {
    hide NodeShare, Play, OnlyShares, Next, FleetOf, Cluster, PhaseAt, Share, Views;
    allAcked := true;
    EmptyPlay(cfg, s);
    assert net[..0] == [];
    SharesUnchanged(Views(peers), customer);
    var i := 0;
    ghost var t := s;
    while i < cfg.nodes
      invariant 0 <= i <= cfg.nodes && Cluster(peers) && t == Play(cfg, s, net[..i])
      invariant forall j :: 0 <= j < |peers| ==> fresh(peers[j].Repr - old(peers[j].Repr))
      invariant OnlyShares(old(Views(peers)), Views(peers), customer)
      invariant t.fleet == FleetOf(Views(peers), customer)
      invariant SameRound(s, t) && t.phase == PhaseAt(grow, i, allAcked)
    {
      PlayPrefix(cfg, s, net, i);
      ghost var before := Views(peers);
      allAcked := CallTurn(peers, cfg, customer, grow, current[i], goal[i], round, i, net[i], allAcked, t);
      t := Next(cfg, t, Advance(net[i]));
      OnlySharesTransitive(old(Views(peers)), before, Views(peers), customer);
      i := i + 1;
    }
    assert net[..i] == net;
  }

  method CallTurn(peers: seq<Peer>, cfg: Config, customer: string, grow: bool, current: int, goal: int,
                  round: nat, i: nat, d: Delivery, acked: bool, ghost s: System)
    returns (acked': bool)
    requires Cluster(peers) && WellFormed(cfg, s) && i < |peers| == cfg.nodes
    requires s.phase == PhaseAt(grow, i, acked) && s.fleet == FleetOf(Views(peers), customer)
    requires s.goal[i] == goal && s.round == round && current == Share(cfg, s.polled[i])
    modifies peers[i].Repr
    ensures Cluster(peers) && fresh(peers[i].Repr - old(peers[i].Repr))
    ensures forall j :: 0 <= j < |peers| && j != i ==> peers[j].Repr == old(peers[j].Repr)
    ensures OnlyShares(old(Views(peers)), Views(peers), customer)
    ensures
      var s' := Next(cfg, s, Advance(d));
      && s'.fleet == FleetOf(Views(peers), customer) && SameRound(s, s')
      && s'.phase == PhaseAt(grow, i + 1, acked')
  {
    hide NodeShare, OnlyShares, Next, FleetOf, Call, Cluster;
    SharesUnchanged(Views(peers), customer);
    PhaseTurn(cfg, s, i, d, grow, acked);
    acked' := acked;
    if if grow then goal > current else goal < current {
      var ok := Send(peers, i, customer, round, goal, Reach(cfg, i, d));
      acked' := acked && ok;
    }
  }

  lemma SharesUnchanged(views: seq<View>, customer: string)
    ensures OnlyShares(views, views, customer)
  {
  }

  /** The whole round's fates: every node's shrink call, the gate, every grow call, the end. */
  function Fates(net: seq<Delivery>): seq<Delivery> { net + [Acked] + net + [Acked] }

  /** What a tick finds: the proposer idle. */
  function AtRest(fleet: seq<Node>): System {
    System(fleet, fleet, seq(|fleet|, _ => 0), 0, Idle)
  }

  /** The round machine's outcome for one tick with these targets and fates. */
  function RoundOutcome(cfg: Config, fleet: seq<Node>, e: Event, net: seq<Delivery>): seq<Node>
    requires cfg.Valid() && |fleet| == cfg.nodes && Fits(cfg, e)
  {
    Play(cfg, Next(cfg, AtRest(fleet), e), Fates(net)).fleet
  }

  lemma {:induction false} PlayConcat(cfg: Config, s: System, a: seq<Delivery>, b: seq<Delivery>)
    requires WellFormed(cfg, s)
    ensures Play(cfg, s, a + b) == Play(cfg, Play(cfg, s, a), b)
  {
    hide Play, Next;
    if b == [] {
      assert a + b == a;
      EmptyPlay(cfg, Play(cfg, s, a));
    } else {
      assert Init(a + b) == a + Init(b);
      PlayConcat(cfg, s, a, Init(b));
      PlayStep(cfg, s, a + b);
      PlayStep(cfg, Play(cfg, s, a), b);
    }
  }

  lemma {:induction false} IdlePlay(cfg: Config, s: System, ds: seq<Delivery>)
    requires WellFormed(cfg, s) && s.phase.Idle?
    ensures Play(cfg, s, ds) == s
  {
    hide Play;
    if ds == [] { EmptyPlay(cfg, s); } else { IdlePlay(cfg, s, Init(ds)); PlayStep(cfg, s, ds); }
  }

  lemma PlayOne(cfg: Config, s: System)
    requires WellFormed(cfg, s)
    ensures Play(cfg, s, [Acked]) == Next(cfg, s, Advance(Acked))
  {
    hide Play, Next;
    assert Init([Acked]) == [];
    EmptyPlay(cfg, s);
    PlayStep(cfg, s, [Acked]);
  }

  /** The fates of a round, phase by phase. */
  lemma PlayFates(cfg: Config, r: System, net: seq<Delivery>, acked: bool)
    requires WellFormed(cfg, r) && Play(cfg, r, net).phase == Shrinking(cfg.nodes, acked)
    ensures
      var gate := Play(cfg, r, net);
      var open := gate.(phase := Growing(0));
      && (!acked ==> Play(cfg, r, Fates(net)).fleet == gate.fleet)
      && (acked && Play(cfg, open, net).phase == Growing(cfg.nodes) ==>
            Play(cfg, r, Fates(net)).fleet == Play(cfg, open, net).fleet)
  {
    hide Play;
    PlayConcat(cfg, r, net, [Acked]);
    PlayConcat(cfg, r, net + [Acked], net);
    PlayConcat(cfg, r, net + [Acked] + net, [Acked]);
    PlayOne(cfg, Play(cfg, r, net));
    if acked {
      PlayOne(cfg, Play(cfg, Play(cfg, r, net).(phase := Growing(0)), net));
    } else {
      IdlePlay(cfg, Play(cfg, r, net + [Acked]), net);
      IdlePlay(cfg, Play(cfg, r, net + [Acked] + net), [Acked]);
    }
  }

  /** What a tick does to a system at rest. */
  lemma TickOutcome(cfg: Config, fleet: seq<Node>, e: Event)
    requires cfg.Valid() && |fleet| == cfg.nodes && e.Tick? && Fits(cfg, e)
    requires fleet[cfg.proposer].Known? && fleet[cfg.proposer].globalLimit > 0
    ensures
      var (current, goal) := (Shares(cfg, fleet), GoalOf(cfg, fleet, e));
      Next(cfg, AtRest(fleet), e) ==
        if WorthARound(current, goal)
        then System(fleet, fleet, goal, fleet[cfg.proposer].lastApplied + 1, Shrinking(0, true))
        else AtRest(fleet)
  {
    hide NodeShare, WorthARound;
  }

  function Limit(views: seq<View>, proposer: nat, customer: string): int
    requires proposer < |views|
  {
    if customer in views[proposer] then views[proposer][customer].globalLimit else 0
  }

  /** One tick of the proposer for one customer.  The peers end as the round machine says
      for some largest-remainder split of the limit over the nodes that answered. */
  method RebalanceCustomer(peers: seq<Peer>, proposer: nat, customer: string, answered: seq<bool>,
                           weights: seq<nat>, net: seq<Delivery>)
    returns (ghost targets: seq<int>)
    requires Cluster(peers) && proposer < |peers|
    requires |answered| == |weights| == |net| == |peers| && answered[proposer]
    modifies set p, o | p in peers && o in p.Repr :: o
    ensures Cluster(peers)
    ensures forall i :: 0 <= i < |peers| ==> fresh(peers[i].Repr - old(peers[i].Repr))
    ensures OnlyShares(old(Views(peers)), Views(peers), customer)
    ensures
      var limit := Limit(old(Views(peers)), proposer, customer);
      if limit <= 0 then Views(peers) == old(Views(peers))
      else
        var cfg := Config(|peers|, proposer, limit);
        && Fits(cfg, Tick(answered, targets))
        && Split.IsSplit(limit, Split.EffectiveWeights(Kept(weights, answered)), Kept(targets, answered))
        && Sum(Kept(targets, answered)) == limit
        && FleetOf(Views(peers), customer)
             == RoundOutcome(cfg, FleetOf(old(Views(peers)), customer), Tick(answered, targets), net)
  {
    hide NodeShare, Play, OnlyShares, Split.IsSplit, Split.EffectiveWeights, Fits, Cluster, WorthARound, Next, Kept,
      Views, Shares, GoalOf, Fates;
    SharesUnchanged(Views(peers), customer);
    targets := [];
    var statuses := Poll(peers, customer);
    var self := statuses[proposer];
    if self.Unseen? || self.globalLimit <= 0 { return; }

    var cfg := Config(|peers|, proposer, self.globalLimit);
    var current, goal;
    current, goal, targets := MakePlan(cfg, statuses, answered, weights);
    ghost var start, e := AtRest(statuses), Tick(answered, targets);
    TickOutcome(cfg, statuses, e);
    var worth := Hysteresis(current, goal);
    if !worth {
      IdlePlay(cfg, start, Fates(net));
      return;
    }

    RunRound(peers, cfg, customer, current, goal, self.lastApplied + 1, net, Next(cfg, start, e));
  }

  /** Shrink calls, the gate, grow calls. */
  method RunRound(peers: seq<Peer>, cfg: Config, customer: string, current: seq<int>, goal: seq<int>, round: nat,
                  net: seq<Delivery>, ghost r: System)
    requires Cluster(peers) && WellFormed(cfg, r) && |net| == |peers| == cfg.nodes
    requires r.phase == Shrinking(0, true) && r.fleet == FleetOf(Views(peers), customer)
    requires r.goal == goal && r.round == round && current == Shares(cfg, r.polled)
    modifies set p, o | p in peers && o in p.Repr :: o
    ensures Cluster(peers)
    ensures forall i :: 0 <= i < |peers| ==> fresh(peers[i].Repr - old(peers[i].Repr))
    ensures OnlyShares(old(Views(peers)), Views(peers), customer)
    ensures FleetOf(Views(peers), customer) == Play(cfg, r, Fates(net)).fleet
  {
    hide NodeShare, Play, OnlyShares, Cluster, Next, Views, Shares, Fates, FleetOf;
    var acked := CallPhase(peers, cfg, customer, false, current, goal, round, net, r);
    PlayFates(cfg, r, net, acked);
    if !acked { return; }
    ghost var middle := Views(peers);
    ghost var open := Play(cfg, r, net).(phase := Growing(0));
    var _ := CallPhase(peers, cfg, customer, true, current, goal, round, net, open);
    OnlySharesTransitive(old(Views(peers)), middle, Views(peers), customer);
  }

  method Hysteresis(current: seq<int>, goal: seq<int>) returns (worth: bool)
    requires |current| == |goal|
    ensures worth == WorthARound(current, goal)
  {
    var maxAbsDelta := 0;
    for i := 0 to |current|
      invariant forall k :: 0 <= k < i ==> Split.Abs(goal[k] - current[k]) <= maxAbsDelta
      invariant maxAbsDelta == 0 || exists k :: 0 <= k < i && Split.Abs(goal[k] - current[k]) == maxAbsDelta
    {
      var d := Split.Abs(goal[i] - current[i]);
      if d > maxAbsDelta { maxAbsDelta := d; }
    }
    worth := maxAbsDelta >= HYSTERESIS_RPM;
  }
}
