/** The peers' own objects while the customer's limit changes, proved to take the steps of
    the machine with changing limits. */
module ClusterLimits {
  import opened Seqs
  import opened Gcra
  import opened StaticShares
  import opened ShareGcra
  import opened Rounds
  import opened RoundSafety
  import opened Handover
  import opened PeerNode
  import opened Rebalance
  import opened ClusterRuns
  import opened LimitChanges
  import Split

  /** Between rounds, the objects hold what the machine says. */
  ghost predicate HoldsChanging(cfg: Config, c: Changing, views: seq<View>, customer: string) {
    && WellFormedChanging(cfg, c) && c.sys.phase.Idle?
    && FleetOf(views, customer) == c.sys.fleet
  }

  /** The events take the machine from `c` to what the objects hold. */
  ghost predicate LeadsTo(cfg: Config, c: Changing, events: seq<ChangeEvent>, views: seq<View>, customer: string) {
    && WellFormedChanging(cfg, c) && AllChangesFit(cfg, c, events)
    && HoldsChanging(cfg, ChangeExec(cfg, c, events), views, customer)
  }

  // ----- a request that brings a limit -----

  /** What Allow does to a view is what the machine does to the node: it learns the limit,
      and a first sight bootstraps with it. */
  lemma AllowIsResolved(cfg: Config, c: Changing, views: seq<View>, customer: string, i: nat, limit: StaticShares.Limit,
                        tat: Instant)
    requires HoldsChanging(cfg, c, views, customer) && i < cfg.nodes && limit <= cfg.limit
    ensures
      var met := Met(views[i], customer, limit, cfg.nodes);
      HoldsChanging(cfg, ChangeNext(cfg, c, Resolved(i, limit)),
                    views[i := views[i][customer := met.(tat := tat)]], customer)
  {
    hide NodeShare;
    assert NodeOf(views[i], customer) == c.sys.fleet[i];
  }

  method ServeResolved(peers: seq<Peer>, i: nat, customer: string, limit: StaticShares.Limit, now: Instant,
                       ghost cfg: Config, ghost c: Changing)
    returns (d: Decision)
    requires Cluster(peers) && |peers| == cfg.nodes && i < |peers| && limit <= cfg.limit
    requires HoldsChanging(cfg, c, Views(peers), customer)
    requires EnforcedQuota(Met(peers[i].view, customer, limit, peers[i].nodeCount).share) <= peers[i].period
    modifies peers[i].Repr
    ensures Cluster(peers) && fresh(peers[i].Repr - old(peers[i].Repr))
    ensures forall k :: 0 <= k < |peers| && k != i ==> peers[k].Repr == old(peers[k].Repr)
    ensures HoldsChanging(cfg, ChangeNext(cfg, c, Resolved(i, limit)), Views(peers), customer)
    ensures customer in peers[i].view && peers[i].view[customer].globalLimit == limit
    ensures forall k :: 0 <= k < |peers| && k != i ==> peers[k].view == old(peers[k].view)
  {
    hide Peer.Valid, HoldsChanging, Met, EnforcedQuota, ShareRate, Gcra.Step, ChangeNext;
    ghost var before := Views(peers);
    ghost var met := Met(before[i], customer, limit, |peers|);
    AllowIsResolved(cfg, c, before, customer, i, limit,
                    Gcra.Step(met.tat, now, ShareRate(met.share, peers[i].period, NODE_BURST)).1);
    d := peers[i].Allow(customer, limit, now);
    assert Views(peers) == before[i := peers[i].view];
  }

  // ----- a tick -----

  function Protocols(events: seq<Event>): (changes: seq<ChangeEvent>)
    ensures |changes| == |events|
  {
    seq(|events|, i requires 0 <= i < |events| => Protocol(events[i]))
  }

  /** From rest, a tick and its calls run at the limit the proposer has cached. */
  lemma {:induction false} TickAtCached(cfg: Config, c: Changing, e: Event, ds: seq<Delivery>)
    requires WellFormedChanging(cfg, c) && c.sys.phase.Idle? && Cached(cfg, c.sys) > 0
    requires e.Tick? && FullyAnswered(e) && Fits(At(cfg, Cached(cfg, c.sys)), e)
    ensures AllFit(At(cfg, Cached(cfg, c.sys)), [e] + Advances(ds))
    ensures AllChangesFit(cfg, c, Protocols([e] + Advances(ds)))
    ensures
      var t := ChangeExec(cfg, c, Protocols([e] + Advances(ds)));
      && t.roundLimit == Cached(cfg, c.sys)
      && t.sys == Exec(At(cfg, Cached(cfg, c.sys)), c.sys, [e] + Advances(ds))
  {
    hide NodeShare, Fits, FullyAnswered, Next;
    var limit, events := Cached(cfg, c.sys), [e] + Advances(ds);
    AdvancesFit(At(cfg, limit), ds);
    if ds == [] {
      OneTick(cfg, c, e);
      assert events == [e];
    } else {
      TickAtCached(cfg, c, e, Init(ds));
      var before := [e] + Advances(Init(ds));
      assert Init(events) == before && Init(Protocols(events)) == Protocols(before);
      assert Last(Protocols(events)) == Protocol(Advance(Last(ds)));
      AdvanceFits(cfg, ChangeExec(cfg, c, Protocols(before)), Last(ds));
    }
  }

  lemma AdvanceFits(cfg: Config, c: Changing, d: Delivery)
    requires WellFormedChanging(cfg, c)
    ensures ChangeFits(cfg, c, Protocol(Advance(d)))
  {
  }

  lemma OneTick(cfg: Config, c: Changing, e: Event)
    requires WellFormedChanging(cfg, c) && c.sys.phase.Idle? && Cached(cfg, c.sys) > 0
    requires e.Tick? && FullyAnswered(e) && Fits(At(cfg, Cached(cfg, c.sys)), e)
    ensures AllFit(At(cfg, Cached(cfg, c.sys)), [e]) && AllChangesFit(cfg, c, Protocols([e]))
    ensures
      var t := ChangeExec(cfg, c, Protocols([e]));
      && t.roundLimit == Cached(cfg, c.sys)
      && t.sys == Exec(At(cfg, Cached(cfg, c.sys)), c.sys, [e])
  {
    hide NodeShare, Fits, FullyAnswered, Next;
    assert Init(Protocols([e])) == [] && Last(Protocols([e])) == Protocol(e) && Init([e]) == [];
  }

  /** What RebalanceCustomer does to the views is a tick at the cached limit. */
  lemma RebalanceIsChange(cfg: Config, c: Changing, before: seq<View>, after: seq<View>, customer: string,
                          targets: seq<int>, net: seq<Delivery>)
    requires HoldsChanging(cfg, c, before, customer) && |net| == |before| == |after| == cfg.nodes
    requires Cached(cfg, c.sys) > 0 && Fits(At(cfg, Cached(cfg, c.sys)), Tick(Everyone(cfg.nodes), targets))
    requires FleetOf(after, customer)
          == RoundOutcome(At(cfg, Cached(cfg, c.sys)), FleetOf(before, customer),
                          Tick(Everyone(cfg.nodes), targets), net)
    ensures
      var events := Protocols(TickRun(Tick(Everyone(cfg.nodes), targets), net));
      LeadsTo(cfg, c, events, after, customer)
  {
    hide Fits, TickRun, RoundOutcome, Exec, ChangeExec, AllChangesFit, FullyAnswered, Fates;
    var e := Tick(Everyone(cfg.nodes), targets);
    EveryoneAnswers(cfg.nodes, targets);
    TickRunOutcome(At(cfg, Cached(cfg, c.sys)), c.sys, e, net);
    TickRunIsTick(e, net);
    TickAtCached(cfg, c, e, Fates(net));
  }

  lemma CachedIsLimit(cfg: Config, c: Changing, views: seq<View>, customer: string)
    requires HoldsChanging(cfg, c, views, customer) && |views| == cfg.nodes
    ensures Cached(cfg, c.sys) == Rebalance.Limit(views, cfg.proposer, customer)
  {
    assert NodeOf(views[cfg.proposer], customer) == c.sys.fleet[cfg.proposer];
  }

  /** One tick with every poll answered: the objects go where the machine goes, and the
      targets are a split of the limit the proposer has cached. */
  method TickAtLimit(peers: seq<Peer>, proposer: nat, customer: string, weights: seq<nat>, net: seq<Delivery>,
                     ghost cfg: Config, ghost c: Changing)
    returns (ghost events: seq<ChangeEvent>, ghost targets: seq<int>)
    requires Cluster(peers) && cfg.Valid() && |peers| == |weights| == |net| == cfg.nodes && proposer == cfg.proposer
    requires HoldsChanging(cfg, c, Views(peers), customer)
    modifies set p, o | p in peers && o in p.Repr :: o
    ensures Cluster(peers)
    ensures forall i :: 0 <= i < |peers| ==> fresh(peers[i].Repr - old(peers[i].Repr))
    ensures LeadsTo(cfg, c, events, Views(peers), customer)
    ensures
      var limit := Rebalance.Limit(old(Views(peers)), proposer, customer);
      if limit <= 0 then Views(peers) == old(Views(peers)) && events == []
      else
        && |targets| == |peers| && Sum(Kept(targets, Everyone(|peers|))) == limit
        && events == Protocols(TickRun(Tick(Everyone(|peers|), targets), net))
  {
    hide Cluster, OnlyShares, Split.IsSplit, Split.EffectiveWeights, Fits, Kept, TickRun, RoundOutcome;
    hide LeadsTo, FleetOf, Cached, Protocols, Sum, Shares, Views;
    ghost var before := Views(peers);
    CachedIsLimit(cfg, c, before, customer);
    targets := RebalanceCustomer(peers, proposer, customer, Everyone(|peers|), weights, net);
    if Rebalance.Limit(before, proposer, customer) <= 0 {
      events := [];
      NoChange(cfg, c, before, customer);
    } else {
      events := Protocols(TickRun(Tick(Everyone(cfg.nodes), targets), net));
      RebalanceIsChange(cfg, c, before, Views(peers), customer, targets, net);
      TickShape(At(cfg, Rebalance.Limit(before, proposer, customer)), Everyone(|peers|), targets);
    }
  }

  lemma TickRunIsTick(e: Event, net: seq<Delivery>)
    ensures TickRun(e, net) == [e] + Advances(Fates(net))
  {
  }

  lemma NoChange(cfg: Config, c: Changing, views: seq<View>, customer: string)
    requires HoldsChanging(cfg, c, views, customer)
    ensures LeadsTo(cfg, c, [], views, customer)
  {
  }

  lemma EveryoneAnswers(n: nat, targets: seq<int>)
    ensures FullyAnswered(Tick(Everyone(n), targets))
  {
  }
}
