/** The peer coordinator's objects: per-customer state that rebalancing changes in place. */
module PeerNode {
  import opened Gcra
  import opened StaticShares
  import opened ShareGcra
  import opened Rounds

  /** One customer as a node holds it: what the protocol sees, and the TAT it must not touch. */
  datatype CustomerView = CustomerView(share: int, lastApplied: nat, globalLimit: int, tat: Instant)

  /** customerFor: a first sight bootstraps to the static share, or to one when the limit
      is not known; later a known limit is remembered. */
  function Met(view: map<string, CustomerView>, customer: string, globalLimit: int, nodeCount: int): CustomerView
    requires nodeCount >= 1
  {
    if customer !in view then
      CustomerView(if globalLimit > 0 then NodeShare(globalLimit, nodeCount) else 1, 0, globalLimit, ZERO_TIME)
    else if globalLimit > 0 then view[customer].(globalLimit := globalLimit)
    else view[customer]
  }

  /** The protocol's view of one customer on one node. */
  function NodeOf(view: map<string, CustomerView>, customer: string): Node {
    if customer in view then Known(view[customer].share, view[customer].lastApplied, view[customer].globalLimit)
    else Unseen
  }

  /** The customer's TAT on one node; a customer never seen has the zero TAT. */
  function TatIn(view: map<string, CustomerView>, customer: string): Instant {
    if customer in view then view[customer].tat else ZERO_TIME
  }

  class CustomerState {
    const share: ShareState
    var globalLimit: int
    var lastApplied: nat
    ghost const owner: string

    constructor (initialShare: int, globalLimit: int, ghost owner: string)
      ensures fresh(share) && View() == CustomerView(initialShare, 0, globalLimit, ZERO_TIME)
      ensures share.burst == NODE_BURST && this.owner == share.owner == owner
    {
      share := new ShareState(initialShare, NODE_BURST, owner);
      this.globalLimit, lastApplied, this.owner := globalLimit, 0, owner;
    }

    ghost function View(): CustomerView
      reads this, share
    {
      CustomerView(share.quota, lastApplied, globalLimit, share.tat)
    }
  }

  class Peer {
    const nodeCount: int
    const period: int
    var customers: map<string, CustomerState>
    ghost var view: map<string, CustomerView>
    ghost var Repr: set<object>

    ghost predicate Valid()
      reads this, Repr
      ensures Valid() ==> this in Repr && nodeCount >= 1
    {
      && this in Repr && nodeCount >= 1
      && customers.Keys == view.Keys
      && (forall c :: c in customers ==> Holds(c, customers[c]))
    }

    ghost predicate Holds(customer: string, cs: CustomerState)
      reads this, Repr
    {
      && customer in view && cs in Repr && cs.share in Repr
      && cs.owner == cs.share.owner == customer
      && cs.share.burst == NODE_BURST && cs.View() == view[customer]
    }

    constructor (nodeCount: int, period: int)
      requires nodeCount >= 1
      ensures Valid() && fresh(Repr) && view == map[]
      ensures this.nodeCount == nodeCount && this.period == period
    {
      this.nodeCount, this.period := nodeCount, period;
      customers, view := map[], map[];
      Repr := {this};
    }

    method CustomerFor(customer: string, globalLimit: int) returns (cs: CustomerState)
      requires Valid()
      modifies Repr
      ensures Valid() && fresh(Repr - old(Repr)) && old(Repr) <= Repr
      ensures view == old(view)[customer := Met(old(view), customer, globalLimit, nodeCount)]
      ensures customer in customers && customers[customer] == cs
      ensures cs in Repr && cs.share in Repr && cs.View() == view[customer]
      ensures globalLimit > 0 ==> view[customer].globalLimit == globalLimit
      ensures customer in old(view) ==>
        && view[customer].share == old(view)[customer].share && view[customer].tat == old(view)[customer].tat
        && view[customer].lastApplied == old(view)[customer].lastApplied
        && (globalLimit <= 0 ==> view[customer].globalLimit == old(view)[customer].globalLimit)
      ensures customer !in old(view) ==>
        && view[customer].share == (if globalLimit > 0 then NodeShare(globalLimit, nodeCount) else 1)
        && view[customer].lastApplied == 0 && view[customer].tat == ZERO_TIME
        && view[customer].globalLimit == globalLimit
    {
      hide NodeShare;
      if customer !in customers {
        cs := Bootstrap(customer, globalLimit);
      } else {
        cs := customers[customer];
        assert Holds(customer, cs);
        if globalLimit > 0 { Remember(customer, cs, globalLimit); }
        assert Holds(customer, cs);
      }
    }

    method Remember(customer: string, cs: CustomerState, globalLimit: int)
      requires Valid() && customer in customers && customers[customer] == cs
      modifies cs`globalLimit, this`view
      ensures Valid() && customer in old(view)
      ensures view == old(view)[customer := old(view)[customer].(globalLimit := globalLimit)]
    {
      assert Holds(customer, cs);
      cs.globalLimit := globalLimit;
      view := view[customer := cs.View()];
    }

    /** The state of a customer seen for the first time. */
    method Bootstrap(customer: string, globalLimit: int) returns (cs: CustomerState)
      requires Valid() && customer !in customers
      modifies this
      ensures Valid() && fresh(Repr - old(Repr)) && old(Repr) <= Repr
      ensures view == old(view)[customer := Met(old(view), customer, globalLimit, nodeCount)]
      ensures customer in customers && customers[customer] == cs
      ensures cs in Repr && cs.share in Repr && cs.View() == view[customer]
    {
      hide NodeShare;
      var initial := 1;
      if globalLimit > 0 { initial := NodeShare(globalLimit, nodeCount); }
      cs := new CustomerState(initial, globalLimit, customer);
      customers := customers[customer := cs];
      view := view[customer := Met(view, customer, globalLimit, nodeCount)];
      Repr := Repr + {cs, cs.share};
    }

    /** One admission check at the share the node now holds. */
    method Allow(customer: string, globalLimit: int, now: Instant) returns (d: Decision)
      requires Valid() && EnforcedQuota(Met(view, customer, globalLimit, nodeCount).share) <= period
      modifies Repr
      ensures Valid() && fresh(Repr - old(Repr))
      ensures
        var met := Met(old(view), customer, globalLimit, nodeCount);
        var r := Gcra.Step(met.tat, now, ShareRate(met.share, period, NODE_BURST));
        d == r.0 && view == old(view)[customer := met.(tat := r.1)]
      ensures d.limit == if view[customer].share < 1 then 1 else view[customer].share
      ensures d.reason == if d.allowed then Admitted else RateExceeded
      ensures d.allowed ==> d.retryAfter == 0
      ensures !d.allowed ==> d.retryAfter > 0 && d.remaining == 0
      ensures globalLimit > 0 ==> view[customer].globalLimit == globalLimit
      ensures customer in old(view) ==>
        && view[customer].share == old(view)[customer].share
        && view[customer].lastApplied == old(view)[customer].lastApplied
        && (globalLimit <= 0 ==> view[customer].globalLimit == old(view)[customer].globalLimit)
      ensures customer !in old(view) ==>
        && view[customer].share == (if globalLimit > 0 then NodeShare(globalLimit, nodeCount) else 1)
        && view[customer].lastApplied == 0 && view[customer].globalLimit == globalLimit
    {
      hide NodeShare, ShareRate, Gcra.Step, EnforcedQuota, Met, Valid;
      var cs := CustomerFor(customer, globalLimit);
      d := AllowBy(customer, cs, now);
    }

    method AllowBy(customer: string, cs: CustomerState, now: Instant) returns (d: Decision)
      requires Valid() && customer in customers && customers[customer] == cs && cs.share in Repr
      requires EnforcedQuota(view[customer].share) <= period
      modifies cs.share, this`view
      ensures Valid() && customer in old(view)
      ensures
        var was := old(view)[customer];
        var r := Gcra.Step(was.tat, now, ShareRate(was.share, period, NODE_BURST));
        d == r.0 && view == old(view)[customer := was.(tat := r.1)]
      ensures d.limit == if view[customer].share < 1 then 1 else view[customer].share
      ensures d.reason == if d.allowed then Admitted else RateExceeded
      ensures d.allowed ==> d.retryAfter == 0
      ensures !d.allowed ==> d.retryAfter > 0 && d.remaining == 0
    {
      hide ShareRate, Gcra.Step, EnforcedQuota;
      assert Holds(customer, cs);
      d := cs.share.Allow(now, period);
      view := view[customer := cs.View()];
    }

    /** An apply-share instruction, fencing and setQuota as one step. The TAT stays. */
    method HandleApplyShare(customer: string, round: nat, quota: int) returns (applied: bool)
      requires Valid()
      modifies Repr
      ensures Valid() && fresh(Repr - old(Repr)) && old(Repr) <= Repr
      ensures (NodeOf(view, customer), applied) == Rounds.Apply(NodeOf(old(view), customer), round, quota)
      ensures customer in view && view == old(view)[customer := view[customer]]
      ensures view[customer].tat == Met(old(view), customer, 0, nodeCount).tat
      ensures applied <==> round > if customer in old(view) then old(view)[customer].lastApplied else 0
      ensures applied ==> view[customer].share == quota && view[customer].lastApplied == round
      ensures !applied && customer in old(view) ==> view[customer] == old(view)[customer]
      ensures view[customer].globalLimit == if customer in old(view) then old(view)[customer].globalLimit else 0
    {
      hide NodeShare, Valid;
      var cs := CustomerFor(customer, 0);
      if round <= cs.lastApplied {
        return false;
      }
      SetShare(customer, cs, round, quota);
      applied := true;
    }

    method SetShare(customer: string, cs: CustomerState, round: nat, quota: int)
      requires Valid() && customer in customers && customers[customer] == cs
      modifies cs`lastApplied, cs.share`quota, this`view
      ensures Valid() && customer in old(view)
      ensures view == old(view)[customer := old(view)[customer].(share := quota, lastApplied := round)]
    {
      assert Holds(customer, cs);
      cs.lastApplied := round;
      cs.share.SetQuota(quota);
      view := view[customer := cs.View()];
    }
  }
}
