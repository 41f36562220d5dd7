/** The static coordinator: every node enforces its rounded-up share of the limit,
    with one limiter per (customer, limit) and no communication. */
module StaticShares {
  import opened Seqs
  import opened Gcra
  import opened Keyed
  import opened Store

  const NODE_BURST: int := 1

  type Limit = n: int | n >= 1 witness 1

  datatype ShareKey = ShareKey(customer: string, globalLimit: Limit)

  function NodeShare(globalLimit: int, nodeCount: int): int
    requires nodeCount >= 1
  {
    CeilDiv(globalLimit, nodeCount)
  }

  /** The shares add up to the limit, plus less than one per node of rounding. */
  lemma SharesCoverLimit(globalLimit: Limit, nodeCount: int)
    requires nodeCount >= 1
    ensures NodeShare(globalLimit, nodeCount) >= 1
    ensures globalLimit <= nodeCount * NodeShare(globalLimit, nodeCount) <= globalLimit + nodeCount - 1
  {
    CeilDivLeast(globalLimit, nodeCount);
    var share := NodeShare(globalLimit, nodeCount);
    assert (share - 1) * nodeCount == nodeCount * share - nodeCount;
  }

  function NodeParams(globalLimit: Limit, nodeCount: int): (p: Params)
    requires nodeCount >= 1
    ensures p.Valid()
  {
    SharesCoverLimit(globalLimit, nodeCount);
    Params(NodeShare(globalLimit, nodeCount), MINUTE, NODE_BURST)
  }

  lemma NodeQuota(globalLimit: Limit, nodeCount: int)
    requires nodeCount >= 1
    ensures NodeParams(globalLimit, nodeCount).quota == NodeShare(globalLimit, nodeCount)
  {
  }

  function NodeRates(nodeCount: int): ShareKey -> ValidRate
    requires nodeCount >= 1
  {
    (key: ShareKey) => NodeParams(key.globalLimit, nodeCount).AsRate()
  }

  class Static {
    const nodeCount: int
    const hash: string -> nat
    var limiters: map<ShareKey, Limiter>
    ghost var history: seq<Request<ShareKey>>  // every request this node has judged
    ghost var tats: map<ShareKey, Instant>
    ghost var Repr: set<object>

    ghost predicate Valid()
      reads this, Repr
    {
      Consistent() && tats == ServeAll(history, NodeRates(nodeCount)).tats
    }

    /** The limiters stand for the one map `tats`. */
    ghost predicate Consistent()
      reads this, Repr
      ensures Consistent() ==> this in Repr && nodeCount >= 1
    {
      && this in Repr && nodeCount >= 1
      && tats.Keys <= limiters.Keys
      && (forall key :: key in limiters ==> limiters[key].params == NodeParams(key.globalLimit, nodeCount))
      && (forall key :: key in limiters ==> Enforces(key, limiters[key]))
      && (forall k1, k2 :: k1 in limiters && k2 in limiters && k1 != k2 ==>
            limiters[k1] !in limiters[k2].footprint && limiters[k1].footprint !! limiters[k2].footprint)
    }

    ghost predicate Enforces(key: ShareKey, l: Limiter)
      reads this, Repr
    {
      && l in Repr && l.footprint <= Repr && this !in l.footprint
      && l.Valid() && l.store in l.footprint
      && l.store.tats == if key in tats then map[key.customer := tats[key]] else map[]
    }

    constructor (nodeCount: int, hash: string -> nat)
      requires nodeCount >= 1
      ensures Valid() && fresh(Repr) && history == []
      ensures this.nodeCount == nodeCount
    {
      this.nodeCount := nodeCount;
      this.hash := hash;
      limiters := map[];
      history, tats := [], map[];
      Repr := {this};
    }

    method LimiterFor(customer: string, globalLimit: Limit) returns (l: Limiter)
      requires Consistent()
      modifies this`limiters, this`Repr
      ensures Consistent() && fresh(Repr - old(Repr)) && old(Repr) <= Repr
      ensures l.footprint <= Repr && this !in l.footprint
      ensures ShareKey(customer, globalLimit) in limiters && limiters[ShareKey(customer, globalLimit)] == l
      ensures limiters.Keys == old(limiters.Keys) + {ShareKey(customer, globalLimit)}
      ensures forall key :: key in old(limiters) ==> limiters[key] == old(limiters)[key]
    {
      hide NodeParams, Limiter.Valid, Params.Valid;
      var key := ShareKey(customer, globalLimit);
      if key in limiters {
        return limiters[key];
      }
      l := AddLimiter(key);
    }

    method AddLimiter(key: ShareKey) returns (l: Limiter)
      requires Consistent() && key !in limiters
      modifies this`limiters, this`Repr
      ensures Consistent() && fresh(Repr - old(Repr)) && old(Repr) <= Repr
      ensures l.footprint <= Repr && this !in l.footprint
      ensures limiters == old(limiters)[key := l]
    {
      hide NodeParams, Limiter.Valid, Params.Valid;
      l := new Limiter(hash, NodeParams(key.globalLimit, nodeCount));
      limiters := limiters[key := l];
      Repr := Repr + {l} + l.footprint;
    }

    /** The request joins the history and gets the decision of the model run over it. */
    method Allow(customer: string, globalLimit: Limit, now: Instant) returns (d: Decision)
      requires Valid()
      modifies Repr
      ensures Valid() && fresh(Repr - old(Repr))
      ensures history == old(history) + [Request(ShareKey(customer, globalLimit), now)]
      ensures d == Last(ServeAll(history, NodeRates(nodeCount)).decisions)
      ensures d.limit == NodeShare(globalLimit, nodeCount)
      ensures d.reason == if d.allowed then Admitted else RateExceeded
      ensures d.allowed ==> d.retryAfter == 0
      ensures !d.allowed ==> d.retryAfter > 0 && d.remaining == 0
    {
      hide Step, NodeParams, ServeAll, Limiter.Valid, Consistent, Enforces;
      var limiter := LimiterFor(customer, globalLimit);
      ghost var key := ShareKey(customer, globalLimit);
      ServeOneMore(history, Request(key, now), NodeRates(nodeCount));
      d := AllowBy(limiter, ShareKey(customer, globalLimit), now);
    }

    method AllowBy(limiter: Limiter, key: ShareKey, now: Instant) returns (d: Decision)
      requires Consistent() && key in limiters && limiters[key] == limiter
      modifies this`history, this`tats, limiter.footprint
      ensures Consistent() && history == old(history) + [Request(key, now)]
      ensures d == Step(TatFor(old(tats), key), now, NodeRates(nodeCount)(key)).0
      ensures tats == old(tats)[key := Step(TatFor(old(tats), key), now, NodeRates(nodeCount)(key)).1]
      ensures d.limit == NodeShare(key.globalLimit, nodeCount)
      ensures d.reason == if d.allowed then Admitted else RateExceeded
      ensures d.allowed ==> d.retryAfter == 0
      ensures !d.allowed ==> d.retryAfter > 0 && d.remaining == 0
    {
      hide Step, NodeParams, Limiter.Valid;
      NodeQuota(key.globalLimit, nodeCount);
      assert Enforces(key, limiter);
      assert TatFor(limiter.store.tats, key.customer) == TatFor(tats, key);
      d := limiter.AllowAt(key.customer, now);
      history, tats := history + [Request(key, now)], tats[key := limiter.store.tats[key.customer]];
      assert Enforces(key, limiter);
      forall k | k in limiters && k != key ensures Enforces(k, limiters[k]) {
        assert old(Enforces(k, limiters[k]));
      }
    }
  }
}
