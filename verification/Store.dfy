/** The striped store of internal/ratelimit and the limiter above it. */
module Store {
  import opened Gcra
  import opened Keyed

  const NUM_SHARDS: nat := 32

  class Shard {
    var state: map<string, Instant>

    constructor ()
      ensures state == map[]
    {
      state := map[];
    }
  }

  class Store {
    const hash: string -> nat
    const shards: seq<Shard>
    ghost var tats: map<string, Instant>  // the one map the shards stand for

    ghost predicate Valid()
      reads this, shards
    {
      && |shards| == NUM_SHARDS
      && (forall i, j :: 0 <= i < j < NUM_SHARDS ==> shards[i] != shards[j])
      && (forall key :: key in tats ==>
            && key in shards[hash(key) % NUM_SHARDS].state
            && shards[hash(key) % NUM_SHARDS].state[key] == tats[key])
      && (forall i, key :: 0 <= i < NUM_SHARDS && key in shards[i].state ==>
            hash(key) % NUM_SHARDS == i && key in tats)
    }

    constructor (hash: string -> nat)
      ensures Valid() && tats == map[] && this.hash == hash
      ensures forall s :: s in shards ==> fresh(s)
      ensures |shards| == 32
    {
      var made: seq<Shard> := [];
      while |made| < NUM_SHARDS
        invariant |made| <= NUM_SHARDS
        invariant forall s :: s in made ==> fresh(s) && s.state == map[]
        invariant forall i, j :: 0 <= i < j < |made| ==> made[i] != made[j]
      {
        var s := new Shard();
        made := made + [s];
      }
      this.hash := hash;
      shards := made;
      tats := map[];
    }

    function ShardFor(key: string): (s: Shard)
      requires |shards| == NUM_SHARDS
      ensures s in shards
    {
      shards[hash(key) % NUM_SHARDS]
    }

    /** Read, decide and write back under the shard's lock, as one step. */
    method WithTat(key: string, fn: Instant -> (Decision, Instant)) returns (d: Decision)
      requires Valid()
      modifies this, shards
      ensures Valid()
      ensures d == fn(TatFor(old(tats), key)).0
      ensures tats == old(tats)[key := fn(TatFor(old(tats), key)).1]
    {
      var sh := ShardFor(key);
      var (decision, newTat) := fn(if key in sh.state then sh.state[key] else ZERO_TIME);
      sh.state := sh.state[key := newTat];
      tats := tats[key := newTat];
      d := decision;
    }
  }

  class Limiter {
    const params: Params
    const store: Store
    ghost const footprint: set<object>  // what a decision may change

    ghost predicate Valid()
      reads this, footprint
    {
      && params.Valid()
      && this !in footprint && store in footprint
      && (forall s :: s in store.shards ==> s in footprint)
      && store.Valid()
    }

    constructor (hash: string -> nat, params: Params)
      requires params.Valid()
      ensures Valid() && this.params == params && store.tats == map[]
      ensures fresh(footprint)
    {
      this.params := params;
      var st := new Store(hash);
      store := st;
      footprint := {st as object} + (set s: object | s in st.shards);
    }

    /** For any hash function, one decision of the one-map model. */
    method AllowAt(customer: string, now: Instant) returns (d: Decision)
      requires Valid()
      modifies footprint
      ensures Valid()
      ensures d == Decide(TatFor(old(store.tats), customer), now, params).0
      ensures store.tats
           == old(store.tats)[customer := Decide(TatFor(old(store.tats), customer), now, params).1]
      ensures d.limit == params.quota
      ensures d.reason == if d.allowed then Admitted else RateExceeded
      ensures d.allowed ==> d.retryAfter == 0
      ensures !d.allowed ==> d.retryAfter > 0 && d.remaining == 0
    {
      var rate: ValidRate := params.AsRate();
      d := store.WithTat(customer, tat => Step(tat, now, rate));
    }
  }
}
