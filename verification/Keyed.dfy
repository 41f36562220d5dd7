/** A run of requests by many customers, as one map from key to TAT. */
module Keyed {
  import opened Seqs
  import opened Gcra

  type ValidRate = r: Rate | r.Valid() witness Rate(1, 0, 1)

  datatype Request<K> = Request(key: K, now: Instant)

  datatype KeyedHistory<K> = KeyedHistory(tats: map<K, Instant>, decisions: seq<Decision>)

  /** A key never seen before has the zero TAT. */
  function TatFor<K>(tats: map<K, Instant>, key: K): Instant {
    if key in tats then tats[key] else ZERO_TIME
  }

  function ServeAll<K>(requests: seq<Request<K>>, rates: K -> ValidRate): (h: KeyedHistory<K>)
    ensures |h.decisions| == |requests|
  {
    if requests == [] then KeyedHistory(map[], [])
    else
      var h := ServeAll(Init(requests), rates);
      var r := Last(requests);
      var (d, tat) := Step(TatFor(h.tats, r.key), r.now, rates(r.key));
      KeyedHistory(h.tats[r.key := tat], h.decisions + [d])
  }

  lemma ServeOneMore<K>(requests: seq<Request<K>>, r: Request<K>, rates: K -> ValidRate)
    ensures
      var (h, h') := (ServeAll(requests, rates), ServeAll(requests + [r], rates));
      var step := Step(TatFor(h.tats, r.key), r.now, rates(r.key));
      h'.tats == h.tats[r.key := step.1] && h'.decisions == h.decisions + [step.0]
  {
    assert Init(requests + [r]) == requests;
  }

  /** The arrivals of one key, and the decisions they got, in order. */
  function ArrivalsOf<K(==)>(requests: seq<Request<K>>, key: K): seq<Instant> {
    if requests == [] then []
    else ArrivalsOf(Init(requests), key) + if Last(requests).key == key then [Last(requests).now] else []
  }

  function DecisionsOf<K(==)>(requests: seq<Request<K>>, decisions: seq<Decision>, key: K): seq<Decision>
    requires |requests| == |decisions|
  {
    if requests == [] then []
    else
      var before := DecisionsOf(Init(requests), Init(decisions), key);
      before + if Last(requests).key == key then [Last(decisions)] else []
  }

  /** In every interleaving, each key gets exactly the decisions and the TAT it
      would get running alone. */
  lemma {:induction false} KeysAreIsolated<K>(requests: seq<Request<K>>, rates: K -> ValidRate, key: K)
    ensures DecisionsOf(requests, ServeAll(requests, rates).decisions, key)
         == Serve(ArrivalsOf(requests, key), rates(key)).decisions
    ensures TatFor(ServeAll(requests, rates).tats, key) == Serve(ArrivalsOf(requests, key), rates(key)).tat
  {
    if requests != [] {
      KeysAreIsolated(Init(requests), rates, key);
      assert Init(ServeAll(requests, rates).decisions) == ServeAll(Init(requests), rates).decisions;
      if Last(requests).key == key {
        assert Init(ArrivalsOf(requests, key)) == ArrivalsOf(Init(requests), key);
      } else {
        assert ArrivalsOf(requests, key) == ArrivalsOf(Init(requests), key);
      }
    }
  }

  /** The admitted arrivals of the keys selected by `which`, across the whole run. */
  function AdmittedWhere<K>(requests: seq<Request<K>>, decisions: seq<Decision>, which: K -> bool): seq<Instant>
    requires |requests| == |decisions|
  {
    if requests == [] then []
    else
      var before := AdmittedWhere(Init(requests), Init(decisions), which);
      before + if which(Last(requests).key) && Last(decisions).allowed then [Last(requests).now] else []
  }

  function Only<K(==)>(key: K): K -> bool { k => k == key }

  /** For one key these are the log of that key's own limiter. */
  lemma {:induction false} AdmittedOfKey<K>(requests: seq<Request<K>>, rates: K -> ValidRate, key: K)
    ensures AdmittedWhere(requests, ServeAll(requests, rates).decisions, Only(key))
         == Serve(ArrivalsOf(requests, key), rates(key)).log
  {
    if requests != [] {
      AdmittedOfKey(Init(requests), rates, key);
      KeysAreIsolated(Init(requests), rates, key);
      assert Init(ServeAll(requests, rates).decisions) == ServeAll(Init(requests), rates).decisions;
      if Last(requests).key == key {
        assert Init(ArrivalsOf(requests, key)) == ArrivalsOf(Init(requests), key);
      } else {
        assert ArrivalsOf(requests, key) == ArrivalsOf(Init(requests), key);
      }
    }
  }
}
