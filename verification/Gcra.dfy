/** The GCRA core of internal/ratelimit: one theoretical arrival time (TAT) per
    customer, in the virtual-scheduling form of Annex A of ITU-T I.371.

    Instants are whole nanoseconds since Go's zero time, so the zero TAT is never
    later than an arrival.  Durations are mathematical integers. */
module Gcra {
  import opened Seqs

  type Instant = nat
  const ZERO_TIME: Instant := 0
  const MINUTE: int := 60_000_000_000

  function Max(a: int, b: int): int { if a < b then b else a }

  function CeilDiv(a: int, b: int): int
    requires b >= 1
  {
    (a + b - 1) / b
  }

  /** What one admission costs (emission), how many emissions of slack there are
      (burst), and the quota reported back to the client. */
  datatype Rate = Rate(emission: int, burst: int, limit: int) {
    predicate Valid() { emission >= 1 && burst >= 0 }
    function BurstOffset(): int { burst * emission }
  }

  datatype Params = Params(quota: int, period: int, burst: int) {
    predicate Valid() { quota >= 1 && period >= 1 && burst >= 0 }

    /** One quota-th of the period, rounded up: the shortest spacing at which a
        period has room for no more than quota emissions. */
    function EmissionInterval(): (e: int)
      requires Valid()
      ensures e >= 1
      ensures (e - 1) * quota < period <= e * quota
    {
      CeilDivLeast(period, quota);
      CeilDiv(period, quota)
    }

    function AsRate(): (r: Rate)
      requires Valid()
      ensures r.Valid()
    {
      Rate(EmissionInterval(), burst, quota)
    }
  }

  datatype Reason = Admitted | RateExceeded

  datatype Decision = Decision(allowed: bool, remaining: int, retryAfter: int, limit: int, reason: Reason)

  /** The body shared by ratelimit.decide and shareState.allow: the decision for a
      request at `now`, and the TAT to persist. */
  function Step(tat: Instant, now: Instant, rate: Rate): (Decision, Instant)
    requires rate.Valid()
  {
    var allowAt := tat - rate.BurstOffset();
    if now < allowAt then
      (Decision(false, 0, allowAt - now, rate.limit, RateExceeded), tat)
    else
      var newTat := (if now > tat then now else tat) + rate.emission;
      var margin := newTat - now;
      var remaining :=
        if margin <= rate.BurstOffset() then (rate.BurstOffset() - margin) / rate.emission + 1 else 0;
      (Decision(true, remaining, 0, rate.limit, Admitted), newTat)
  }

  function Decide(tat: Instant, now: Instant, p: Params): (Decision, Instant)
    requires p.Valid()
  {
    Step(tat, now, p.AsRate())
  }

  /** Everything a run leaves behind: the stored TAT, the full log of admitted
      arrivals in decision order (which the program does not keep), the decisions. */
  datatype History = History(tat: Instant, log: seq<Instant>, decisions: seq<Decision>)

  /** A fresh customer's run over `arrivals`, in decision order; timestamps need not be ordered. */
  function Serve(arrivals: seq<Instant>, rate: Rate): (h: History)
    requires rate.Valid()
    ensures |h.decisions| == |arrivals|
  {
    if arrivals == [] then History(ZERO_TIME, [], [])
    else
      var h := Serve(Init(arrivals), rate);
      var (d, tat) := Step(h.tat, Last(arrivals), rate);
      History(tat, if d.allowed then h.log + [Last(arrivals)] else h.log, h.decisions + [d])
  }

  lemma CeilDivLeast(a: int, b: int)
    requires b >= 1
    ensures (CeilDiv(a, b) - 1) * b < a <= CeilDiv(a, b) * b
    ensures a >= 1 ==> CeilDiv(a, b) >= 1
  {
    var c := CeilDiv(a, b);
    assert a + b - 1 == c * b + (a + b - 1) % b;
    if a >= 1 && c < 1 { MulMono(c, 0, b); }
  }

  lemma CeilDivAtMost(a: int, b: int, x: int)
    requires b >= 1
    ensures CeilDiv(a, b) <= x <==> a <= x * b
  {
    hide CeilDiv;
    CeilDivLeast(a, b);
    var c := CeilDiv(a, b);
    if c <= x { MulMono(c, x, b); } else { MulMono(x, c - 1, b); }
  }

  lemma MulMono(x: int, y: int, e: int)
    requires x <= y && e >= 0
    ensures x * e <= y * e
  {
  }

  lemma MulCancel(x: int, y: int, e: int)
    requires x * e < y * e && e >= 0
    ensures x < y
  {
    if x >= y { MulMono(y, x, e); }
  }
}
