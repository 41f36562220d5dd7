/** The peer coordinator's per-customer limiter: the same GCRA with a quota that the
    rebalancer changes while the TAT carries on. */
module ShareGcra {
  import opened Seqs
  import opened Gcra
  import opened GcraLog
  import opened GcraOptimality

  /** A stored share below one is enforced as one. */
  function EnforcedQuota(quota: int): (q: int)
    ensures q >= 1
  {
    if quota < 1 then 1 else quota
  }

  /** Unlike ratelimit's, this emission is rounded down. A quota above the period
      would make it zero, on which the program divides by zero. */
  function ShareRate(quota: int, period: int, burst: int): (r: Rate)
    requires EnforcedQuota(quota) <= period && burst >= 0
    ensures r.Valid()
  {
    var q := EnforcedQuota(quota);
    FloorAtLeastOne(period, q);
    Rate(period / q, burst, q)
  }

  lemma FloorAtLeastOne(period: int, q: int)
    requires 1 <= q <= period
    ensures period / q >= 1
    ensures period == q * (period / q) + period % q && 0 <= period % q < q
  {
    if period / q < 1 { MulMono(period / q, 0, q); }
  }

  class ShareState {
    var tat: Instant
    var quota: int
    const burst: int
    ghost const owner: string  // whose share this is; tells the shares of two customers apart

    constructor (initialQuota: int, burst: int, ghost owner: string)
      ensures tat == ZERO_TIME && quota == initialQuota && this.burst == burst && this.owner == owner
    {
      tat, quota, this.burst := ZERO_TIME, initialQuota, burst;
      this.owner := owner;
    }

    /** Changes what later decisions charge; the TAT is untouched. */
    method SetQuota(quota: int)
      modifies this`quota
      ensures this.quota == quota
    {
      this.quota := quota;
    }

    method Allow(now: Instant, period: int) returns (d: Decision)
      requires EnforcedQuota(quota) <= period && burst >= 0
      modifies this`tat
      ensures (d, tat) == Step(old(tat), now, ShareRate(quota, period, burst))
      ensures d.limit == if quota < 1 then 1 else quota
      ensures d.reason == if d.allowed then Admitted else RateExceeded
      ensures d.allowed ==> d.retryAfter == 0
      ensures !d.allowed ==> d.retryAfter > 0 && d.remaining == 0
    {
      var q := if quota < 1 then 1 else quota;
      FloorAtLeastOne(period, q);
      var emission := period / q;
      var burstOffset := burst * emission;
      var allowAt := tat - burstOffset;
      if now < allowAt {
        return Decision(false, 0, allowAt - now, q, RateExceeded);
      }
      var newTat := tat;
      if now > newTat { newTat := now; }
      newTat := newTat + emission;
      tat := newTat;
      var margin := newTat - now;
      var remaining := 0;
      if margin <= burstOffset { remaining := (burstOffset - margin) / emission + 1; }
      d := Decision(true, remaining, 0, q, Admitted);
    }
  }

  // ----- runs in which the quota moves -----

  datatype Op = Arrive(now: Instant) | SetQuota(quota: int)

  datatype Admission = Admission(at: Instant, emission: int)

  datatype ShareHistory = ShareHistory(tat: Instant, quota: int, log: seq<Admission>)

  ghost predicate QuotasFit(initial: int, ops: seq<Op>, period: int) {
    && EnforcedQuota(initial) <= period
    && forall i :: 0 <= i < |ops| && ops[i].SetQuota? ==> EnforcedQuota(ops[i].quota) <= period
  }

  /** Any interleaving of allow and setQuota on one shareState. */
  ghost function ServeOps(initial: int, ops: seq<Op>, period: int, burst: int): (h: ShareHistory)
    requires QuotasFit(initial, ops, period) && burst >= 0
    ensures EnforcedQuota(h.quota) <= period
  {
    if ops == [] then ShareHistory(ZERO_TIME, initial, [])
    else ServeOp(ServeOps(initial, Init(ops), period, burst), Last(ops), period, burst)
  }

  ghost function ServeOp(h: ShareHistory, op: Op, period: int, burst: int): ShareHistory
    requires EnforcedQuota(h.quota) <= period && burst >= 0
  {
    match op
    case SetQuota(q) => h.(quota := q)
    case Arrive(now) =>
      var rate := ShareRate(h.quota, period, burst);
      var (d, tat) := Step(h.tat, now, rate);
      if d.allowed then ShareHistory(tat, h.quota, h.log + [Admission(now, rate.emission)]) else h
  }

  ghost function TotalCharge(log: seq<Admission>): int {
    if log == [] then 0 else TotalCharge(Init(log)) + Last(log).emission
  }

  /** The emissions charged by the admissions of a log that fall in [lo, hi). */
  ghost function WindowCharge(log: seq<Admission>, lo: int, hi: int): int {
    if log == [] then 0
    else WindowCharge(Init(log), lo, hi) + if lo <= Last(log).at < hi then Last(log).emission else 0
  }

  /** Every admission waits for all that was charged since any earlier one, less its
      own burst tolerance; the TAT waits for all of it. */
  ghost predicate ChargesSpaced(log: seq<Admission>, tat: int, burst: int) {
    && (forall i :: 0 <= i < |log| ==> log[i].emission >= 1)
    && (forall i :: 0 <= i < |log| ==> log[i].at + TotalCharge(log[i..]) <= tat)
    && (forall i, j :: 0 <= i < j < |log| ==>
          log[i].at + TotalCharge(log[i..j]) - burst * log[j].emission <= log[j].at)
  }

  lemma ChargesExtended(log: seq<Admission>, tat: Instant, a: Admission, burst: int)
    requires ChargesSpaced(log, tat, burst) && a.emission >= 1
    requires tat - burst * a.emission <= a.at
    ensures ChargesSpaced(log + [a], Max(tat, a.at) + a.emission, burst)
  {
    var n, log' := |log|, log + [a];
    forall i | 0 <= i <= n ensures log'[i].at + TotalCharge(log'[i..]) <= Max(tat, a.at) + a.emission {
      assert Init(log'[i..]) == log[i..];
    }
    forall i, j | 0 <= i < j <= n
      ensures log'[i].at + TotalCharge(log'[i..j]) - burst * log'[j].emission <= log'[j].at
    {
      assert log'[i..j] == log[i..j];
      if j == n { assert log[i..n] == log[i..]; }
    }
  }

  lemma {:induction false} RunChargesSpaced(initial: int, ops: seq<Op>, period: int, burst: int)
    requires QuotasFit(initial, ops, period) && burst >= 0
    ensures var h := ServeOps(initial, ops, period, burst); ChargesSpaced(h.log, h.tat, burst)
  {
    hide ChargesSpaced;
    if ops != [] {
      RunChargesSpaced(initial, Init(ops), period, burst);
      var h := ServeOps(initial, Init(ops), period, burst);
      if Last(ops).Arrive? {
        var now, e := Last(ops).now, ShareRate(h.quota, period, burst).emission;
        if h.tat - burst * e <= now { ChargesExtended(h.log, h.tat, Admission(now, e), burst); }
      }
    } else {
      EmptyChargesSpaced(burst);
    }
  }

  lemma EmptyChargesSpaced(burst: int)
    ensures ChargesSpaced([], ZERO_TIME, burst)
  {
  }

  /** The first admission of the window starts a stretch that charges at least as much. */
  lemma {:induction false} WindowChargeSpan(log: seq<Admission>, lo: int, hi: int) returns (i: nat)
    requires forall k :: 0 <= k < |log| ==> log[k].emission >= 1
    requires WindowCharge(log, lo, hi) != 0
    ensures i < |log| && lo <= log[i].at < hi
    ensures WindowCharge(log, lo, hi) <= TotalCharge(log[i..])
  {
    if WindowCharge(Init(log), lo, hi) == 0 {
      i := |log| - 1;
      assert Init(log[i..]) == [];
    } else {
      i := WindowChargeSpan(Init(log), lo, hi);
      assert Init(log[i..]) == Init(log)[i..];
    }
  }

  /** For every interleaving of allow and setQuota, what a window charged before any
      of its admissions is less than the window plus that admission's burst. */
  lemma ChargeBound(initial: int, ops: seq<Op>, period: int, burst: int, j: nat, lo: int, len: int)
    requires QuotasFit(initial, ops, period) && burst >= 0
    requires var log := ServeOps(initial, ops, period, burst).log; j < |log| && lo <= log[j].at < lo + len
    ensures
      var log := ServeOps(initial, ops, period, burst).log;
      WindowCharge(log[..j], lo, lo + len) < len + burst * log[j].emission
  {
    hide ServeOps, ShareRate, TotalCharge, WindowCharge;
    var log := ServeOps(initial, ops, period, burst).log;
    RunChargesSpaced(initial, ops, period, burst);
    MulMono(0, burst, log[j].emission);
    if WindowCharge(log[..j], lo, lo + len) != 0 {
      var i := WindowChargeSpan(log[..j], lo, lo + len);
      assert log[..j][i..] == log[i..j];
      assert log[i].at + TotalCharge(log[i..j]) - burst * log[j].emission <= log[j].at;
    }
  }

  /** A count bound while shares move: if no admission of the window charged less than
      `cheapest`, those before the last one cost less than the window plus its burst. */
  lemma MovingQuotaCount(initial: int, ops: seq<Op>, period: int, burst: int, j: nat, lo: int, len: int, cheapest: int)
    requires QuotasFit(initial, ops, period) && burst >= 0
    requires var log := ServeOps(initial, ops, period, burst).log; j < |log| && lo <= log[j].at < lo + len
    requires forall k :: 0 <= k < j ==>
      var a := ServeOps(initial, ops, period, burst).log[k]; lo <= a.at < lo + len ==> cheapest <= a.emission
    ensures
      var log := ServeOps(initial, ops, period, burst).log;
      CountIn(Times(log[..j]), lo, lo + len) * cheapest < len + burst * log[j].emission
  {
    var log := ServeOps(initial, ops, period, burst).log;
    ChargeBound(initial, ops, period, burst, j, lo, len);
    CountTimesCheapest(log[..j], lo, lo + len, cheapest);
  }

  lemma {:induction false} CountTimesCheapest(log: seq<Admission>, lo: int, hi: int, cheapest: int)
    requires forall k :: 0 <= k < |log| && lo <= log[k].at < hi ==> cheapest <= log[k].emission
    ensures CountIn(Times(log), lo, hi) * cheapest <= WindowCharge(log, lo, hi)
  {
    if log != [] {
      CountTimesCheapest(Init(log), lo, hi, cheapest);
      assert Init(Times(log)) == Times(Init(log));
      var c := CountIn(Times(Init(log)), lo, hi);
      assert (c + 1) * cheapest == c * cheapest + cheapest;
    }
  }

  // ----- a constant quota -----

  /** Without setQuota the share's run is the plain run at its rounded-down rate. */
  lemma {:induction false} ConstantQuotaRun(quota: int, arrivals: seq<Instant>, period: int, burst: int)
    requires EnforcedQuota(quota) <= period && burst >= 0
    ensures QuotasFit(quota, Arrivals(arrivals), period)
    ensures
      var h := Serve(arrivals, ShareRate(quota, period, burst));
      var g := ServeOps(quota, Arrivals(arrivals), period, burst);
      g.tat == h.tat && g.quota == quota && Times(g.log) == h.log
  {
    hide Step, ShareRate;
    if arrivals != [] {
      ConstantQuotaRun(quota, Init(arrivals), period, burst);
      assert Init(Arrivals(arrivals)) == Arrivals(Init(arrivals));
      var rate := ShareRate(quota, period, burst);
      RejectionKeepsTat(Serve(Init(arrivals), rate).tat, Last(arrivals), rate);
    }
  }

  lemma RejectionKeepsTat(tat: Instant, now: Instant, rate: Rate)
    requires rate.Valid()
    ensures !Step(tat, now, rate).0.allowed ==> Step(tat, now, rate).1 == tat
  {
  }

  function Arrivals(arrivals: seq<Instant>): (ops: seq<Op>)
    ensures |ops| == |arrivals|
    ensures forall i :: 0 <= i < |ops| ==> ops[i] == Arrive(arrivals[i])
  {
    seq(|arrivals|, i requires 0 <= i < |arrivals| => Arrive(arrivals[i]))
  }

  ghost function Times(log: seq<Admission>): seq<Instant> {
    seq(|log|, i requires 0 <= i < |log| => log[i].at)
  }

  /** Emissions started inside one period, when the emission is rounded down. */
  lemma FlooredEmissionsPerPeriod(quota: int, period: int)
    requires 1 <= quota <= period
    ensures period / quota >= 1
    ensures CeilDiv(period, period / quota) >= quota
    ensures CeilDiv(period, period / quota) == quota <==> period % quota == 0
    ensures quota <= period / quota ==> CeilDiv(period, period / quota) <= quota + 1
  {
    hide CeilDiv;
    FloorAtLeastOne(period, quota);
    var e := period / quota;
    CeilDivAtMost(period, e, quota - 1);
    CeilDivAtMost(period, e, quota);
    CeilDivAtMost(period, e, quota + 1);
    assert (quota - 1) * e == quota * e - e && (quota + 1) * e == quota * e + e;
  }

  /** The most a share admits in one period at a constant quota: quota + burst exactly
      when the quota divides the period, and more otherwise, by one as long as the
      quota is no larger than its emission. */
  lemma ConstantShareWindow(quota: int, period: int, burst: int, count: int)
    requires 1 <= quota <= period && burst >= 0
    ensures ReachesInWindow(ShareRate(quota, period, burst), period, quota + burst)
    ensures ReachesInWindow(ShareRate(quota, period, burst), period, quota + burst + 1)
       <==> period % quota != 0
    ensures quota <= period / quota && count > quota + burst + 1
       ==> !ReachesInWindow(ShareRate(quota, period, burst), period, count)
  {
    hide CeilDiv, ReachesInWindow;
    var rate := ShareRate(quota, period, burst);
    FlooredEmissionsPerPeriod(quota, period);
    WindowMaxIsExact(rate, period, quota + burst);
    WindowMaxIsExact(rate, period, quota + burst + 1);
    WindowMaxIsExact(rate, period, count);
  }

  // ----- agreement with ratelimit -----

  lemma FloorAgainstCeiling(p: Params)
    requires p.Valid() && p.quota <= p.period
    ensures p.period / p.quota <= p.EmissionInterval()
    ensures p.period / p.quota == p.EmissionInterval() <==> p.period % p.quota == 0
  {
    hide CeilDiv;
    FloorAtLeastOne(p.period, p.quota);
    EmissionDivides(p);
    var e, f := p.EmissionInterval(), p.period / p.quota;
    assert f * p.quota == p.quota * f && e * p.quota == p.quota * e;
    assert (f - 1) * p.quota == f * p.quota - p.quota;
    if e < f { MulMono(e, f - 1, p.quota); }
  }

  /** At a constant quota the share admits at least as many as ratelimit at every prefix. */
  lemma ShareAdmitsAtLeast(arrivals: seq<Instant>, p: Params, k: nat)
    requires p.Valid() && p.quota <= p.period
    requires Nondecreasing(arrivals) && k <= |arrivals|
    ensures |Serve(arrivals[..k], p.AsRate()).log|
         <= |Serve(arrivals[..k], ShareRate(p.quota, p.period, p.burst)).log|
  {
    FloorAgainstCeiling(p);
    LooserAdmitsMore(arrivals, ShareRate(p.quota, p.period, p.burst), p.AsRate(), k);
  }

  ghost predicate SameRuns(a: Rate, b: Rate)
    requires a.Valid() && b.Valid()
  {
    forall arrivals :: Serve(arrivals, a) == Serve(arrivals, b)
  }

  /** The two implementations agree on every run, decisions and TATs alike, exactly
      when the quota divides the period. */
  lemma ShareAgreesIff(p: Params)
    requires p.Valid() && p.quota <= p.period
    ensures SameRuns(ShareRate(p.quota, p.period, p.burst), p.AsRate()) <==> p.period % p.quota == 0
  {
    hide Params.EmissionInterval;
    FloorAgainstCeiling(p);
    var a, b := ShareRate(p.quota, p.period, p.burst), p.AsRate();
    if a != b {
      OneArrival(a);
      OneArrival(b);
      assert Serve([0], a) != Serve([0], b);
    }
  }

  lemma OneArrival(rate: Rate)
    requires rate.Valid()
    ensures Serve([0], rate).tat == rate.emission
  {
    MulMono(0, rate.burst, rate.emission);
    assert Init([0]) == [];
  }
}
