/** What the single stored timestamp knows about a whole history: it is equivalent
    to keeping the full log of admissions, and it bounds every window of the log. */
module GcraLog {
  import opened Seqs
  import opened Gcra

  // ----- the TAT as a function of the full log -----

  /** The earliest TAT compatible with a log in which the i-th of n admissions and
      every later one has charged its emission. */
  ghost predicate IsTatOf(tat: int, log: seq<Instant>, e: int) {
    && (log == [] ==> tat == ZERO_TIME)
    && (forall i :: 0 <= i < |log| ==> log[i] + (|log| - i) * e <= tat)
    && (log != [] ==> exists i :: 0 <= i < |log| && log[i] + (|log| - i) * e == tat)
  }

  /** A request at `t` is spaced from every admission in the log, with `b` emissions of slack. */
  ghost predicate SpacedAfter(log: seq<Instant>, t: int, e: int, b: int) {
    forall i :: 0 <= i < |log| ==> log[i] + (|log| - i - b) * e <= t
  }

  /** Every two admissions of the log, in decision order, keep their spacing. */
  ghost predicate Conforming(log: seq<Instant>, e: int, b: int) {
    forall i, j :: 0 <= i < j < |log| ==> log[i] + (j - i - b) * e <= log[j]
  }

  lemma TatOfExtended(tat: Instant, log: seq<Instant>, t: Instant, e: int)
    requires IsTatOf(tat, log, e) && e >= 1
    ensures IsTatOf(Max(tat, t) + e, log + [t], e)
  {
    var n, log' := |log|, log + [t];
    forall i | 0 <= i <= n ensures log'[i] + (n + 1 - i) * e <= Max(tat, t) + e {
      if i < n { assert log[i] + (n - i) * e <= tat; }
    }
    if tat <= t {
      assert log'[n] + (n + 1 - n) * e == Max(tat, t) + e;
    } else {
      var i :| 0 <= i < n && log[i] + (n - i) * e == tat;
      assert log'[i] + (n + 1 - i) * e == Max(tat, t) + e;
    }
  }

  lemma AdmittedIffSpaced(tat: Instant, log: seq<Instant>, t: Instant, rate: Rate)
    requires rate.Valid() && IsTatOf(tat, log, rate.emission)
    ensures Step(tat, t, rate).0.allowed <==> SpacedAfter(log, t, rate.emission, rate.burst)
  {
    var n, e, b := |log|, rate.emission, rate.burst;
    if tat - b * e <= t {
      forall i | 0 <= i < n ensures log[i] + (n - i - b) * e <= t {
        assert (n - i - b) * e == (n - i) * e - b * e;
      }
    } else {
      MulMono(0, b, e);
      var i :| 0 <= i < n && log[i] + (n - i) * e == tat;
      assert (n - i - b) * e == (n - i) * e - b * e;
    }
  }

  /** After any run, in any timestamp order, the TAT is the maximum over the log of
      a_i + (n - i) * emission. */
  lemma {:induction false} TatIsLog(arrivals: seq<Instant>, rate: Rate)
    requires rate.Valid()
    ensures IsTatOf(Serve(arrivals, rate).tat, Serve(arrivals, rate).log, rate.emission)
  {
    if arrivals != [] {
      TatIsLog(Init(arrivals), rate);
      var h := Serve(Init(arrivals), rate);
      TatOfExtended(h.tat, h.log, Last(arrivals), rate.emission);
    }
  }

  /** A request is admitted exactly when a limiter keeping the whole log would admit it. */
  lemma DecisionIsLogDecision(arrivals: seq<Instant>, t: Instant, rate: Rate)
    requires rate.Valid()
    ensures Last(Serve(arrivals + [t], rate).decisions).allowed
       <==> SpacedAfter(Serve(arrivals, rate).log, t, rate.emission, rate.burst)
  {
    assert Init(arrivals + [t]) == arrivals;
    TatIsLog(arrivals, rate);
    var h := Serve(arrivals, rate);
    AdmittedIffSpaced(h.tat, h.log, t, rate);
  }

  lemma {:induction false} LogConforms(arrivals: seq<Instant>, rate: Rate)
    requires rate.Valid()
    ensures Conforming(Serve(arrivals, rate).log, rate.emission, rate.burst)
  {
    if arrivals != [] {
      LogConforms(Init(arrivals), rate);
      TatIsLog(Init(arrivals), rate);
      var h := Serve(Init(arrivals), rate);
      AdmittedIffSpaced(h.tat, h.log, Last(arrivals), rate);
    }
  }

  // ----- every window of the log -----

  /** The most admissions a half-open window of `len` nanoseconds can hold. */
  function WindowMax(len: int, rate: Rate): int
    requires rate.Valid()
  {
    CeilDiv(len, rate.emission) + rate.burst
  }

  lemma WindowBounded(arrivals: seq<Instant>, rate: Rate, s: int, len: int)
    requires rate.Valid() && len >= 1
    ensures CountIn(Serve(arrivals, rate).log, s, s + len) <= WindowMax(len, rate)
  {
    var log, e, b := Serve(arrivals, rate).log, rate.emission, rate.burst;
    CeilDivLeast(len, e);
    if CountIn(log, s, s + len) >= 1 {
      var i, j := WindowEnds(log, s, s + len);
      LogConforms(arrivals, rate);
      if i < j {
        assert log[i] + (j - i - b) * e <= log[j];
        MulCancel(j - i - b, CeilDiv(len, e), e);
      }
    }
  }

  // ----- jitter tolerance and tightness -----

  /** The i-th request arrives no earlier than base + i * emission and no later than
      the burst tolerance after that. */
  ghost predicate WithinJitter(arrivals: seq<Instant>, base: int, rate: Rate) {
    forall i :: 0 <= i < |arrivals| ==>
      base + i * rate.emission <= arrivals[i] <= base + i * rate.emission + rate.BurstOffset()
  }

  lemma {:induction false} JitterTolerated(arrivals: seq<Instant>, base: int, rate: Rate)
    requires rate.Valid() && WithinJitter(arrivals, base, rate)
    ensures Serve(arrivals, rate).log == arrivals
    ensures forall i :: 0 <= i < |arrivals| ==> Serve(arrivals, rate).decisions[i].allowed
    ensures arrivals != [] ==>
      Serve(arrivals, rate).tat <= base + |arrivals| * rate.emission + rate.BurstOffset()
  {
    if arrivals != [] {
      var n, e := |arrivals| - 1, rate.emission;
      JitterTolerated(Init(arrivals), base, rate);
      assert (n + 1) * e == n * e + e;
      assert base + n * e <= arrivals[n] <= base + n * e + rate.BurstOffset();
      MulMono(0, rate.burst, e);
      assert Init(arrivals) + [Last(arrivals)] == arrivals;
    }
  }

  /** One nanosecond more of jitter and a request can be lost. */
  lemma JitterToleranceTight(base: Instant, rate: Rate)
    requires rate.Valid()
    ensures
      var late := base + rate.BurstOffset() + 1;
      late >= 0 && !Serve([late, base + rate.emission], rate).decisions[1].allowed
  {
    MulMono(0, rate.burst, rate.emission);
    var late: Instant := base + rate.BurstOffset() + 1;
    var arrivals: seq<Instant> := [late, base + rate.emission];
    assert Init(arrivals) == [late] && Last(arrivals) == base + rate.emission;
    assert Init([late]) == [];
    assert Serve([late], rate).tat == late + rate.emission;
  }

  /** burst + 1 requests at `s`, then one per emission. */
  function PacedAt(s: Instant, i: nat, rate: Rate): Instant
    requires rate.Valid()
  {
    if i <= rate.burst then s
    else MulMono(0, i - rate.burst, rate.emission); s + (i - rate.burst) * rate.emission
  }

  function Paced(s: Instant, n: nat, rate: Rate): (arrivals: seq<Instant>)
    requires rate.Valid()
    ensures |arrivals| == n
    ensures forall i :: 0 <= i < n ==> arrivals[i] == PacedAt(s, i, rate)
  {
    seq(n, i requires 0 <= i < n => PacedAt(s, i, rate))
  }

  lemma PacedAdmitted(s: Instant, n: nat, rate: Rate)
    requires rate.Valid()
    ensures Nondecreasing(Paced(s, n, rate))
    ensures Serve(Paced(s, n, rate), rate).log == Paced(s, n, rate)
    ensures forall i :: 0 <= i < n ==> Serve(Paced(s, n, rate), rate).decisions[i].allowed
    ensures n > 0 ==> Serve(Paced(s, n, rate), rate).tat <= s + n * rate.emission
  {
    var a, e, b := Paced(s, n, rate), rate.emission, rate.burst;
    forall i, j | 0 <= i < j < n ensures a[i] <= a[j] {
      if b < i { MulMono(i - b, j - b, e); } else if b < j { MulMono(0, j - b, e); }
    }
    forall i | 0 <= i < n
      ensures s - b * e + i * e <= a[i] <= s - b * e + i * e + b * e
    {
      MulMono(0, i, e);
      if i <= b { MulMono(i, b, e); } else { assert (i - b) * e == i * e - b * e; MulMono(0, b, e); }
    }
    JitterTolerated(a, s - b * e, rate);
  }

  lemma PacedSpan(s: Instant, n: nat, rate: Rate)
    requires rate.Valid()
    ensures forall i :: 0 <= i < n ==>
      s <= Paced(s, n, rate)[i] <= s + Max(0, n - 1 - rate.burst) * rate.emission
  {
    var b, e := rate.burst, rate.emission;
    forall i | 0 <= i < n ensures s <= Paced(s, n, rate)[i] <= s + Max(0, n - 1 - b) * e {
      MulMono(0, Max(0, n - 1 - b), e);
      if i > b { MulMono(i - b, n - 1 - b, e); MulMono(0, i - b, e); }
    }
  }

  /** WindowMax is reached: the paced run fills the window that starts with it. */
  lemma WindowMaxReached(s: Instant, len: int, rate: Rate) returns (arrivals: seq<Instant>)
    requires rate.Valid() && len >= 1
    ensures Nondecreasing(arrivals)
    ensures Serve(arrivals, rate).log == arrivals && |arrivals| == WindowMax(len, rate)
    ensures forall i :: 0 <= i < |arrivals| ==> s <= arrivals[i] < s + len
    ensures CountIn(arrivals, s, s + len) == WindowMax(len, rate)
  {
    hide CeilDiv, Paced, Serve, CountIn;
    var n := WindowMax(len, rate);
    CeilDivLeast(len, rate.emission);
    arrivals := Paced(s, n, rate);
    PacedAdmitted(s, n, rate);
    PacedSpan(s, n, rate);
    CountAll(arrivals, s, s + len);
  }

  // ----- the documented bound, in terms of the quota -----

  lemma EmissionDivides(p: Params)
    requires p.Valid()
    ensures p.period % p.quota == 0 <==> p.period == p.quota * p.EmissionInterval()
  {
    var e, q, k := p.EmissionInterval(), p.quota, p.period / p.quota;
    if p.period % q == 0 {
      assert p.period == k * q;
      MulCancel(e - 1, k, q);
      if e < k { MulMono(e, k - 1, q); }
    } else if p.period == q * e {
      MulMod(e, q);
    }
  }

  lemma MulMod(x: int, m: int)
    requires m >= 1
    ensures (x * m) % m == 0
  {
    var r := (x * m) % m;
    assert x * m == ((x * m) / m) * m + r;
    var d := x - (x * m) / m;
    assert d * m == r;
    if d >= 1 { MulMono(1, d, m); } else if d <= -1 { MulMono(d, -1, m); }
  }

  /** How many emissions start inside one period, half-open and closed. */
  lemma EmissionsPerPeriod(p: Params)
    requires p.Valid()
    ensures CeilDiv(p.period, p.EmissionInterval()) <= p.quota
    ensures CeilDiv(p.period, p.EmissionInterval()) == p.quota <==> (p.quota - 1) * p.EmissionInterval() < p.period
    ensures CeilDiv(p.period + 1, p.EmissionInterval()) <= p.quota + 1
    ensures CeilDiv(p.period + 1, p.EmissionInterval()) == p.quota + 1 <==> p.period % p.quota == 0
  {
    hide *;
    var e, q := p.EmissionInterval(), p.quota;
    EmissionDivides(p);
    CeilDivAtMost(p.period, e, q);
    CeilDivAtMost(p.period, e, q - 1);
    CeilDivAtMost(p.period + 1, e, q);
    CeilDivAtMost(p.period + 1, e, q + 1);
    assert (q + 1) * e == q * e + e;
  }

  /** Any window of one period, wherever it starts and in whatever order the
      timestamps came: half-open at most quota + burst, closed at most one more, and
      that one only when the quota divides the period. */
  lemma RollingWindow(arrivals: seq<Instant>, p: Params, s: int)
    requires p.Valid()
    ensures CountIn(Serve(arrivals, p.AsRate()).log, s, s + p.period) <= p.quota + p.burst
    ensures CountIn(Serve(arrivals, p.AsRate()).log, s, s + p.period + 1)
         <= p.quota + p.burst + if p.period % p.quota == 0 then 1 else 0
  {
    EmissionsPerPeriod(p);
    WindowBounded(arrivals, p.AsRate(), s, p.period);
    WindowBounded(arrivals, p.AsRate(), s, p.period + 1);
  }

  /** How many requests of a run are admitted in [s, s + len). */
  function Admissions(arrivals: seq<Instant>, rate: Rate, s: int, len: int): nat
    requires rate.Valid()
  {
    CountIn(Serve(arrivals, rate).log, s, s + len)
  }

  ghost predicate ReachesInWindow(rate: Rate, len: int, count: int)
    requires rate.Valid()
  {
    exists arrivals, s :: Admissions(arrivals, rate, s, len) >= count
  }

  /** The half-open bound quota + burst is met by some run exactly when the last of
      quota emissions still starts inside the period; the closed extra exactly when
      the quota divides the period. */
  lemma RollingWindowReached(p: Params)
    requires p.Valid()
    ensures ReachesInWindow(p.AsRate(), p.period, p.quota + p.burst)
       <==> (p.quota - 1) * p.EmissionInterval() < p.period
    ensures ReachesInWindow(p.AsRate(), p.period + 1, p.quota + p.burst + 1)
       <==> p.period % p.quota == 0
  {
    var rate := p.AsRate();
    EmissionsPerPeriod(p);
    WindowMaxIsExact(rate, p.period, p.quota + p.burst);
    WindowMaxIsExact(rate, p.period + 1, p.quota + p.burst + 1);
  }

  lemma WindowMaxIsExact(rate: Rate, len: int, count: int)
    requires rate.Valid() && len >= 1
    ensures ReachesInWindow(rate, len, count) <==> count <= WindowMax(len, rate)
  {
    if ReachesInWindow(rate, len, count) {
      var arrivals, s :| Admissions(arrivals, rate, s, len) >= count;
      WindowBounded(arrivals, rate, s, len);
    }
    if count <= WindowMax(len, rate) {
      var arrivals := WindowMaxReached(0, len, rate);
      assert Admissions(arrivals, rate, 0, len) >= count;
    }
  }
}
