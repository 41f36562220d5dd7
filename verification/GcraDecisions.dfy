/** What the fields of a Decision promise about the requests that follow it. */
module GcraDecisions {
  import opened Seqs
  import opened Gcra

  /** The decisions on `k` requests at one instant, starting from a stored TAT. */
  function SameInstant(tat: Instant, now: Instant, k: nat, rate: Rate): (ds: seq<Decision>)
    requires rate.Valid()
    ensures |ds| == k
    decreases k
  {
    if k == 0 then []
    else var (d, tat') := Step(tat, now, rate); [d] + SameInstant(tat', now, k - 1, rate)
  }

  lemma OneFewerRemains(tat: Instant, now: Instant, rate: Rate)
    requires rate.Valid() && Step(tat, now, rate).0.allowed
    ensures
      var (d, tat') := Step(tat, now, rate);
      var d' := Step(tat', now, rate).0;
      && d.remaining >= 0
      && (d'.allowed <==> d.remaining > 0)
      && (d'.allowed ==> d'.remaining == d.remaining - 1)
  {
    var e, tat' := rate.emission, Step(tat, now, rate).1;
    var slack := rate.BurstOffset() - (tat' - now);
    if slack >= 0 {
      FloorDivNext(slack, e);
    }
  }

  lemma FloorDivNext(slack: int, e: int)
    requires e >= 1 && slack >= 0
    ensures slack / e >= 0
    ensures if slack < e then slack / e == 0 else (slack - e) / e == slack / e - 1
  {
    var q := slack / e;
    assert slack == q * e + slack % e;
    if q >= 1 { MulMono(1, q, e); } else if q < 0 { MulMono(q, -1, e); }
    if slack >= e {
      var q' := (slack - e) / e;
      assert slack - e == q' * e + (slack - e) % e;
      assert (q - 1) * e == q * e - e;
      if q' < q - 1 { MulMono(q' + 1, q - 1, e); }
      if q' > q - 1 { MulMono(q, q', e); }
    }
  }

  /** Remaining counts the further same-instant requests exactly, on a rejection too: that
      many are admitted, and the next one is rejected. */
  lemma {:induction false} RemainingIsExact(tat: Instant, now: Instant, rate: Rate)
    requires rate.Valid()
    ensures
      var (d, tat') := Step(tat, now, rate);
      && d.remaining >= 0
      && var next := SameInstant(tat', now, d.remaining + 1, rate);
      && (forall i :: 0 <= i < d.remaining ==> next[i].allowed)
      && !next[d.remaining].allowed
    decreases if Step(tat, now, rate).0.remaining < 0 then 0 else Step(tat, now, rate).0.remaining
  {
    var (d, tat') := Step(tat, now, rate);
    if d.allowed {
      OneFewerRemains(tat, now, rate);
      if d.remaining > 0 { RemainingIsExact(tat', now, rate); }
    }
  }

  /** From any stored TAT, and for admissions and rejections alike: a request that comes
      `wait` later in its place is admitted exactly when wait >= RetryAfter, so RetryAfter
      is zero on an admission and positive on a rejection. */
  lemma RetryAfterIsExact(tat: Instant, now: Instant, wait: nat, rate: Rate)
    requires rate.Valid()
    ensures Step(tat, now + wait, rate).0.allowed <==> wait >= Step(tat, now, rate).0.retryAfter
    ensures Step(tat, now, rate).0.retryAfter >= 0
  {
  }

  /** Sixty requests a minute are spaced by one second of a thousand million nanoseconds. */
  lemma OnePerSecond()
    ensures Params(60, MINUTE, 0).EmissionInterval() == 1_000_000_000
  {
  }

  /** Every decision reports the quota it was made under, and says why. */
  lemma DecisionReports(tat: Instant, now: Instant, rate: Rate)
    requires rate.Valid()
    ensures
      var d := Step(tat, now, rate).0;
      && d.limit == rate.limit
      && (d.reason == Admitted <==> d.allowed) && (d.reason == RateExceeded <==> !d.allowed)
      && (d.allowed ==> d.retryAfter == 0) && (!d.allowed ==> d.retryAfter > 0 && d.remaining == 0)
  {
  }

  /** RetryAfter is the least wait: with no admission in between, a retry succeeds
      after `wait` exactly when wait >= RetryAfter, which is positive on a rejection. */
  lemma RetryAfterIsLeastWait(arrivals: seq<Instant>, now: Instant, wait: nat, rate: Rate)
    requires rate.Valid()
    requires !Last(Serve(arrivals + [now], rate).decisions).allowed
    ensures Last(Serve(arrivals + [now], rate).decisions).retryAfter > 0
    ensures Last(Serve(arrivals + [now, now + wait], rate).decisions).allowed
       <==> wait >= Last(Serve(arrivals + [now], rate).decisions).retryAfter
  {
    assert Init(arrivals + [now]) == arrivals;
    assert Init(arrivals + [now, now + wait]) == arrivals + [now];
  }

  /** Deleting any rejected requests from a trace changes no other decision. */
  lemma {:induction false} RejectionsLeaveNoTrace(arrivals: seq<Instant>, keep: seq<bool>, rate: Rate)
    requires rate.Valid() && |keep| == |arrivals|
    requires forall i :: 0 <= i < |keep| && !keep[i] ==> !Serve(arrivals, rate).decisions[i].allowed
    ensures Serve(Kept(arrivals, keep), rate).decisions == Kept(Serve(arrivals, rate).decisions, keep)
    ensures Serve(Kept(arrivals, keep), rate).tat == Serve(arrivals, rate).tat
    ensures Serve(Kept(arrivals, keep), rate).log == Serve(arrivals, rate).log
  {
    if arrivals != [] {
      var h, last := Serve(arrivals, rate), |arrivals| - 1;
      assert Init(h.decisions) == Serve(Init(arrivals), rate).decisions;
      forall i | 0 <= i < last && !Init(keep)[i] ensures !Serve(Init(arrivals), rate).decisions[i].allowed {
        assert !keep[i] && h.decisions[i] == Init(h.decisions)[i];
      }
      RejectionsLeaveNoTrace(Init(arrivals), Init(keep), rate);
      if Last(keep) {
        assert Init(Kept(arrivals, keep)) == Kept(Init(arrivals), Init(keep));
      } else {
        assert !keep[last] && !h.decisions[last].allowed;
        assert Kept(arrivals, keep) == Kept(Init(arrivals), Init(keep));
      }
    }
  }
}
