/** No rejection is needless: for requests served in time order the limiter keeps at
    least as many as any selection that respects the spacing. */
module GcraOptimality {
  import opened Seqs
  import opened Gcra
  import opened GcraLog

  /** The TAT of a log served alone, whatever chose its members. */
  function TatOf(log: seq<Instant>, e: int): Instant
    requires e >= 1
  {
    if log == [] then ZERO_TIME else Max(TatOf(Init(log), e), Last(log)) + e
  }

  lemma {:induction false} TatOfIsTat(log: seq<Instant>, e: int)
    requires e >= 1
    ensures IsTatOf(TatOf(log, e), log, e)
  {
    if log != [] {
      TatOfIsTat(Init(log), e);
      TatOfExtended(TatOf(Init(log), e), Init(log), Last(log), e);
      assert Init(log) + [Last(log)] == log;
    }
  }

  /** In a conforming log every member is admissible after its predecessors. */
  lemma ConformingStep(log: seq<Instant>, rate: Rate)
    requires rate.Valid() && log != [] && Conforming(log, rate.emission, rate.burst)
    ensures Conforming(Init(log), rate.emission, rate.burst)
    ensures Last(log) >= TatOf(Init(log), rate.emission) - rate.BurstOffset()
  {
    var n, e, b := |log| - 1, rate.emission, rate.burst;
    TatOfIsTat(Init(log), e);
    forall i | 0 <= i < n ensures Init(log)[i] + (n - i - b) * e <= log[n] {
      assert log[i] + (n - i - b) * e <= log[n];
    }
    AdmittedIffSpaced(TatOf(Init(log), e), Init(log), log[n], rate);
  }

  /** The run with `tat` leads the other by `lead` admissions, and those account for
      whatever extra its TAT carries beyond `now`. */
  ghost predicate Ahead(tat: int, other: int, lead: int, e: int, now: int) {
    lead >= 0 && Max(tat, now) - lead * e <= Max(other, now)
  }

  lemma StillAhead(tat: Instant, other: Instant, lead: int, prev: Instant, t: Instant, kept: bool, rate: Rate)
    requires rate.Valid() && prev <= t && Ahead(tat, other, lead, rate.emission, prev)
    requires kept ==> t >= other - rate.BurstOffset()
    ensures
      var (d, tat') := Step(tat, t, rate);
      Ahead(tat', if kept then Max(other, t) + rate.emission else other,
            lead + (if d.allowed then 1 else 0) - (if kept then 1 else 0), rate.emission, t)
  {
    var e := rate.emission;
    MulMono(0, lead, e);
    MulMono(0, rate.burst, e);
    assert (lead + 1) * e == lead * e + e && (lead - 1) * e == lead * e - e;
    assert Ahead(tat, other, lead, e, t);
  }

  lemma {:induction false} StaysAhead(arrivals: seq<Instant>, keep: seq<bool>, rate: Rate)
    requires rate.Valid() && |keep| == |arrivals| && Nondecreasing(arrivals)
    requires Conforming(Kept(arrivals, keep), rate.emission, rate.burst)
    ensures Ahead(Serve(arrivals, rate).tat, TatOf(Kept(arrivals, keep), rate.emission),
                  |Serve(arrivals, rate).log| - |Kept(arrivals, keep)|, rate.emission,
                  if arrivals == [] then 0 else Last(arrivals))
  {
    if arrivals != [] {
      var e, t, kept := rate.emission, Last(arrivals), Kept(arrivals, keep);
      var kept' := Kept(Init(arrivals), Init(keep));
      if Last(keep) {
        assert Init(kept) == kept';
        ConformingStep(kept, rate);
      } else {
        assert kept == kept';
      }
      StaysAhead(Init(arrivals), Init(keep), rate);
      var h := Serve(Init(arrivals), rate);
      var prev := if Init(arrivals) == [] then 0 else Last(Init(arrivals));
      StillAhead(h.tat, TatOf(kept', e), |h.log| - |kept'|, prev, t, Last(keep), rate);
    }
  }

  /** Greedy optimality, at every prefix of the run. */
  lemma GreedyIsOptimal(arrivals: seq<Instant>, keep: seq<bool>, rate: Rate, k: nat)
    requires rate.Valid() && |keep| == |arrivals| && k <= |arrivals| && Nondecreasing(arrivals)
    requires Conforming(Kept(arrivals, keep), rate.emission, rate.burst)
    ensures |Kept(arrivals[..k], keep[..k])| <= |Serve(arrivals[..k], rate).log|
  {
    KeptPrefix(arrivals, keep, k);
    StaysAhead(arrivals[..k], keep[..k], rate);
  }

  lemma {:induction false} KeptPrefix<T>(s: seq<T>, keep: seq<bool>, k: nat)
    requires |s| == |keep| && k <= |s|
    ensures Kept(s[..k], keep[..k]) <= Kept(s, keep)
  {
    if k == |s| {
      assert s[..k] == s && keep[..k] == keep;
    } else {
      KeptPrefix(Init(s), Init(keep), k);
      assert Init(s)[..k] == s[..k] && Init(keep)[..k] == keep[..k];
    }
  }

  // ----- monotonicity -----

  function Verdicts(decisions: seq<Decision>): seq<bool> {
    seq(|decisions|, i requires 0 <= i < |decisions| => decisions[i].allowed)
  }

  lemma {:induction false} LogIsKept(arrivals: seq<Instant>, rate: Rate)
    requires rate.Valid()
    ensures Kept(arrivals, Verdicts(Serve(arrivals, rate).decisions)) == Serve(arrivals, rate).log
  {
    if arrivals != [] {
      LogIsKept(Init(arrivals), rate);
      assert Init(Verdicts(Serve(arrivals, rate).decisions)) == Verdicts(Serve(Init(arrivals), rate).decisions);
    }
  }

  lemma {:induction false} KeptOrdered(s: seq<Instant>, keep: seq<bool>)
    requires |s| == |keep| && Nondecreasing(s)
    ensures Nondecreasing(Kept(s, keep))
    ensures Kept(s, keep) != [] ==> Last(Kept(s, keep)) <= Last(s)
  {
    if s != [] {
      KeptOrdered(Init(s), Init(keep));
    }
  }

  lemma LooserConforms(log: seq<Instant>, loose: Rate, strict: Rate)
    requires loose.Valid() && strict.Valid()
    requires loose.emission <= strict.emission && strict.burst <= loose.burst
    requires Nondecreasing(log) && Conforming(log, strict.emission, strict.burst)
    ensures Conforming(log, loose.emission, loose.burst)
  {
    forall i, j | 0 <= i < j < |log|
      ensures log[i] + (j - i - loose.burst) * loose.emission <= log[j]
    {
      var x, y := j - i - loose.burst, j - i - strict.burst;
      if x <= 0 {
        MulMono(x, 0, loose.emission);
      } else {
        MulMono(x, y, loose.emission);
        MulMono(loose.emission, strict.emission, y);
        assert log[i] + y * strict.emission <= log[j];
      }
    }
  }

  lemma LooserAdmitsMore(arrivals: seq<Instant>, loose: Rate, strict: Rate, k: nat)
    requires loose.Valid() && strict.Valid()
    requires loose.emission <= strict.emission && strict.burst <= loose.burst
    requires Nondecreasing(arrivals) && k <= |arrivals|
    ensures |Serve(arrivals[..k], strict).log| <= |Serve(arrivals[..k], loose).log|
  {
    var a := arrivals[..k];
    var verdicts := Verdicts(Serve(a, strict).decisions);
    LogIsKept(a, strict);
    LogConforms(a, strict);
    KeptOrdered(a, verdicts);
    LooserConforms(Serve(a, strict).log, loose, strict);
    StaysAhead(a, verdicts, loose);
  }

  /** Raising the quota or the burst never lowers the number admitted, at any prefix. */
  lemma RaisingLimitsAdmitsMore(arrivals: seq<Instant>, p: Params, raised: Params, k: nat)
    requires p.Valid() && raised.Valid() && p.period == raised.period
    requires p.quota <= raised.quota && p.burst <= raised.burst
    requires Nondecreasing(arrivals) && k <= |arrivals|
    ensures |Serve(arrivals[..k], p.AsRate()).log| <= |Serve(arrivals[..k], raised.AsRate()).log|
  {
    var e, e' := p.EmissionInterval(), raised.EmissionInterval();
    MulMono(p.quota, raised.quota, e);
    MulCancel(e' - 1, e, raised.quota);
    LooserAdmitsMore(arrivals, raised.AsRate(), p.AsRate(), k);
  }
}
