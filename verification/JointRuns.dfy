/** Joint runs made of waves of requests: what each node's limiter does, and how much of
    it falls in one period. */
module JointRuns {
  import opened Seqs
  import opened Gcra
  import opened StaticShares
  import opened ShareGcra
  import opened Rounds
  import opened RoundSafety
  import opened Handover
  import opened Joint

  /** What the system admits in the period from `lo` on, after these events. */
  ghost function AdmittedFrom(cfg: Config, period: int, events: seq<Event>, lo: int): int
    requires cfg.Valid() && cfg.limit <= period && AllFit(cfg, events)
  {
    SystemAdmissions(JointExec(cfg, period, JointFresh(cfg, period), events), lo, lo + period)
  }

  /** Nothing goes wrong: every poll is answered, every call acknowledged, and requests
      come in time order, from `lo` to `hi`. */
  ghost predicate Calm(events: seq<Event>, lo: int, hi: int) {
    && AllAnswered(events)
    && (forall i :: 0 <= i < |events| && events[i].Advance? ==> events[i].delivery == Acked)
    && (forall i :: 0 <= i < |events| && events[i].Request? ==> lo <= events[i].now <= hi)
    && (forall i, j :: 0 <= i < j < |events| && events[i].Request? && events[j].Request? ==>
          events[i].now <= events[j].now)
  }

  // ----- requests that reach every node at once -----

  function Wave(n: nat, t: Instant): (events: seq<Event>)
    ensures |events| == n
  {
    seq(n, i requires 0 <= i < n => Request(i, t))
  }

  function Waves(n: nat, times: seq<Instant>): seq<Event> {
    if times == [] then [] else Waves(n, Init(times)) + Wave(n, Last(times))
  }

  /** A limiter after further requests at an unchanged share. */
  ghost function Continue(h: ShareHistory, times: seq<Instant>, period: int): (h': ShareHistory)
    requires EnforcedQuota(h.quota) <= period
    ensures h'.quota == h.quota && |h'.log| >= |h.log|
  {
    if times == [] then h else ServeOp(Continue(h, Init(times), period), Arrive(Last(times)), period, NODE_BURST)
  }

  lemma {:induction false} WavesFit(cfg: Config, n: nat, times: seq<Instant>)
    ensures AllFit(cfg, Wave(n, 0)) && AllFit(cfg, Waves(n, times))
  {
    if times != [] { WavesFit(cfg, n, Init(times)); }
  }

  lemma {:induction false} JointConcat(cfg: Config, period: int, j: Joint, a: seq<Event>, b: seq<Event>)
    requires Sound(cfg, period, j) && AllFit(cfg, a) && AllFit(cfg, b)
    ensures JointExec(cfg, period, j, a + b) == JointExec(cfg, period, JointExec(cfg, period, j, a), b)
  {
    hide JointNext, Fits;
    if b == [] {
      assert a + b == a;
    } else {
      assert Init(a + b) == a + Init(b);
      JointConcat(cfg, period, j, a, Init(b));
    }
  }

  lemma {:induction false} WaveActs(cfg: Config, period: int, j: Joint, t: Instant, k: nat, i: nat)
    requires Sound(cfg, period, j) && k <= cfg.nodes && i < cfg.nodes
    ensures AllFit(cfg, Wave(k, t))
    ensures
      var (h, h') := (LimiterOf(cfg, period, j, i), LimiterOf(cfg, period, JointExec(cfg, period, j, Wave(k, t)), i));
      h' == if i < k then ServeOp(h, Arrive(t), period, NODE_BURST) else h
  {
    hide NodeShare, Step, ShareRate, JointNext;
    if k > 0 {
      WaveActs(cfg, period, j, t, k - 1, i);
      assert Init(Wave(k, t)) == Wave(k - 1, t);
      var j' := JointExec(cfg, period, j, Wave(k - 1, t));
      NextAt(cfg, period, j', Request(k - 1, t), i);
      RequestKeepsShare(cfg, j'.sys, Request(k - 1, t), i);
    }
  }

  lemma {:induction false} WavesAct(cfg: Config, period: int, j: Joint, times: seq<Instant>, i: nat)
    requires Sound(cfg, period, j) && i < cfg.nodes
    ensures AllFit(cfg, Waves(cfg.nodes, times))
    ensures LimiterOf(cfg, period, JointExec(cfg, period, j, Waves(cfg.nodes, times)), i)
         == Continue(LimiterOf(cfg, period, j, i), times, period)
  {
    hide NodeShare, ServeOp, JointExec, LimiterOf, Fits;
    WavesFit(cfg, cfg.nodes, times);
    if times == [] {
      NoEvents(cfg, period, j);
    } else {
      WavesAct(cfg, period, j, Init(times), i);
      var before := Waves(cfg.nodes, Init(times));
      var t := Last(times);
      WaveActs(cfg, period, JointExec(cfg, period, j, before), t, cfg.nodes, i);
      JointConcat(cfg, period, j, before, Wave(cfg.nodes, t));
    }
  }

  lemma NoEvents(cfg: Config, period: int, j: Joint)
    requires Sound(cfg, period, j)
    ensures JointExec(cfg, period, j, []) == j
  {
  }

  /** A fresh limiter that continues is a plain run at the share's rate. */
  lemma {:induction false} ContinueFresh(quota: int, times: seq<Instant>, period: int)
    requires EnforcedQuota(quota) <= period
    ensures Times(Continue(ShareHistory(ZERO_TIME, quota, []), times, period).log)
         == Serve(times, ShareRate(quota, period, NODE_BURST)).log
    ensures Continue(ShareHistory(ZERO_TIME, quota, []), times, period).tat
         == Serve(times, ShareRate(quota, period, NODE_BURST)).tat
  {
    hide Step, ShareRate;
    if times != [] {
      ContinueFresh(quota, Init(times), period);
      var rate := ShareRate(quota, period, NODE_BURST);
      RejectionKeepsTat(Serve(Init(times), rate).tat, Last(times), rate);
    }
  }

  /** A limiter whose TAT has drained admits further requests as a fresh one would. */
  lemma {:induction false} ContinueDrained(h: ShareHistory, times: seq<Instant>, period: int)
    requires EnforcedQuota(h.quota) <= period && times != [] && h.tat <= times[0]
    ensures
      var (g, f) := (Continue(h, times, period), Continue(ShareHistory(ZERO_TIME, h.quota, []), times, period));
      g.log == h.log + f.log && g.tat == f.tat
  {
    hide ShareRate;
    var rate := ShareRate(h.quota, period, NODE_BURST);
    if |times| == 1 {
      assert Init(times) == [];
      DrainedStep(h.tat, times[0], rate);
      DrainedStep(ZERO_TIME, times[0], rate);
    } else {
      hide Step;
      ContinueDrained(h, Init(times), period);
    }
  }

  lemma DrainedStep(tat: Instant, now: Instant, rate: Rate)
    requires rate.Valid() && tat <= now
    ensures Step(tat, now, rate).0.allowed && Step(tat, now, rate).1 == now + rate.emission
  {
    MulMono(0, rate.burst, rate.emission);
  }

  /** All that is added to a log lies in the window its requests came in. */
  lemma {:induction false} ContinueCount(h: ShareHistory, times: seq<Instant>, period: int, lo: int, hi: int)
    requires EnforcedQuota(h.quota) <= period
    requires forall i :: 0 <= i < |times| ==> lo <= times[i] < hi
    ensures
      var h' := Continue(h, times, period);
      CountIn(Times(h'.log), lo, hi) == CountIn(Times(h.log), lo, hi) + |h'.log| - |h.log|
  {
    hide Step, ShareRate;
    if times != [] {
      var before, after := Continue(h, Init(times), period), Continue(h, times, period);
      ContinueCount(h, Init(times), period, lo, hi);
      if after.log != before.log {
        assert Init(Times(after.log)) == Times(before.log);
      }
    }
  }

  lemma ContinueFurther(h: ShareHistory, times: seq<Instant>, t: Instant, period: int)
    requires EnforcedQuota(h.quota) <= period
    ensures |Continue(h, times + [t], period).log| >= |Continue(h, times, period).log|
  {
    assert Init(times + [t]) == times;
  }

  /** Lowered to an enforced share of one, with its TAT at most a period beyond `from`, a
      limiter admits the next request, and one more by the end of the period that starts
      there if the TAT lay in it. */
  lemma {:induction false} Lingers(h: ShareHistory, times: seq<Instant>, period: int, from: int)
    requires EnforcedQuota(h.quota) == 1 <= period && h.tat <= from + period
    requires times != [] && forall i :: 0 <= i < |times| ==> from <= times[i] < from + period
    ensures
      var h' := Continue(h, times, period);
      && |h'.log| >= |h.log| + 1
      && (h.tat < from + period ==> h'.tat < from + 2 * period || |h'.log| >= |h.log| + 2)
  {
    hide Step;
    assert ShareRate(h.quota, period, NODE_BURST) == Rate(period, 1, 1);
    if |times| == 1 {
      assert Continue(h, Init(times), period) == h;
      StepAtOne(h.tat, Last(times), period);
    } else {
      Lingers(h, Init(times), period, from);
      StepAtOne(Continue(h, Init(times), period).tat, Last(times), period);
    }
  }

  lemma StepAtOne(tat: Instant, now: Instant, period: int)
    requires period >= 1
    ensures
      var (d, tat') := Step(tat, now, Rate(period, 1, 1));
      && (d.allowed <==> tat - period <= now)
      && (d.allowed ==> tat' == Max(tat, now) + period)
  {
  }

  /** One more request at the period's last instant. */
  lemma LingersTwice(h: ShareHistory, times: seq<Instant>, period: int, from: nat)
    requires EnforcedQuota(h.quota) == 1 <= period && h.tat <= from + period
    requires times != [] && forall i :: 0 <= i < |times| ==> from <= times[i] < from + period
    ensures |Continue(h, times + [from + period - 1], period).log|
         >= |h.log| + if h.tat < from + period then 2 else 1
  {
    hide Step;
    Lingers(h, times, period, from);
    assert Init(times + [from + period - 1]) == times;
    assert ShareRate(h.quota, period, NODE_BURST) == Rate(period, 1, 1);
    StepAtOne(Continue(h, times, period).tat, from + period - 1, period);
  }

  // ----- calm runs and their logs -----

  lemma CalmConcat(a: seq<Event>, b: seq<Event>, lo: int, mid: int, hi: int)
    requires Calm(a, lo, mid) && Calm(b, mid, hi) && lo <= mid <= hi
    ensures Calm(a + b, lo, hi)
  {
    hide FullyAnswered;
  }

  lemma {:induction false} CalmWaves(n: nat, times: seq<Instant>, lo: int, hi: int)
    requires Nondecreasing(times) && forall i :: 0 <= i < |times| ==> lo <= times[i] <= hi
    requires lo <= hi
    ensures Calm(Waves(n, times), lo, hi)
  {
    if times != [] {
      CalmWaves(n, Init(times), lo, Last(times));
      CalmConcat(Waves(n, Init(times)), Wave(n, Last(times)), lo, Last(times), hi);
    }
  }

  lemma CalmRound(cfg: Config, to: nat, now: int)
    ensures Calm(HandoverRound(cfg, Everyone(cfg.nodes), to), now, now)
  {
    HandoverAnswered(cfg, to);
  }

  /** The protocol's own steps touch no limiter. */
  lemma {:induction false} ProtocolOnly(cfg: Config, period: int, j: Joint, events: seq<Event>)
    requires Sound(cfg, period, j) && AllFit(cfg, events)
    requires forall i :: 0 <= i < |events| ==> !events[i].Request?
    ensures
      var j' := JointExec(cfg, period, j, events);
      j'.tats == j.tats && j'.logs == j.logs
  {
    hide NodeShare, Next, Fits;
    if events != [] { ProtocolOnly(cfg, period, j, Init(events)); }
  }

  lemma AllFitPrefix(cfg: Config, a: seq<Event>, b: seq<Event>)
    requires AllFit(cfg, a + b)
    ensures AllFit(cfg, a) && AllFit(cfg, b)
  {
    hide Fits;
    forall i | 0 <= i < |a| ensures Fits(cfg, a[i]) { assert (a + b)[i] == a[i]; }
    forall i | 0 <= i < |b| ensures Fits(cfg, b[i]) { assert (a + b)[|a| + i] == b[i]; }
  }

  // ----- counting a run that ends in waves -----

  /** The events `warmup`, then waves at `times` in the period from `lo` on, admit there at
      least what each node had admitted there before and what the waves add. */
  lemma WavesCount(cfg: Config, period: int, warmup: seq<Event>, times: seq<Instant>, lo: int, low: seq<int>)
    requires cfg.Valid() && cfg.limit <= period && AllFit(cfg, warmup) && |low| == cfg.nodes
    requires forall k :: 0 <= k < |times| ==> lo <= times[k] < lo + period
    requires forall i :: 0 <= i < cfg.nodes ==> AddsAtLeast(cfg, period, warmup, times, lo, i, low[i])
    ensures AllFit(cfg, warmup + Waves(cfg.nodes, times))
    ensures Sum(low) <= AdmittedFrom(cfg, period, warmup + Waves(cfg.nodes, times), lo)
  {
    hide NodeShare, JointExec, CountIn, Sum, Fits, Continue;
    var waves, start := Waves(cfg.nodes, times), JointFresh(cfg, period);
    WavesFit(cfg, cfg.nodes, times);
    BothFit(cfg, warmup, waves);
    JointConcat(cfg, period, start, warmup, waves);
    var j, j' := JointExec(cfg, period, start, warmup), JointExec(cfg, period, start, warmup + waves);
    forall i | 0 <= i < cfg.nodes ensures low[i] <= Counts(j', lo, lo + period)[i] {
      WavesAct(cfg, period, j, times, i);
      ContinueCount(LimiterOf(cfg, period, j, i), times, period, lo, lo + period);
      assert AddsAtLeast(cfg, period, warmup, times, lo, i, low[i]);
    }
    SumMono(low, Counts(j', lo, lo + period));
  }

  /** Node i's limiter after these events. */
  ghost function LimiterAfter(cfg: Config, period: int, events: seq<Event>, i: nat): (h: ShareHistory)
    requires cfg.Valid() && cfg.limit <= period && AllFit(cfg, events) && i < cfg.nodes
    ensures EnforcedQuota(h.quota) <= period
  {
    LimiterOf(cfg, period, JointExec(cfg, period, JointFresh(cfg, period), events), i)
  }

  ghost predicate AddsAtLeast(cfg: Config, period: int, warmup: seq<Event>, times: seq<Instant>, lo: int, i: nat,
                              count: int)
    requires cfg.Valid() && cfg.limit <= period && AllFit(cfg, warmup) && i < cfg.nodes
  {
    var h := LimiterAfter(cfg, period, warmup, i);
    count <= CountIn(Times(h.log), lo, lo + period) + |Continue(h, times, period).log| - |h.log|
  }
}
