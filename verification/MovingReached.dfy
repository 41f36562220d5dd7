/** The bound on a moving quota is met: a window is filled at the largest quota, and at its
    last instant every further cut of the quota lets one more request through. */
module MovingReached {
  import opened Seqs
  import opened Gcra
  import opened GcraLog
  import opened StaticShares
  import opened ShareGcra
  import opened MovingQuota

  function Pow2(j: nat): (p: nat)
    ensures p >= 1
  {
    if j == 0 then 1 else 2 * Pow2(j - 1)
  }

  /** The j-th cut: one below a power of two. */
  function Cut(j: nat): (q: int)
    requires j >= 1
    ensures q >= 1
  {
    Pow2(j) - 1
  }

  /** The first `m` cuts from 2^k on, and a request at `t` after each. */
  function Cuts(k: nat, m: nat, t: Instant): (ops: seq<Op>)
    requires m <= k
  {
    if m == 0 then [] else Cuts(k, m - 1, t) + [SetQuota(Cut(k - m + 1)), Arrive(t)]
  }

  lemma {:induction false} Pow2Mono(i: nat, j: nat)
    requires i <= j
    ensures Pow2(i) <= Pow2(j)
  {
    if i < j { Pow2Mono(i, j - 1); }
  }

  lemma {:induction false} CutsFit(initial: int, before: seq<Op>, k: nat, m: nat, t: Instant)
    requires QuotasFit(initial, before, Pow2(k)) && m <= k
    ensures QuotasFit(initial, before + Cuts(k, m, t), Pow2(k))
  {
    if m == 0 {
      assert before + Cuts(k, 0, t) == before;
    } else {
      CutsFit(initial, before, k, m - 1, t);
      Pow2Mono(k - m + 1, k);
      assert before + Cuts(k, m, t) == before + Cuts(k, m - 1, t) + [SetQuota(Cut(k - m + 1)), Arrive(t)];
    }
  }

  lemma QuotientAtLeast(period: int, q: int, e: int)
    requires q >= 1 && e * q <= period
    ensures e <= period / q
  {
    var d := period / q;
    assert period == d * q + period % q;
    if d < e {
      assert (d + 1) * q == d * q + q;
      MulMono(d + 1, e, q);
    }
  }

  /** Each cut at least doubles the emission. */
  lemma CutDoubles(j: nat, period: int)
    requires j >= 2 && Pow2(j) <= period
    ensures 2 * (period / Cut(j)) <= period / Cut(j - 1)
  {
    var q, q' := Cut(j), Cut(j - 1);
    assert q == 2 * q' + 1;
    FloorAtLeastOne(period, q);
    TwiceWithin(period / q, q, q', period);
    QuotientAtLeast(period, q', 2 * (period / q));
  }

  lemma TwiceWithin(e: int, q: int, q': int, period: int)
    requires e >= 0 && 2 * q' <= q && q * e <= period
    ensures (2 * e) * q' <= period
  {
    assert (2 * e) * q' == (2 * q') * e;
    MulMono(2 * q', q, e);
  }

  /** The first cut leaves room for what a filled window owes at its last instant. */
  lemma FirstCut(k: nat, period: int)
    requires k >= 1 && period % Pow2(k) == 0 && period / Pow2(k) >= Pow2(k) - 1
    ensures period / Pow2(k) + 1 <= period / Cut(k)
  {
    var f, q := period / Pow2(k), Cut(k);
    assert period == Pow2(k) * f;
    OneMore(f, q);
    QuotientAtLeast(period, q, f + 1);
  }

  lemma OneMore(f: int, q: int)
    requires f >= q
    ensures (f + 1) * q <= (q + 1) * f
  {
  }

  /** What a share owes at `t` is within its tolerance at this quota. */
  predicate OwesAtMost(h: ShareHistory, t: Instant, quota: int, period: int)
    requires 1 <= quota
  {
    h.tat <= t + period / quota
  }

  lemma CutAdmits(h: ShareHistory, j: nat, t: Instant, period: int)
    requires j >= 1 && Pow2(j) <= period && OwesAtMost(h, t, Cut(j), period)
    ensures EnforcedQuota(Cut(j)) <= period
    ensures
      var h' := ServeOp(h.(quota := Cut(j)), Arrive(t), period, NODE_BURST);
      && h'.log == h.log + [Admission(t, period / Cut(j))]
      && (j >= 2 ==> OwesAtMost(h', t, Cut(j - 1), period))
  {
    FloorAtLeastOne(period, Cut(j));
    assert ShareRate(Cut(j), period, NODE_BURST) == Rate(period / Cut(j), 1, Cut(j));
    if j >= 2 { CutDoubles(j, period); }
  }

  lemma {:induction false} CutsAdmit(initial: int, before: seq<Op>, period: int, k: nat, m: nat, t: Instant)
    requires k >= 1 && m <= k && Pow2(k) <= period
    requires QuotasFit(initial, before, Pow2(k)) && QuotasFit(initial, before, period)
    requires OwesAtMost(ServeOps(initial, before, period, NODE_BURST), t, Cut(k), period)
    ensures QuotasFit(initial, before + Cuts(k, m, t), period)
    ensures
      var h, h' := ServeOps(initial, before, period, NODE_BURST),
                   ServeOps(initial, before + Cuts(k, m, t), period, NODE_BURST);
      && |h'.log| == |h.log| + m && h.log <= h'.log
      && (forall i :: |h.log| <= i < |h'.log| ==> h'.log[i].at == t)
      && (m < k ==> OwesAtMost(h', t, Cut(k - m), period))
  {
    hide ServeOp, OwesAtMost, QuotasFit, Cut;
    CutsFit(initial, before, k, m, t);
    WiderFits(initial, before + Cuts(k, m, t), Pow2(k), period);
    if m == 0 {
      assert before + Cuts(k, 0, t) == before;
    } else {
      CutsAdmit(initial, before, period, k, m - 1, t);
      var ops, j := before + Cuts(k, m - 1, t), k - m + 1;
      var cut := ops + [SetQuota(Cut(j))];
      assert before + Cuts(k, m, t) == cut + [Arrive(t)];
      assert Init(cut + [Arrive(t)]) == cut && Init(cut) == ops;
      Pow2Mono(j, k);
      OneCut(initial, ops, j, t, period);
      CutAdmits(ServeOps(initial, ops, period, NODE_BURST), j, t, period);
    }
  }

  lemma WiderFits(initial: int, ops: seq<Op>, limit: int, period: int)
    requires QuotasFit(initial, ops, limit) && limit <= period
    ensures QuotasFit(initial, ops, period)
  {
  }

  lemma OneCut(initial: int, ops: seq<Op>, j: nat, t: Instant, period: int)
    requires j >= 1 && QuotasFit(initial, ops, period)
    requires QuotasFit(initial, ops + [SetQuota(Cut(j))] + [Arrive(t)], period)
    ensures EnforcedQuota(Cut(j)) <= period
    ensures ServeOps(initial, ops + [SetQuota(Cut(j))] + [Arrive(t)], period, NODE_BURST)
         == ServeOp(ServeOps(initial, ops, period, NODE_BURST).(quota := Cut(j)), Arrive(t), period, NODE_BURST)
  {
    var cut := ops + [SetQuota(Cut(j))];
    assert Init(cut + [Arrive(t)]) == cut && Init(cut) == ops;
    assert (cut + [Arrive(t)])[|ops|] == SetQuota(Cut(j));
  }

  lemma {:induction false} PowersDouble(k: nat, f: int)
    ensures Doubled(f, k) == f * Pow2(k)
  {
    if k > 0 { PowersDouble(k - 1, f); }
  }

  /** The bound at a limit of 2^k, when that divides the period. */
  lemma MovingMaxIs(k: nat, period: int, len: int)
    requires 1 <= Pow2(k) <= period && period % Pow2(k) == 0
    ensures MovingMax(Pow2(k), period, len) == CeilDiv(len, period / Pow2(k)) + NODE_BURST + k
  {
    hide CeilDiv, Doublings;
    var f := period / Pow2(k);
    FloorAtLeastOne(period, Pow2(k));
    PowersDouble(k, f);
    DoublingsLeast(f, period, k);
    if k > 0 {
      PowersDouble(k - 1, f);
      MulMono(1, Pow2(k - 1), f);
      DoublingsLeast(f, period, k - 1);
    }
  }

  /** At a limit of 2^k that divides the period, and a window of whole emissions, some run of
      allow and setQuota meets the bound: at the window's last instant the quota is cut to
      one below each lower power of two in turn. */
  lemma MovingMaxReached(k: nat, period: int, len: int, from: Instant) returns (ops: seq<Op>)
    requires 1 <= Pow2(k) <= period && period % Pow2(k) == 0 && period / Pow2(k) >= Pow2(k) - 1
    requires len >= 1 && len % (period / Pow2(k)) == 0
    ensures QuotasFit(Pow2(k), ops, Pow2(k)) && QuotasFit(Pow2(k), ops, period)
    ensures CountIn(Times(ServeOps(Pow2(k), ops, period, NODE_BURST).log), from, from + len)
         == MovingMax(Pow2(k), period, len)
  {
    hide CeilDiv, ServeOps, Serve, ShareRate, Paced, CountIn, MovingMax, Cuts, Cut;
    var limit, f := Pow2(k), period / Pow2(k);
    FloorAtLeastOne(period, limit);
    MovingMaxIs(k, period, len);
    var count := CeilDiv(len, f);
    var fill := FillWindow(limit, period, len, from);
    var before, last: Instant := Arrivals(fill), from + len - 1;
    ArrivalsFit(limit, fill);
    ConstantQuotaRun(limit, fill, period, NODE_BURST);
    var h := ServeOps(limit, before, period, NODE_BURST);
    if k == 0 {
      ops := before;
      CountAll(Times(h.log), from, from + len);
    } else {
      FirstCut(k, period);
      assert OwesAtMost(h, last, Cut(k), period);
      CutsFit(limit, before, k, k, last);
      CutsAdmit(limit, before, period, k, k, last);
      ops := before + Cuts(k, k, last);
      var h' := ServeOps(limit, ops, period, NODE_BURST);
      forall i | 0 <= i < |h'.log| ensures from <= Times(h'.log)[i] < from + len {
        if i < |h.log| { assert h'.log[i] == h.log[i] && Times(h.log)[i] == fill[i]; }
      }
      CountAll(Times(h'.log), from, from + len);
    }
  }

  lemma ArrivalsFit(quota: int, arrivals: seq<Instant>)
    requires quota >= 1
    ensures QuotasFit(quota, Arrivals(arrivals), quota)
  {
  }

  /** The window filled at a constant quota, and what is then owed. */
  lemma FillWindow(limit: int, period: int, len: int, from: Instant) returns (fill: seq<Instant>)
    requires 1 <= limit <= period && period / limit >= 1 && len >= 1 && len % (period / limit) == 0
    ensures |fill| == CeilDiv(len, period / limit) + NODE_BURST
    ensures forall i :: 0 <= i < |fill| ==> from <= fill[i] < from + len
    ensures Serve(fill, ShareRate(limit, period, NODE_BURST)).log == fill
    ensures Serve(fill, ShareRate(limit, period, NODE_BURST)).tat <= from + len + period / limit
  {
    hide Serve, Paced;
    var f := period / limit;
    var n := len / f;
    assert len == n * f;
    MulCancel(0, n, f);
    CeilDivLeast(len, f);
    var c := CeilDiv(len, f);
    MulCancel(c - 1, n, f);
    if c < n { MulMono(c, n - 1, f); }
    var rate := ShareRate(limit, period, NODE_BURST);
    fill := Paced(from, n + 1, rate);
    PacedAdmitted(from, n + 1, rate);
    PacedSpan(from, n + 1, rate);
    assert (n + 1) * f == n * f + f && (n - 1) * f == n * f - f;
  }
}
