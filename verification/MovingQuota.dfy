/** What a moving quota is worth: however often it is changed, and in whatever order
    timestamps come, it gains a window no more than the logarithm of the largest quota. */
module MovingQuota {
  import opened Seqs
  import opened Gcra
  import opened StaticShares
  import opened ShareGcra

  /** Every admission was charged between the emission of the largest quota and a period. */
  ghost predicate FairlyCharged(log: seq<Admission>, period: int, limit: int)
    requires limit >= 1
  {
    forall k :: 0 <= k < |log| ==> period / limit <= log[k].emission <= period
  }

  lemma EmissionRange(quota: int, period: int, limit: int)
    requires EnforcedQuota(quota) <= limit <= period
    ensures 1 <= period / limit <= ShareRate(quota, period, NODE_BURST).emission <= period
  {
    var q := EnforcedQuota(quota);
    FloorAtLeastOne(period, q);
    FloorAtLeastOne(period, limit);
    var e, f := period / q, period / limit;
    MulMono(1, q, e);
    if e < f {
      MulMono(e, f - 1, q);
      MulMono(q, limit, f);
    }
  }

  lemma {:induction false} QuotaStaysWithin(initial: int, ops: seq<Op>, period: int, limit: int)
    requires QuotasFit(initial, ops, limit) && limit <= period
    ensures QuotasFit(initial, ops, period)
    ensures EnforcedQuota(ServeOps(initial, ops, period, NODE_BURST).quota) <= limit
  {
    if ops != [] { QuotaStaysWithin(initial, Init(ops), period, limit); }
  }

  lemma {:induction false} RunFairlyCharged(initial: int, ops: seq<Op>, period: int, limit: int)
    requires QuotasFit(initial, ops, limit) && limit <= period
    ensures QuotasFit(initial, ops, period)
    ensures FairlyCharged(ServeOps(initial, ops, period, NODE_BURST).log, period, limit)
  {
    hide Step, ShareRate;
    if ops != [] {
      RunFairlyCharged(initial, Init(ops), period, limit);
      QuotaStaysWithin(initial, Init(ops), period, limit);
      EmissionRange(ServeOps(initial, Init(ops), period, NODE_BURST).quota, period, limit);
    }
  }

  // ----- doublings -----

  function Doubled(f: int, times: nat): int {
    if times == 0 then f else 2 * Doubled(f, times - 1)
  }

  /** How often `f` must double to reach `most`. */
  function Doublings(f: int, most: int): nat
    requires f >= 1
    decreases most - f
  {
    if f >= most then 0 else 1 + Doublings(2 * f, most)
  }

  lemma {:induction false} DoubledFirst(f: int, times: nat)
    requires f >= 1
    ensures Doubled(2 * f, times) == Doubled(f, times + 1) && Doubled(f, times) >= f
  {
    if times > 0 { DoubledFirst(f, times - 1); }
  }

  lemma {:induction false} DoublingsLeast(f: int, most: int, times: nat)
    requires f >= 1
    ensures Doubled(f, times) < most <==> times < Doublings(f, most)
    decreases times
  {
    DoubledFirst(f, times);
    if f < most && times > 0 {
      DoublingsLeast(2 * f, most, times - 1);
      DoubledFirst(f, times - 1);
    }
  }

  // ----- the count -----

  /** Once the charges of a window pass its length, each further admission at least
      doubles the excess: `t` of them have. */
  predicate DoubledBy(count: int, charge: int, f: int, len: int, t: nat)
    requires f >= 1
  {
    count * f <= charge && count <= CeilDiv(len, f) + t && (t >= 1 ==> charge - len >= Doubled(f, t - 1))
  }

  lemma DoublingStep(count: int, charge: int, f: int, len: int, t: nat, e: int) returns (t': nat)
    requires f >= 1 && DoubledBy(count, charge, f, len, t) && f <= e && charge < len + e
    ensures DoubledBy(count + 1, charge + e, f, len, t')
  {
    hide CeilDiv;
    assert (count + 1) * f == count * f + f;
    if charge < len {
      CeilDivAtMost(len, f, count);
      t' := 0;
    } else {
      t' := t + 1;
    }
  }

  lemma {:induction false} PrefixDoubled(log: seq<Admission>, period: int, limit: int, lo: int, len: int)
    returns (t: nat)
    requires 1 <= limit <= period && period / limit >= 1 && len >= 1
    requires FairlyCharged(log, period, limit)
    requires forall j :: 0 <= j < |log| && lo <= log[j].at < lo + len ==>
      WindowCharge(log[..j], lo, lo + len) < len + log[j].emission
    ensures DoubledBy(CountIn(Times(log), lo, lo + len), WindowCharge(log, lo, lo + len), period / limit, len, t)
  {
    hide CeilDiv, DoubledBy, CountIn, WindowCharge, Times;
    var f := period / limit;
    WindowGrows(log, lo, lo + len);
    if log == [] {
      t := 0;
      NothingDoubled(f, len);
    } else {
      var before := Init(log);
      assert forall j :: 0 <= j < |before| ==> before[..j] == log[..j];
      t := PrefixDoubled(before, period, limit, lo, len);
      if lo <= Last(log).at < lo + len {
        assert log[..|log| - 1] == before;
        t := DoublingStep(CountIn(Times(before), lo, lo + len), WindowCharge(before, lo, lo + len), f, len, t,
                          Last(log).emission);
      }
    }
  }

  lemma WindowGrows(log: seq<Admission>, lo: int, hi: int)
    ensures CountIn(Times(log), lo, hi)
         == if log == [] then 0 else CountIn(Times(Init(log)), lo, hi) + if lo <= Last(log).at < hi then 1 else 0
    ensures WindowCharge(log, lo, hi)
         == if log == [] then 0
            else WindowCharge(Init(log), lo, hi) + if lo <= Last(log).at < hi then Last(log).emission else 0
  {
    if log != [] { assert Init(Times(log)) == Times(Init(log)); }
  }

  lemma NothingDoubled(f: int, len: int)
    requires f >= 1 && len >= 1
    ensures DoubledBy(0, 0, f, len, 0)
  {
    hide CeilDiv;
    CeilDivLeast(len, f);
  }

  lemma {:induction false} LastInWindow(s: seq<int>, lo: int, hi: int) returns (k: nat)
    requires CountIn(s, lo, hi) >= 1
    ensures k < |s| && lo <= s[k] < hi && CountIn(s[..k], lo, hi) == CountIn(s, lo, hi) - 1
  {
    if lo <= Last(s) < hi {
      k := |s| - 1;
    } else {
      k := LastInWindow(Init(s), lo, hi);
      assert Init(s)[..k] == s[..k];
    }
  }

  /** The most a window of `len` can hold while the quota moves up to `limit`. */
  function MovingMax(limit: int, period: int, len: int): int
    requires 1 <= limit <= period
  {
    FloorAtLeastOne(period, limit);
    CeilDiv(len, period / limit) + NODE_BURST + Doublings(period / limit, period)
  }

  /** However the quota moves between one and `limit`, a window holds at most what a
      constant `limit` lets it hold, and one more per doubling of the smallest charge up
      to a whole period. */
  lemma MovingQuotaWindow(initial: int, ops: seq<Op>, period: int, limit: int, lo: int, len: int)
    requires QuotasFit(initial, ops, limit) && limit <= period && len >= 1
    ensures QuotasFit(initial, ops, period)
    ensures CountIn(Times(ServeOps(initial, ops, period, NODE_BURST).log), lo, lo + len)
         <= MovingMax(limit, period, len)
  {
    hide ServeOps, CeilDiv, CountIn, WindowCharge, Doublings, Doubled;
    RunFairlyCharged(initial, ops, period, limit);
    var log := ServeOps(initial, ops, period, NODE_BURST).log;
    var f, count := period / limit, CountIn(Times(log), lo, lo + len);
    FloorAtLeastOne(period, limit);
    if count >= 1 {
      var k := LastInWindow(Times(log), lo, lo + len);
      assert Times(log)[..k] == Times(log[..k]);
      ChargesBefore(initial, ops, period, limit, lo, len);
      forall j | 0 <= j < k ensures log[..k][..j] == log[..j] {}
      var t := PrefixDoubled(log[..k], period, limit, lo, len);
      if t >= 1 { DoublingsLeast(f, period, t - 1); }
    } else {
      CeilDivLeast(len, f);
    }
  }

  lemma ChargesBefore(initial: int, ops: seq<Op>, period: int, limit: int, lo: int, len: int)
    requires QuotasFit(initial, ops, period)
    ensures
      var log := ServeOps(initial, ops, period, NODE_BURST).log;
      forall j :: 0 <= j < |log| && lo <= log[j].at < lo + len ==>
        WindowCharge(log[..j], lo, lo + len) < len + log[j].emission
  {
    hide ServeOps, WindowCharge;
    var log := ServeOps(initial, ops, period, NODE_BURST).log;
    forall j | 0 <= j < |log| && lo <= log[j].at < lo + len
      ensures WindowCharge(log[..j], lo, lo + len) < len + log[j].emission
    {
      ChargeBound(initial, ops, period, NODE_BURST, j, lo, len);
    }
  }
}
