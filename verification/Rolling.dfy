/** The harness's measurement: the true maximum of admissions in any 60 seconds, found by
    sorting and one binary search per admission. */
module Rolling {
  import opened Seqs
  import opened Sorting
  import opened Gcra

  datatype Record = Record(failed: bool, allowed: bool, receivedAt: Instant)

  function AdmittedTimes(records: seq<Record>): seq<Instant> {
    if records == [] then []
    else
      var before := AdmittedTimes(Init(records));
      var r := Last(records);
      if !r.failed && r.allowed then before + [r.receivedAt] else before
  }

  /** The records that were answered and admitted, and received from `lo` to `hi`. */
  ghost function AdmittedIn(records: seq<Record>, lo: int, hi: int): (found: set<int>)
    ensures forall i :: i in found <==>
      0 <= i < |records| && !records[i].failed && records[i].allowed && lo <= records[i].receivedAt <= hi
  {
    set i | 0 <= i < |records| && !records[i].failed && records[i].allowed && lo <= records[i].receivedAt <= hi
  }

  /** Counting times is counting those records, one by one. */
  lemma {:induction false} CountOnRecords(records: seq<Record>, lo: int, hi: int)
    ensures CountIn(AdmittedTimes(records), lo, hi + 1) == |AdmittedIn(records, lo, hi)|
  {
    if records == [] {
      assert AdmittedIn(records, lo, hi) == {};
    } else {
      var n, r := |records| - 1, Last(records);
      CountOnRecords(Init(records), lo, hi);
      var was, now := AdmittedIn(Init(records), lo, hi), AdmittedIn(records, lo, hi);
      if !r.failed && r.allowed {
        assert Init(AdmittedTimes(records)) == AdmittedTimes(Init(records));
      }
      assert now == if n in now then was + {n} else was;
    }
  }

  lemma {:induction false} TimesOnRecords(records: seq<Record>, t: Instant)
    ensures t in AdmittedTimes(records) <==>
      exists i :: 0 <= i < |records| && !records[i].failed && records[i].allowed && records[i].receivedAt == t
  {
    if records != [] {
      var n, before, times := |records| - 1, Init(records), AdmittedTimes(records);
      TimesOnRecords(before, t);
      if i :| 0 <= i < n && !before[i].failed && before[i].allowed && before[i].receivedAt == t {
        assert records[i] == before[i];
      }
      if i :| 0 <= i < |records| && !records[i].failed && records[i].allowed && records[i].receivedAt == t {
        if i < n { assert before[i] == records[i]; } else { assert times[|times| - 1] == t; }
      }
    }
  }

  // ----- counting -----

  lemma RemoveOne<T>(s: seq<T>, t: seq<T>, k: nat)
    requires multiset(s) == multiset(t) && s != [] && k < |t| && t[k] == Last(s)
    ensures multiset(Init(s)) == multiset(t[..k] + t[k + 1..])
  {
    assert s == Init(s) + [Last(s)];
    assert t == t[..k] + [t[k]] + t[k + 1..];
    assert multiset(Init(s)) == multiset(s) - multiset{t[k]};
  }

  lemma CountRemoved(t: seq<int>, k: nat, lo: int, hi: int)
    requires k < |t|
    ensures CountIn(t, lo, hi) == CountIn(t[..k] + t[k + 1..], lo, hi) + if lo <= t[k] < hi then 1 else 0
  {
    hide CountIn;
    assert t == t[..k] + ([t[k]] + t[k + 1..]);
    CountConcat(t[..k], [t[k]] + t[k + 1..], lo, hi);
    CountConcat([t[k]], t[k + 1..], lo, hi);
    CountConcat(t[..k], t[k + 1..], lo, hi);
    CountOne(t[k], lo, hi);
  }

  lemma CountOne(x: int, lo: int, hi: int)
    ensures CountIn([x], lo, hi) == if lo <= x < hi then 1 else 0
  {
    assert Init([x]) == [];
  }

  /** The count in a window depends only on which timestamps there are, not their order. */
  lemma {:induction false} CountPermuted(s: seq<int>, t: seq<int>, lo: int, hi: int)
    requires multiset(s) == multiset(t)
    ensures CountIn(s, lo, hi) == CountIn(t, lo, hi)
  {
    PermutedMembers(s, t);
    if s != [] {
      assert Last(s) in t;
      var k :| 0 <= k < |t| && t[k] == Last(s);
      RemoveOne(s, t, k);
      CountPermuted(Init(s), t[..k] + t[k + 1..], lo, hi);
      CountRemoved(t, k, lo, hi);
    }
  }

  lemma {:induction false} CountWiden(s: seq<int>, lo: int, hi: int, hi': int)
    requires hi <= hi'
    ensures CountIn(s, lo, hi) <= CountIn(s, lo, hi')
  {
    if s != [] { CountWiden(Init(s), lo, hi, hi'); }
  }

  lemma CountStretch(s: seq<int>, i: nat, j: nat, lo: int, hi: int)
    requires i <= j < |s| && forall k :: i <= k <= j ==> lo <= s[k] < hi
    ensures CountIn(s, lo, hi) >= j - i + 1
  {
    assert s == s[..i] + (s[i..j + 1] + s[j + 1..]);
    CountConcat(s[..i], s[i..j + 1] + s[j + 1..], lo, hi);
    CountConcat(s[i..j + 1], s[j + 1..], lo, hi);
    CountAll(s[i..j + 1], lo, hi);
  }

  /** How many timestamps lie in the closed minute that begins at `start`. */
  function ClosedCount(s: seq<int>, start: int): nat {
    CountIn(s, start, start + MINUTE + 1)
  }

  // ----- the method -----

  const ASCENDING: Instant -> int := (t: Instant) => t

  /** sort.Search for the first timestamp not before `bound`. */
  method Search(times: array<Instant>, bound: int) returns (k: nat)
    requires SortedBy(times[..], ASCENDING)
    ensures k <= times.Length
    ensures forall p :: 0 <= p < times.Length ==> (p < k <==> times[p] < bound)
  {
    var i, j := 0, times.Length;
    while i < j
      invariant 0 <= i <= j <= times.Length
      invariant forall p :: 0 <= p < i ==> times[p] < bound
      invariant forall p :: j <= p < times.Length ==> bound <= times[p]
    {
      var h := (i + j) / 2;
      assert forall p :: 0 <= p <= h ==> ASCENDING(times[..][p]) <= ASCENDING(times[..][h]);
      assert forall p :: h <= p < times.Length ==> ASCENDING(times[..][h]) <= ASCENDING(times[..][p]);
      if !(times[h] < bound) { j := h; } else { i := h + 1; }
    }
    k := i;
  }

  method Collect(records: seq<Record>) returns (times: array<Instant>)
    ensures fresh(times) && times[..] == AdmittedTimes(records)
  {
    var admitted: seq<Instant> := [];
    for i := 0 to |records|
      invariant admitted == AdmittedTimes(records[..i])
    {
      assert Init(records[..i + 1]) == records[..i];
      if !records[i].failed && records[i].allowed { admitted := admitted + [records[i].receivedAt]; }
    }
    assert records[..|records|] == records;
    times := new Instant[|admitted|](i requires 0 <= i < |admitted| => admitted[i]);
  }

  /** No closed 60-second interval, at any position, holds more answered and admitted
      records than `max`; the returned endpoints are receipt times of such records and
      delimit exactly that many. */
  method MaxRolling60s(records: seq<Record>) returns (max: nat, windowStart: Instant, windowEnd: Instant)
    ensures forall s, t :: t - s <= MINUTE ==> |AdmittedIn(records, s, t)| <= max
    ensures max == 0 <==> forall i :: 0 <= i < |records| ==> records[i].failed || !records[i].allowed
    ensures max > 0 ==> 0 <= windowEnd - windowStart <= MINUTE
    ensures max > 0 ==> |AdmittedIn(records, windowStart, windowEnd)| == max
    ensures max > 0 ==> IsReceipt(records, windowStart) && IsReceipt(records, windowEnd)
    ensures forall s :: ClosedCount(AdmittedTimes(records), s) <= max
  {
    hide AdmittedTimes, CountIn, Trailing, IsWindow;
    var times := Collect(records);
    ghost var admitted := times[..];
    SortSlice(times, ASCENDING);
    ghost var sorted := times[..];
    max, windowStart, windowEnd := 0, ZERO_TIME, ZERO_TIME;
    for i := 0 to times.Length
      invariant times[..] == sorted
      invariant max == 0 <==> i == 0
      invariant forall j :: 0 <= j < i ==> Trailing(sorted, j, max)
      invariant max > 0 ==> exists lo, hi :: IsWindow(sorted, lo, hi, windowStart, windowEnd, max)
    {
      var t := times[i];
      var lo := Search(times, t - MINUTE);
      var count := i - lo + 1;
      SearchCounts(sorted, i, lo, t - MINUTE);
      ghost var best := if count > max then count else max;
      forall j | 0 <= j <= i ensures Trailing(sorted, j, best) {
        TrailingGrows(sorted, j, if j == i then count else max, best);
      }
      if count > max {
        max, windowStart, windowEnd := count, times[lo], t;
      }
    }
    MaximumFound(admitted, sorted, max, windowStart, windowEnd);
    MaximumOnRecords(records, max, windowStart, windowEnd);
  }

  /** Some answered and admitted record was received at `t`. */
  ghost predicate IsReceipt(records: seq<Record>, t: Instant)
    ensures IsReceipt(records, t) <==>
      exists i :: 0 <= i < |records| && !records[i].failed && records[i].allowed && records[i].receivedAt == t
  {
    exists i :: 0 <= i < |records| && !records[i].failed && records[i].allowed && records[i].receivedAt == t
  }

  lemma MaximumOnRecords(records: seq<Record>, max: nat, windowStart: Instant, windowEnd: Instant)
    requires forall s :: ClosedCount(AdmittedTimes(records), s) <= max
    requires max == 0 <==> AdmittedTimes(records) == []
    requires max > 0 ==>
      && windowStart in AdmittedTimes(records) && windowEnd in AdmittedTimes(records)
      && CountIn(AdmittedTimes(records), windowStart, windowEnd + 1) == max
    ensures forall s, t :: t - s <= MINUTE ==> |AdmittedIn(records, s, t)| <= max
    ensures max == 0 <==> forall i :: 0 <= i < |records| ==> records[i].failed || !records[i].allowed
    ensures max > 0 ==> |AdmittedIn(records, windowStart, windowEnd)| == max
    ensures max > 0 ==> IsReceipt(records, windowStart) && IsReceipt(records, windowEnd)
  {
    hide AdmittedTimes, CountIn;
    forall s, t | t - s <= MINUTE ensures |AdmittedIn(records, s, t)| <= max {
      CountOnRecords(records, s, t);
      CountWiden(AdmittedTimes(records), s, t + 1, s + MINUTE + 1);
      assert ClosedCount(AdmittedTimes(records), s) <= max;
    }
    CountOnRecords(records, windowStart, windowEnd);
    TimesOnRecords(records, windowStart);
    TimesOnRecords(records, windowEnd);
    if max == 0 {
      forall i | 0 <= i < |records| ensures records[i].failed || !records[i].allowed {
        TimesOnRecords(records, records[i].receivedAt);
      }
    }
  }

  /** At most `count` entries up to the j-th lie no more than a minute before it. */
  ghost predicate Trailing(sorted: seq<Instant>, j: nat, count: int)
    requires j < |sorted|
  {
    forall p :: 0 <= p <= j && sorted[j] - MINUTE <= sorted[p] ==> j - p + 1 <= count
  }

  ghost predicate IsWindow(sorted: seq<Instant>, lo: int, hi: int, start: Instant, end: Instant, count: int) {
    && 0 <= lo <= hi < |sorted| && count == hi - lo + 1
    && start == sorted[lo] && end == sorted[hi] && end - start <= MINUTE
  }

  lemma TrailingGrows(sorted: seq<Instant>, j: nat, count: int, more: int)
    requires j < |sorted| && Trailing(sorted, j, count) && count <= more
    ensures Trailing(sorted, j, more)
  {
  }

  /** What the search tells about the i-th entry's trailing minute. */
  lemma SearchCounts(sorted: seq<Instant>, i: nat, lo: nat, bound: int)
    requires i < |sorted| && bound == sorted[i] - MINUTE
    requires forall p :: 0 <= p < |sorted| ==> (p < lo <==> sorted[p] < bound)
    ensures lo <= i && Trailing(sorted, i, i - lo + 1)
    ensures IsWindow(sorted, lo, i, sorted[lo], sorted[i], i - lo + 1)
  {
  }

  lemma MaximumFound(admitted: seq<Instant>, sorted: seq<Instant>, max: nat, windowStart: Instant, windowEnd: Instant)
    requires multiset(admitted) == multiset(sorted) && SortedBy(sorted, ASCENDING)
    requires max == 0 <==> |sorted| == 0
    requires forall j :: 0 <= j < |sorted| ==> Trailing(sorted, j, max)
    requires max > 0 ==> exists lo, hi :: IsWindow(sorted, lo, hi, windowStart, windowEnd, max)
    ensures forall s :: ClosedCount(admitted, s) <= max
    ensures max == 0 <==> admitted == []
    ensures max > 0 ==>
      && 0 <= windowEnd - windowStart <= MINUTE
      && windowStart in admitted && windowEnd in admitted
      && CountIn(admitted, windowStart, windowEnd + 1) == max
  {
    PermutedMembers(admitted, sorted);
    forall s ensures ClosedCount(admitted, s) <= max {
      CountPermuted(admitted, sorted, s, s + MINUTE + 1);
      if CountIn(sorted, s, s + MINUTE + 1) >= 1 {
        var i, j := WindowEnds(sorted, s, s + MINUTE + 1);
        assert Trailing(sorted, j, max);
      }
    }
    if max > 0 {
      var lo, hi :| IsWindow(sorted, lo, hi, windowStart, windowEnd, max);
      assert forall k :: lo <= k <= hi ==> ASCENDING(sorted[lo]) <= ASCENDING(sorted[k]) <= ASCENDING(sorted[hi]);
      CountStretch(sorted, lo, hi, windowStart, windowEnd + 1);
      CountPermuted(admitted, sorted, windowStart, windowEnd + 1);
      CountWiden(admitted, windowStart, windowEnd + 1, windowStart + MINUTE + 1);
      assert ClosedCount(admitted, windowStart) <= max;
      assert sorted[lo] in sorted && sorted[hi] in sorted;
    }
  }
}
