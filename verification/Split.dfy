/** proportionalSplit: the largest-remainder method, in exact integers. */
module Split {
  import opened Seqs
  import opened Sorting
  import Gcra

  function Abs(n: int): (a: int)
    ensures a >= 0 && (a == n || a == -n)
  {
    if n < 0 then -n else n
  }

  function Floor(total: int, w: int, sum: int): int
    requires sum >= 1
  {
    (total * w) / sum
  }

  /** The fractional part of the exact share, in units of 1 / sum. */
  function Rem(total: int, w: int, sum: int): (r: int)
    requires sum >= 1
    ensures 0 <= r < sum
    ensures total * w == Floor(total, w, sum) * sum + r
  {
    (total * w) % sum
  }

  function Rems(total: int, weights: seq<int>, sum: int): (s: seq<int>)
    requires sum >= 1
    ensures |s| == |weights|
  {
    seq(|weights|, i requires 0 <= i < |weights| => Rem(total, weights[i], sum))
  }

  function CountTrue(s: seq<bool>): nat {
    if s == [] then 0 else CountTrue(Init(s)) + if Last(s) then 1 else 0
  }

  /** All-zero weights mean an even split. */
  function EffectiveWeights(weights: seq<nat>): (ws: seq<nat>)
    ensures |ws| == |weights|
    ensures weights != [] ==> Sum(ws) >= 1
  {
    NonnegativeSum(weights);
    EvenSum(|weights|);
    if Sum(weights) == 0 then EvenWeights(|weights|) else weights
  }

  lemma {:induction false} KeptLength<T>(s: seq<T>, mask: seq<bool>)
    requires |s| == |mask|
    ensures |Kept(s, mask)| == CountTrue(mask)
  {
    if s != [] { KeptLength(Init(s), Init(mask)); }
  }

  function EvenWeights(n: nat): seq<nat> { seq(n, _ => 1) }

  /** `x` gives every weight the floor of its exact share, and one more to those marked:
      as many as are left over, none of which has a smaller remainder than one unmarked. */
  ghost predicate IsSplitBy(total: int, ws: seq<nat>, marked: seq<bool>, x: seq<int>) {
    var sum := Sum(ws);
    && |x| == |ws| == |marked|
    && sum >= 1
    && (forall i :: 0 <= i < |x| ==> x[i] == Floor(total, ws[i], sum) + if marked[i] then 1 else 0)
    && CountTrue(marked) * sum == Sum(Rems(total, ws, sum))
    && (forall i, j :: 0 <= i < |x| && 0 <= j < |x| && marked[i] && !marked[j] ==>
          Rem(total, ws[j], sum) <= Rem(total, ws[i], sum))
  }

  ghost predicate IsSplit(total: int, ws: seq<nat>, x: seq<int>) {
    exists marked :: IsSplitBy(total, ws, marked, x)
  }

  // ----- sums -----

  lemma {:induction false} EvenSum(n: nat)
    ensures Sum(EvenWeights(n)) == n
  {
    if n > 0 {
      EvenSum(n - 1);
      assert Init(EvenWeights(n)) == EvenWeights(n - 1);
    }
  }

  /** The floors and the remainders account for total * weight. */
  lemma {:induction false} FloorsAndRems(total: int, ws: seq<int>, sum: int, floors: seq<int>)
    requires sum >= 1 && |floors| == |ws|
    requires forall i :: 0 <= i < |ws| ==> floors[i] == Floor(total, ws[i], sum)
    ensures total * Sum(ws) == Sum(floors) * sum + Sum(Rems(total, ws, sum))
  {
    hide Floor, Rem;
    if ws == [] {
      MulZero(total, sum);
    } else {
      FloorsAndRems(total, Init(ws), sum, Init(floors));
      var r := Rem(total, Last(ws), sum);
      assert Init(Rems(total, ws, sum)) == Rems(total, Init(ws), sum);
      Distribute(total, Sum(Init(ws)), Last(ws));
      Distribute(sum, Sum(Init(floors)), Last(floors));
    }
  }

  lemma MulZero(a: int, b: int)
    ensures a * 0 == 0 && 0 * b == 0
  {
  }

  lemma Distribute(a: int, x: int, y: int)
    ensures a * (x + y) == a * x + a * y
    ensures (x + y) * a == x * a + y * a
  {
  }

  lemma {:induction false} MarkedSum(floors: seq<int>, marked: seq<bool>, x: seq<int>)
    requires |floors| == |marked| == |x|
    requires forall i :: 0 <= i < |x| ==> x[i] == floors[i] + if marked[i] then 1 else 0
    ensures Sum(x) == Sum(floors) + CountTrue(marked)
  {
    if x != [] { MarkedSum(Init(floors), Init(marked), Init(x)); }
  }

  lemma {:induction false} RemsBelow(rems: seq<int>, sum: int)
    requires forall i :: 0 <= i < |rems| ==> 0 <= rems[i] < sum
    ensures 0 <= Sum(rems) <= |rems| * (sum - 1)
  {
    if rems != [] {
      RemsBelow(Init(rems), sum);
      assert |rems| * (sum - 1) == |Init(rems)| * (sum - 1) + (sum - 1);
    }
  }

  lemma {:induction false} OnlyMarkedRemain(rems: seq<int>, marked: seq<bool>, sum: int)
    requires |rems| == |marked|
    requires forall i :: 0 <= i < |rems| ==> rems[i] <= if marked[i] then sum - 1 else 0
    ensures Sum(rems) <= CountTrue(marked) * (sum - 1)
  {
    if rems != [] {
      OnlyMarkedRemain(Init(rems), Init(marked), sum);
      var c := CountTrue(Init(marked));
      assert (c + 1) * (sum - 1) == c * (sum - 1) + (sum - 1);
    }
  }

  // ----- exactness -----

  function Floors(total: int, ws: seq<int>, sum: int): (s: seq<int>)
    requires sum >= 1
    ensures |s| == |ws|
  {
    seq(|ws|, i requires 0 <= i < |ws| => Floor(total, ws[i], sum))
  }

  lemma SplitSums(total: nat, ws: seq<nat>, marked: seq<bool>, x: seq<int>)
    requires IsSplitBy(total, ws, marked, x)
    ensures Sum(x) == total == Sum(Floors(total, ws, Sum(ws))) + CountTrue(marked)
    ensures CountTrue(marked) < |ws|
  {
    hide Floor, Sum, CountTrue;
    var sum, floors, c := Sum(ws), Floors(total, ws, Sum(ws)), CountTrue(marked);
    FloorsAndRems(total, ws, sum, floors);
    MarkedSum(floors, marked, x);
    assert (Sum(floors) + c) * sum == Sum(floors) * sum + c * sum;
    SameMultiple(Sum(floors) + c, total, sum);
    RemsBelow(Rems(total, ws, sum), sum);
    assert |ws| >= 1 by { if ws == [] { EmptySum(ws); } }
    LeftoverBelow(c, |ws|, sum);
  }

  lemma EmptySum(s: seq<int>)
    requires s == []
    ensures Sum(s) == 0
  {
  }

  lemma SameMultiple(a: int, b: int, m: int)
    requires m >= 1 && a * m == b * m
    ensures a == b
  {
    assert (a + 1) * m == a * m + m && (b + 1) * m == b * m + m;
    if a < b { Gcra.MulMono(a + 1, b, m); }
    if b < a { Gcra.MulMono(b + 1, a, m); }
  }

  lemma LeftoverBelow(c: int, n: int, sum: int)
    requires sum >= 1 && c * sum <= n * (sum - 1) && n >= 1
    ensures c < n
  {
    assert n * (sum - 1) == n * sum - n;
    if c >= n { Gcra.MulMono(n, c, sum); }
  }

  /** A marked entry had a remainder to round up. */
  lemma MarkedHasRemainder(total: nat, ws: seq<nat>, marked: seq<bool>, x: seq<int>, i: nat)
    requires IsSplitBy(total, ws, marked, x) && i < |x| && marked[i]
    ensures Rem(total, ws[i], Sum(ws)) > 0
  {
    hide Floor, Sum, CountTrue, Rem;
    var sum, c := Sum(ws), CountTrue(marked);
    if Rem(total, ws[i], sum) == 0 {
      OnlyMarkedRemain(Rems(total, ws, sum), marked, sum);
      SomeMarked(marked, i);
      TooMuch(c, sum);
    }
  }

  lemma TooMuch(c: int, sum: int)
    requires c >= 1
    ensures c * (sum - 1) < c * sum
  {
    Distribute(c, sum, -1);
  }

  lemma RoundedEntry(sum: int, goal: nat, f: int, r: int, mark: bool)
    requires 0 <= r < sum && goal == f * sum + r && (mark ==> r > 0)
    ensures var x := f + if mark then 1 else 0; 0 <= x && Abs(sum * x - goal) < sum
  {
    assert sum * f == f * sum && sum * (f + 1) == f * sum + sum;
    if f < 0 { Gcra.MulMono(f, -1, sum); }
  }

  /** The split sums to exactly the total, the leftover is below the number of weights,
      and every entry is the floor or the ceiling of its exact share. */
  lemma SplitIsExact(total: nat, ws: seq<nat>, x: seq<int>)
    requires IsSplit(total, ws, x)
    ensures Sum(x) == total
    ensures 0 <= total - Sum(Floors(total, ws, Sum(ws))) < |ws|
    ensures forall i :: 0 <= i < |x| ==>
      0 <= x[i] && Abs(Sum(ws) * x[i] - total * ws[i]) < Sum(ws)
  {
    hide Floor, Sum, CountTrue;
    var marked :| IsSplitBy(total, ws, marked, x);
    SplitSums(total, ws, marked, x);
    forall i | 0 <= i < |x| ensures 0 <= x[i] && Abs(Sum(ws) * x[i] - total * ws[i]) < Sum(ws) {
      Gcra.MulMono(0, total, ws[i]);
      if marked[i] { MarkedHasRemainder(total, ws, marked, x, i); }
      RoundedEntry(Sum(ws), total * ws[i], Floor(total, ws[i], Sum(ws)), Rem(total, ws[i], Sum(ws)), marked[i]);
    }
  }

  /** Between the neighbours of its exact share, and together the total. */
  lemma SplitWithin(total: nat, ws: seq<nat>, x: seq<int>)
    requires IsSplit(total, ws, x)
    ensures Sum(x) == total
    ensures forall i :: 0 <= i < |x| ==>
      0 <= x[i] && total * ws[i] - Sum(ws) < Sum(ws) * x[i] < total * ws[i] + Sum(ws)
  {
    SplitIsExact(total, ws, x);
  }

  /** Equal weights get entries that differ by at most one. */
  lemma EqualWeightsSplitEvenly(total: nat, ws: seq<nat>, x: seq<int>, i: nat, j: nat)
    requires IsSplit(total, ws, x) && i < |ws| && j < |ws| && ws[i] == ws[j]
    ensures x[i] <= x[j] + 1
  {
  }

  /** What the split of any weights is, with all weights zero and with some not. */
  lemma SplitOfWeights(total: nat, weights: seq<nat>, x: seq<int>)
    requires IsSplit(total, EffectiveWeights(weights), x) && weights != []
    ensures Sum(x) == total && forall i :: 0 <= i < |x| ==> 0 <= x[i]
    ensures (forall i :: 0 <= i < |weights| ==> weights[i] == 0) ==>
      forall i, j :: 0 <= i < |x| && 0 <= j < |x| ==> x[i] <= x[j] + 1
    ensures (exists i :: 0 <= i < |weights| && weights[i] > 0) ==>
      forall i :: 0 <= i < |x| ==>
        total * weights[i] - Sum(weights) < Sum(weights) * x[i] < total * weights[i] + Sum(weights)
  {
    hide IsSplit, Sum;
    SplitLength(total, EffectiveWeights(weights), x);
    SplitWithin(total, EffectiveWeights(weights), x);
    NonnegativeSum(weights);
    if forall i :: 0 <= i < |weights| ==> weights[i] == 0 {
      ZeroSum(weights);
      forall i, j | 0 <= i < |x| && 0 <= j < |x| ensures x[i] <= x[j] + 1 {
        EqualWeightsSplitEvenly(total, EffectiveWeights(weights), x, i, j);
      }
    }
  }

  lemma SplitLength(total: nat, ws: seq<nat>, x: seq<int>)
    requires IsSplit(total, ws, x)
    ensures |x| == |ws|
  {
  }

  lemma ZeroSum(s: seq<int>)
    requires forall i :: 0 <= i < |s| ==> s[i] == 0
    ensures Sum(s) == 0
  {
    ConstantSum(s, 0);
  }

  lemma {:induction false} SomeMarked(marked: seq<bool>, i: nat)
    requires i < |marked| && marked[i]
    ensures CountTrue(marked) >= 1
  {
    if i < |marked| - 1 { SomeMarked(Init(marked), i); }
  }

  // ----- optimality -----

  /** The sum of absolute deviations from the exact shares, scaled by the sum of weights. */
  function Deviation(total: int, ws: seq<int>, sum: int, x: seq<int>): int
    requires |x| == |ws|
  {
    if x == [] then 0
    else Deviation(total, Init(ws), sum, Init(x)) + Abs(sum * Last(x) - total * Last(ws))
  }

  /** A remainder between the marked and the unmarked ones. */
  lemma {:induction false} Threshold(rems: seq<int>, marked: seq<bool>) returns (t: int)
    requires |rems| == |marked|
    requires forall i :: 0 <= i < |rems| ==> 0 <= rems[i]
    requires forall i, j :: 0 <= i < |rems| && 0 <= j < |rems| && marked[i] && !marked[j] ==> rems[j] <= rems[i]
    ensures forall i :: 0 <= i < |rems| ==> if marked[i] then t <= rems[i] else rems[i] <= t
    ensures t == 0 || exists j :: 0 <= j < |rems| && !marked[j] && t == rems[j]
  {
    if rems == [] {
      t := 0;
    } else {
      t := Threshold(Init(rems), Init(marked));
      if !Last(marked) && t < Last(rems) {
        t := Last(rems);
        assert !marked[|rems| - 1] && t == rems[|rems| - 1];
      } else if t != 0 {
        var j :| 0 <= j < |Init(rems)| && !Init(marked)[j] && t == Init(rems)[j];
        assert !marked[j] && t == rems[j];
      }
    }
  }

  /** Moving one entry from x to y costs at least (sum - 2t) per unit. */
  lemma EntryCost(sum: int, goal: int, f: int, r: int, t: int, mark: bool, y: int)
    requires 0 <= r < sum && goal == f * sum + r && 0 <= t <= sum
    requires if mark then t <= r else r <= t
    ensures
      var x := f + if mark then 1 else 0;
      Abs(sum * x - goal) + (sum - 2 * t) * (y - x) <= Abs(sum * y - goal)
  {
    var k := y - f;
    Distribute(sum, f, k);
    Distribute(sum, f, 1);
    Slopes(sum, t, k);
    SlopeSigns(sum, t, k);
    EntryCostLinear(sum, goal, f * sum, sum * k, t * k, k, r, t, mark);
    if mark {
      assert y - (f + 1) == k - 1;
    } else {
      assert y - (f + 0) == k;
    }
  }

  lemma Slopes(sum: int, t: int, k: int)
    ensures (sum - 2 * t) * k == sum * k - 2 * (t * k)
    ensures (sum - 2 * t) * (k - 1) == sum * k - 2 * (t * k) - (sum - 2 * t)
  {
    Distribute(k, sum, -2 * t);
    assert (-2 * t) * k == -2 * (t * k);
    Distribute(sum - 2 * t, k, -1);
  }

  lemma SlopeSigns(sum: int, t: int, k: int)
    requires 0 <= t <= sum
    ensures if k >= 1 then sum * k >= sum && t * k >= t else sum * k <= t * k && sum * k <= 0
  {
    if k >= 1 {
      Gcra.MulMono(1, k, t);
      Gcra.MulMono(1, k, sum);
    } else {
      Distribute(k, sum, -t);
      Gcra.MulMono(k, 0, sum - t);
      Gcra.MulMono(k, 0, sum);
    }
  }

  /** EntryCost with its products named: base for f * sum, sk for sum * k, tk for t * k. */
  lemma EntryCostLinear(sum: int, goal: int, base: int, sk: int, tk: int, k: int, r: int, t: int, mark: bool)
    requires 0 <= r < sum && goal == base + r && 0 <= t <= sum
    requires if mark then t <= r else r <= t
    requires if k >= 1 then sk >= sum && tk >= t else sk <= tk && sk <= 0
    ensures !mark ==> Abs(base - goal) + (sk - 2 * tk) <= Abs(base + sk - goal)
    ensures mark ==> Abs(base + sum - goal) + (sk - 2 * tk) - (sum - 2 * t) <= Abs(base + sk - goal)
  {
  }

  lemma {:induction false} TotalCost(total: int, ws: seq<int>, sum: int, t: int, marked: seq<bool>,
                                      x: seq<int>, y: seq<int>)
    requires |ws| == |marked| == |x| == |y| && sum >= 1 && 0 <= t <= sum
    requires forall i :: 0 <= i < |x| ==> x[i] == Floor(total, ws[i], sum) + if marked[i] then 1 else 0
    requires forall i :: 0 <= i < |x| ==>
      if marked[i] then t <= Rem(total, ws[i], sum) else Rem(total, ws[i], sum) <= t
    ensures Deviation(total, ws, sum, x) + (sum - 2 * t) * (Sum(y) - Sum(x)) <= Deviation(total, ws, sum, y)
  {
    hide Floor;
    if x != [] {
      TotalCost(total, Init(ws), sum, t, Init(marked), Init(x), Init(y));
      var w := Last(ws);
      EntryCost(sum, total * w, Floor(total, w, sum), Rem(total, w, sum), t, Last(marked), Last(y));
      var before, now := Sum(Init(y)) - Sum(Init(x)), Last(y) - Last(x);
      assert (sum - 2 * t) * (before + now) == (sum - 2 * t) * before + (sum - 2 * t) * now;
    }
  }

  lemma SplitThreshold(total: nat, ws: seq<nat>, marked: seq<bool>, x: seq<int>) returns (t: int)
    requires IsSplitBy(total, ws, marked, x)
    ensures 0 <= t <= Sum(ws)
    ensures forall i :: 0 <= i < |x| ==>
      if marked[i] then t <= Rem(total, ws[i], Sum(ws)) else Rem(total, ws[i], Sum(ws)) <= t
  {
    hide Floor, Sum, CountTrue, Rem;
    var rems := Rems(total, ws, Sum(ws));
    t := Threshold(rems, marked);
    forall i | 0 <= i < |x|
      ensures if marked[i] then t <= Rem(total, ws[i], Sum(ws)) else Rem(total, ws[i], Sum(ws)) <= t
    {
      assert rems[i] == Rem(total, ws[i], Sum(ws));
    }
  }

  /** No integer vector with the same sum lies closer to the exact shares, whichever
      way equal remainders were sorted. */
  lemma SplitIsOptimal(total: nat, ws: seq<nat>, x: seq<int>, y: seq<int>)
    requires IsSplit(total, ws, x) && |y| == |ws| && Sum(y) == total
    ensures Deviation(total, ws, Sum(ws), x) <= Deviation(total, ws, Sum(ws), y)
  {
    hide Floor, Sum, CountTrue, Deviation, Rem;
    var marked :| IsSplitBy(total, ws, marked, x);
    var t := SplitThreshold(total, ws, marked, x);
    TotalCost(total, ws, Sum(ws), t, marked, x, y);
    SplitSums(total, ws, marked, x);
    assert (Sum(ws) - 2 * t) * 0 == 0;
  }

  // ----- the method -----

  datatype Remainder = Remainder(idx: int, rem: int)

  function Remainders(total: int, ws: seq<int>, sum: int): (s: seq<Remainder>)
    requires sum >= 1
    ensures |s| == |ws|
  {
    seq(|ws|, i requires 0 <= i < |ws| => Remainder(i, Rem(total, ws[i], sum)))
  }

  const DESCENDING: Remainder -> int := (r: Remainder) => -r.rem

  /** `order` lists every index once, largest remainder first. */
  ghost predicate IsOrder(order: seq<Remainder>, total: int, ws: seq<int>, sum: int)
    requires sum >= 1
  {
    && |order| == |ws| && SortedBy(order, DESCENDING)
    && (forall p :: 0 <= p < |order| ==>
          0 <= order[p].idx < |ws| && order[p].rem == Rem(total, ws[order[p].idx], sum))
    && (forall p, q :: 0 <= p < q < |order| ==> order[p].idx != order[q].idx)
    && (forall k :: 0 <= k < |ws| ==> Remainder(k, Rem(total, ws[k], sum)) in order)
  }

  lemma SortedIsOrder(order: seq<Remainder>, total: int, ws: seq<int>, sum: int)
    requires sum >= 1 && SortedBy(order, DESCENDING)
    requires multiset(order) == multiset(Remainders(total, ws, sum))
    ensures IsOrder(order, total, ws, sum)
  {
    hide Rem, SortedBy;
    var s := Remainders(total, ws, sum);
    PermutedMembers(order, s);
    PermutedDistinct(s, order);
    forall p | 0 <= p < |order|
      ensures 0 <= order[p].idx < |ws| && order[p].rem == Rem(total, ws[order[p].idx], sum)
    {
      assert order[p] in order;
    }
    forall k | 0 <= k < |ws| ensures Remainder(k, Rem(total, ws[k], sum)) in order {
      assert s[k] in s;
    }
  }

  lemma {:induction false} CountTrueSet(marked: seq<bool>, k: nat)
    requires k < |marked| && !marked[k]
    ensures CountTrue(marked[k := true]) == CountTrue(marked) + 1
  {
    var marked' := marked[k := true];
    if k < |marked| - 1 {
      CountTrueSet(Init(marked), k);
      assert Init(marked') == Init(marked)[k := true];
    } else {
      assert Init(marked') == Init(marked);
    }
  }

  lemma {:induction false} NoneTrue(n: nat)
    ensures CountTrue(seq(n, _ => false)) == 0
  {
    if n > 0 {
      NoneTrue(n - 1);
      assert Init(seq(n, _ => false)) == seq(n - 1, _ => false);
    }
  }

  /** The first entries of the order, `count` of them, are exactly the marked ones. */
  ghost predicate MarksFirst(marked: seq<bool>, order: seq<Remainder>, count: nat) {
    && count <= |order| == |marked|
    && (forall p :: 0 <= p < |order| ==> 0 <= order[p].idx < |marked|)
    && (forall p :: 0 <= p < |order| ==> (marked[order[p].idx] <==> p < count))
    && CountTrue(marked) == count
  }

  lemma MarkNext(marked: seq<bool>, order: seq<Remainder>, count: nat, total: int, ws: seq<int>, sum: int)
    requires sum >= 1 && IsOrder(order, total, ws, sum)
    requires MarksFirst(marked, order, count) && count < |order|
    ensures MarksFirst(marked[order[count].idx := true], order, count + 1)
  {
    hide Rem, SortedBy, CountTrue;
    CountTrueSet(marked, order[count].idx);
  }

  /** The leftover, as an exact multiple of the sum. */
  lemma LeftoverExact(total: int, ws: seq<nat>)
    requires ws != [] && Sum(ws) >= 1
    ensures 0 <= total - Sum(Floors(total, ws, Sum(ws))) < |ws|
    ensures (total - Sum(Floors(total, ws, Sum(ws)))) * Sum(ws) == Sum(Rems(total, ws, Sum(ws)))
  {
    hide Floor, Sum, Rem, Rems, Floors;
    var sum, floors, rems := Sum(ws), Floors(total, ws, Sum(ws)), Rems(total, ws, Sum(ws));
    FloorsAreFloors(total, ws, sum);
    FloorsAndRems(total, ws, sum, floors);
    RemsAreRems(total, ws, sum);
    RemsBelow(rems, sum);
    LeftoverArithmetic(total, Sum(floors), Sum(rems), |ws|, sum);
  }

  lemma FloorsAreFloors(total: int, ws: seq<int>, sum: int)
    requires sum >= 1
    ensures forall i :: 0 <= i < |ws| ==> Floors(total, ws, sum)[i] == Floor(total, ws[i], sum)
  {
  }

  lemma RemsAreRems(total: int, ws: seq<int>, sum: int)
    requires sum >= 1
    ensures forall i :: 0 <= i < |ws| ==> 0 <= Rems(total, ws, sum)[i] < sum
  {
    hide Rem;
  }

  lemma LeftoverArithmetic(total: int, floors: int, rems: int, n: int, sum: int)
    requires sum >= 1 && n >= 1 && total * sum == floors * sum + rems && 0 <= rems <= n * (sum - 1)
    ensures 0 <= total - floors < n && (total - floors) * sum == rems
  {
    Distribute(sum, total, -floors);
    var leftover := total - floors;
    LeftoverBelow(leftover, n, sum);
    if leftover < 0 { Gcra.MulMono(leftover, -1, sum); }
  }

  lemma MarkedIsSplit(total: int, ws: seq<nat>, order: seq<Remainder>, marked: seq<bool>, x: seq<int>)
    requires ws != [] && Sum(ws) >= 1 && IsOrder(order, total, ws, Sum(ws)) && |x| == |ws|
    requires 0 <= total - Sum(Floors(total, ws, Sum(ws)))
    requires MarksFirst(marked, order, total - Sum(Floors(total, ws, Sum(ws))))
    requires forall k :: 0 <= k < |x| ==> x[k] == Floor(total, ws[k], Sum(ws)) + if marked[k] then 1 else 0
    ensures IsSplit(total, ws, x)
  {
    hide Rem, Floor, CountTrue, Sum;
    LeftoverExact(total, ws);
    var sum := Sum(ws);
    forall i, j | 0 <= i < |x| && 0 <= j < |x| && marked[i] && !marked[j]
      ensures Rem(total, ws[j], sum) <= Rem(total, ws[i], sum)
    {
      var p :| 0 <= p < |order| && order[p] == Remainder(i, Rem(total, ws[i], sum));
      var q :| 0 <= q < |order| && order[q] == Remainder(j, Rem(total, ws[j], sum));
      assert p < q && DESCENDING(order[p]) <= DESCENDING(order[q]);
    }
    assert IsSplitBy(total, ws, marked, x);
  }

  method ProportionalSplit(total: nat, weights: seq<nat>) returns (result: array<int>)
    ensures fresh(result) && result.Length == |weights|
    ensures weights != [] ==> IsSplit(total, EffectiveWeights(weights), result[..])
    ensures weights != [] ==> Sum(result[..]) == total && forall i :: 0 <= i < |weights| ==> 0 <= result[i]
    ensures (forall i :: 0 <= i < |weights| ==> weights[i] == 0) ==>
      forall i, j :: 0 <= i < |weights| && 0 <= j < |weights| ==> result[i] <= result[j] + 1
    ensures (exists i :: 0 <= i < |weights| && weights[i] > 0) ==>
      forall i :: 0 <= i < |weights| ==>
        total * weights[i] - Sum(weights) < Sum(weights) * result[i] < total * weights[i] + Sum(weights)
    decreases if Sum(weights) == 0 then 1 else 0
  {
    hide Rem, Floor, Floors, Remainders, Rems, CountTrue, IsOrder, IsSplit, SortedBy, Sum;
    var n := |weights|;
    result := new int[n](_ => 0);
    if n == 0 { return; }

    var sum := SumOf(weights);
    NonnegativeSum(weights);
    if sum == 0 {
      EvenSum(n);
      result := ProportionalSplit(total, EvenWeights(n));
      SplitOfWeights(total, weights, result[..]);
      return;
    }

    var rems, handedOut := Allocate(total, weights, sum, result);
    SortSlice(rems, DESCENDING);
    ghost var order := rems[..];
    SortedIsOrder(order, total, weights, sum);
    LeftoverExact(total, weights);
    ghost var marked := Bump(total, weights, sum, result, rems, total - handedOut);
    MarkedIsSplit(total, weights, order, marked, result[..]);
    SplitOfWeights(total, weights, result[..]);
  }

  method SumOf(weights: seq<nat>) returns (sum: int)
    ensures sum == Sum(weights)
  {
    sum := 0;
    for i := 0 to |weights|
      invariant sum == Sum(weights[..i])
    {
      assert Init(weights[..i + 1]) == weights[..i];
      sum := sum + weights[i];
    }
    assert weights[..|weights|] == weights;
  }

  /** Every weight gets its floor; the remainders are collected for sorting. */
  method Allocate(total: nat, weights: seq<nat>, sum: int, result: array<int>)
    returns (rems: array<Remainder>, handedOut: int)
    requires sum >= 1 && result.Length == |weights|
    modifies result
    ensures fresh(rems) && rems[..] == Remainders(total, weights, sum)
    ensures result[..] == Floors(total, weights, sum) && handedOut == Sum(Floors(total, weights, sum))
  {
    var n := |weights|;
    rems := new Remainder[n](_ => Remainder(0, 0));
    handedOut := 0;
    ghost var floors := Floors(total, weights, sum);
    for i := 0 to n
      invariant handedOut == Sum(floors[..i])
      invariant result[..i] == floors[..i]
      invariant rems[..i] == Remainders(total, weights, sum)[..i]
    {
      var floor := (total * weights[i]) / sum;
      result[i] := floor;
      handedOut := handedOut + floor;
      rems[i] := Remainder(i, (total * weights[i]) % sum);
      assert Init(floors[..i + 1]) == floors[..i];
    }
    assert floors[..n] == floors;
    assert result[..n] == result[..] && rems[..n] == rems[..];
  }

  /** The first `leftover` entries of the order get one more each. */
  method Bump(total: nat, ghost weights: seq<nat>, ghost sum: int, result: array<int>, rems: array<Remainder>,
              leftover: int)
    returns (ghost marked: seq<bool>)
    requires sum >= 1 && result.Length == rems.Length == |weights|
    requires IsOrder(rems[..], total, weights, sum) && 0 <= leftover < |weights|
    requires result[..] == Floors(total, weights, sum)
    modifies result
    ensures MarksFirst(marked, old(rems[..]), leftover) && rems[..] == old(rems[..])
    ensures forall k :: 0 <= k < |weights| ==>
      result[k] == Floor(total, weights[k], sum) + if marked[k] then 1 else 0
  {
    hide Rem, Floor, CountTrue, SortedBy;
    ghost var order, floors := rems[..], Floors(total, weights, sum);
    marked := seq(|weights|, _ => false);
    NoneTrue(|weights|);
    var i := 0;
    while i < leftover && i < rems.Length
      invariant 0 <= i <= leftover && rems[..] == order
      invariant MarksFirst(marked, order, i)
      invariant forall k :: 0 <= k < |weights| ==> result[k] == floors[k] + if marked[k] then 1 else 0
    {
      assert rems[i] == order[i] && !marked[order[i].idx];
      MarkNext(marked, order, i, total, weights, sum);
      result[rems[i].idx] := result[rems[i].idx] + 1;
      marked := marked[order[i].idx := true];
      i := i + 1;
    }
  }
}
