/** The targets a tick can carry are exactly the largest-remainder splits of the limit by
    positive weights, which is what the program splits by. */
module Targets {
  import opened Seqs
  import opened Gcra
  import opened Rounds
  import opened Split

  lemma DivideBy(a: int, q: int, r: int, m: int)
    requires a == q * m + r && 0 <= r < m
    ensures a / m == q && a % m == r
  {
    var d := a / m - q;
    assert d * m == r - a % m by { Distribute(m, a / m, -q); }
    if d >= 1 { MulMono(1, d, m); } else if d <= -1 { MulMono(d, -1, m); }
  }

  // ----- every nonnegative target vector -----

  /** Weights under which `targets` is the split: in proportion to it, and one more. */
  function WeightsFor(targets: seq<nat>, scale: nat): (ws: seq<nat>)
    ensures |ws| == |targets|
  {
    seq(|targets|, i requires 0 <= i < |targets| => scale * targets[i] + 1)
  }

  lemma {:induction false} WeightSum(targets: seq<nat>, scale: nat)
    ensures Sum(WeightsFor(targets, scale)) == scale * Sum(targets) + |targets|
  {
    if targets != [] {
      WeightSum(Init(targets), scale);
      assert Init(WeightsFor(targets, scale)) == WeightsFor(Init(targets), scale);
      Distribute(scale, Sum(Init(targets)), Last(targets));
    }
  }

  function Above(targets: seq<nat>, limit: int, n: int): (marked: seq<bool>)
    ensures |marked| == |targets|
  {
    seq(|targets|, i requires 0 <= i < |targets| => n * targets[i] > limit)
  }

  /** The exact share of a target's weight lies just around the target. */
  lemma NearTarget(limit: nat, t: nat, n: nat, scale: nat, sum: int)
    requires 1 <= n <= scale && t <= limit && limit >= 1 && sum == scale * limit + n
    ensures sum >= 1 && n * t <= sum
    ensures
      var mark := if n * t > limit then 1 else 0;
      && Floor(limit, scale * t + 1, sum) == t - mark
      && Rem(limit, scale * t + 1, sum) == limit - n * t + mark * sum
  {
    var mark := if n * t > limit then 1 else 0;
    var w, r := scale * t + 1, limit - n * t + mark * sum;
    MulMono(t, limit, n);
    MulMono(n, scale, limit);
    MulMono(1, scale, limit);
    assert n * limit == limit * n && n * t == t * n && 0 <= t * n;
    assert limit * w == t * sum + (limit - n * t) by { CrossProduct(limit, t, n, scale); }
    assert limit * w == (t - mark) * sum + r by { Distribute(sum, t, -mark); }
    DivideBy(limit * w, t - mark, r, sum);
  }

  lemma CrossProduct(limit: int, t: int, n: int, scale: int)
    ensures limit * (scale * t + 1) == t * (scale * limit + n) + (limit - n * t)
  {
    Distribute(limit, scale * t, 1);
    Distribute(t, scale * limit, n);
    assert limit * (scale * t) == t * (scale * limit);
  }

  lemma {:induction false} NearRems(rems: seq<int>, targets: seq<nat>, marked: seq<bool>, limit: int, n: int, sum: int)
    requires |rems| == |targets| == |marked|
    requires forall i :: 0 <= i < |rems| ==> rems[i] == limit - n * targets[i] + if marked[i] then sum else 0
    ensures Sum(rems) == |rems| * limit - n * Sum(targets) + CountTrue(marked) * sum
  {
    if rems != [] {
      NearRems(Init(rems), Init(targets), Init(marked), limit, n, sum);
      Distribute(n, Sum(Init(targets)), Last(targets));
      var c := CountTrue(Init(marked));
      assert (c + 1) * sum == c * sum + sum;
      assert |rems| * limit == |Init(rems)| * limit + limit;
    }
  }

  /** Where one target stands in the split by WeightsFor. */
  ghost predicate Near(limit: nat, targets: seq<nat>, scale: nat, i: nat)
    requires limit >= 1 && i < |targets|
  {
    var n, sum, w := |targets|, scale * limit + |targets|, scale * targets[i] + 1;
    && sum >= 1 && 0 <= n * targets[i] <= sum && w >= 1
    && var mark := if n * targets[i] > limit then 1 else 0;
    && Floor(limit, w, sum) == targets[i] - mark
    && Rem(limit, w, sum) == limit - n * targets[i] + mark * sum
  }

  lemma AllNear(limit: nat, targets: seq<nat>, scale: nat)
    requires limit >= 1 && Sum(targets) == limit && 1 <= |targets| <= scale
    ensures forall i :: 0 <= i < |targets| ==> Near(limit, targets, scale, i)
  {
    hide Sum, Floor, Rem;
    forall i | 0 <= i < |targets| ensures Near(limit, targets, scale, i) {
      EntryAtMostSum(targets, i);
      MulMono(0, targets[i], scale);
      MulMono(0, targets[i], |targets|);
      NearTarget(limit, targets[i], |targets|, scale, scale * limit + |targets|);
    }
  }

  /** Every nonnegative vector that sums to the limit is a split by positive weights. */
  lemma EveryTargetIsSplit(limit: nat, targets: seq<nat>, scale: nat)
    requires limit >= 1 && Sum(targets) == limit && 1 <= |targets| <= scale
    ensures IsSplit(limit, WeightsFor(targets, scale), targets)
    ensures forall i :: 0 <= i < |targets| ==> WeightsFor(targets, scale)[i] >= 1
  {
    hide Sum, Floor, Rem, CountTrue;
    var n, ws, sum := |targets|, WeightsFor(targets, scale), scale * limit + |targets|;
    WeightSum(targets, scale);
    AllNear(limit, targets, scale);
    assert sum >= 1 by { assert Near(limit, targets, scale, 0); }
    var marked, rems := Above(targets, limit, n), Rems(limit, ws, sum);
    assert forall i :: 0 <= i < n ==> Near(limit, targets, scale, i) ==>
      && ws[i] >= 1 && rems[i] == limit - n * targets[i] + (if marked[i] then sum else 0)
      && targets[i] == Floor(limit, ws[i], sum) + if marked[i] then 1 else 0;
    NearRems(rems, targets, marked, limit, n, sum);
    forall i, j | 0 <= i < n && 0 <= j < n && marked[i] && !marked[j]
      ensures Rem(limit, ws[j], sum) <= Rem(limit, ws[i], sum)
    {
      assert Near(limit, targets, scale, i) && Near(limit, targets, scale, j);
    }
    assert IsSplitBy(limit, ws, marked, targets);
  }

  lemma {:induction false} MaskedSum(s: seq<int>, mask: seq<bool>)
    requires |s| == |mask|
    ensures Sum(Masked(s, mask)) == Sum(Kept(s, mask))
  {
    if s != [] {
      MaskedSum(Init(s), Init(mask));
      assert Init(Masked(s, mask)) == Masked(Init(s), Init(mask));
      var kept := Kept(Init(s), Init(mask));
      if Last(mask) {
        assert Kept(s, mask) == kept + [Last(s)] && Init(kept + [Last(s)]) == kept;
      } else {
        assert Kept(s, mask) == kept;
      }
    }
  }

  lemma {:induction false} KeptNonnegative(s: seq<int>, mask: seq<bool>)
    requires |s| == |mask|
    ensures (forall i :: 0 <= i < |s| && mask[i] ==> s[i] >= 0)
       <==> forall k :: 0 <= k < |Kept(s, mask)| ==> Kept(s, mask)[k] >= 0
  {
    if s != [] {
      KeptNonnegative(Init(s), Init(mask));
      var kept := Kept(Init(s), Init(mask));
      assert Kept(s, mask) == if Last(mask) then kept + [Last(s)] else kept;
      assert forall k :: 0 <= k < |kept| ==> Kept(s, mask)[k] == kept[k];
      assert Last(mask) ==> Kept(s, mask)[|kept|] == Last(s);
    }
  }

  ghost predicate SplitOfSome(limit: nat, x: seq<int>) {
    exists ws: seq<nat> :: (forall i :: 0 <= i < |ws| ==> ws[i] >= 1) && IsSplit(limit, ws, x)
  }

  /** A tick fits exactly when its targets over the nodes that answered are a split of the
      limit by some positive weights. */
  lemma FitsIff(cfg: Config, answered: seq<bool>, targets: seq<int>)
    requires cfg.Valid() && |answered| == |targets| == cfg.nodes && answered[cfg.proposer]
    requires forall i :: 0 <= i < cfg.nodes && !answered[i] ==> targets[i] >= 0
    ensures Fits(cfg, Tick(answered, targets)) <==> SplitOfSome(cfg.limit, Kept(targets, answered))
  {
    hide Sum, IsSplit, Masked, Kept, CountTrue;
    MaskedSum(targets, answered);
    KeptNonnegative(targets, answered);
    KeptLength(targets, answered);
    var kept := Kept(targets, answered);
    if Fits(cfg, Tick(answered, targets)) {
      SomeMarked(answered, cfg.proposer);
      var ts: seq<nat> := kept;
      EveryTargetIsSplit(cfg.limit, ts, |ts|);
      assert IsSplit(cfg.limit, WeightsFor(ts, |ts|), kept);
    }
    if SplitOfSome(cfg.limit, kept) {
      var ws: seq<nat> :| (forall i :: 0 <= i < |ws| ==> ws[i] >= 1) && IsSplit(cfg.limit, ws, kept);
      SplitIsExact(cfg.limit, ws, kept);
    }
  }
}
