/** Sequences read from the right end, the way logs and traces grow. */
module Seqs {
  function Init<T>(s: seq<T>): seq<T>
    requires s != []
  {
    s[..|s| - 1]
  }

  function Last<T>(s: seq<T>): T
    requires s != []
  {
    s[|s| - 1]
  }

  /** The subsequence of `s` selected by the mask `keep`. */
  function Kept<T>(s: seq<T>, keep: seq<bool>): seq<T>
    requires |s| == |keep|
  {
    if s == [] then []
    else Kept(Init(s), Init(keep)) + if Last(keep) then [Last(s)] else []
  }

  ghost predicate Nondecreasing(s: seq<int>) {
    forall i, j :: 0 <= i < j < |s| ==> s[i] <= s[j]
  }

  /** How many entries of `s` lie in the half-open window [lo, hi). */
  function CountIn(s: seq<int>, lo: int, hi: int): nat {
    if s == [] then 0
    else CountIn(Init(s), lo, hi) + if lo <= Last(s) < hi then 1 else 0
  }

  function Sum(s: seq<int>): int {
    if s == [] then 0 else Sum(Init(s)) + Last(s)
  }

  lemma {:induction false} SumMono(s: seq<int>, t: seq<int>)
    requires |s| == |t|
    requires forall i :: 0 <= i < |s| ==> s[i] <= t[i]
    ensures Sum(s) <= Sum(t)
  {
    if s != [] { SumMono(Init(s), Init(t)); }
  }

  lemma {:induction false} NonnegativeSum(s: seq<int>)
    requires forall i :: 0 <= i < |s| ==> s[i] >= 0
    ensures Sum(s) >= 0
    ensures Sum(s) == 0 ==> forall i :: 0 <= i < |s| ==> s[i] == 0
  {
    if s != [] { NonnegativeSum(Init(s)); }
  }

  lemma {:induction false} SumMonoAt(s: seq<int>, t: seq<int>, k: nat)
    requires |s| == |t| && k < |s|
    requires forall i :: 0 <= i < |s| ==> s[i] <= t[i]
    ensures Sum(s) + t[k] - s[k] <= Sum(t)
  {
    if k == |s| - 1 { SumMono(Init(s), Init(t)); } else { SumMonoAt(Init(s), Init(t), k); }
  }

  lemma {:induction false} ConstantSum(s: seq<int>, c: int)
    requires forall i :: 0 <= i < |s| ==> s[i] == c
    ensures Sum(s) == |s| * c
  {
    if s != [] {
      ConstantSum(Init(s), c);
      assert |s| * c == |Init(s)| * c + c;
    }
  }

  lemma {:induction false} SumOfSums(a: seq<int>, b: seq<int>, c: seq<int>)
    requires |a| == |b| == |c|
    requires forall i :: 0 <= i < |a| ==> a[i] + b[i] == c[i]
    ensures Sum(a) + Sum(b) == Sum(c)
  {
    if a != [] { SumOfSums(Init(a), Init(b), Init(c)); }
  }

  lemma {:induction false} EntryAtMostSum(s: seq<int>, k: nat)
    requires k < |s| && forall i :: 0 <= i < |s| ==> s[i] >= 0
    ensures s[k] <= Sum(s)
  {
    NonnegativeSum(Init(s));
    if k < |s| - 1 { EntryAtMostSum(Init(s), k); }
  }

  lemma {:induction false} SumUpdate(s: seq<int>, i: nat, x: int)
    requires i < |s|
    ensures Sum(s[i := x]) == Sum(s) - s[i] + x
  {
    if i == |s| - 1 {
      assert Init(s[i := x]) == Init(s);
    } else {
      assert Init(s[i := x]) == Init(s)[i := x];
      SumUpdate(Init(s), i, x);
    }
  }

  function Scaled(k: int, s: seq<int>): (t: seq<int>)
    ensures |t| == |s|
  {
    seq(|s|, i requires 0 <= i < |s| => k * s[i])
  }

  lemma {:induction false} ScaledSum(k: int, s: seq<int>)
    ensures Sum(Scaled(k, s)) == k * Sum(s)
  {
    if s != [] {
      ScaledSum(k, Init(s));
      assert Init(Scaled(k, s)) == Scaled(k, Init(s));
      assert k * (Sum(Init(s)) + Last(s)) == k * Sum(Init(s)) + k * Last(s);
    }
  }

  lemma {:induction false} CountConcat(s: seq<int>, t: seq<int>, lo: int, hi: int)
    ensures CountIn(s + t, lo, hi) == CountIn(s, lo, hi) + CountIn(t, lo, hi)
  {
    if t == [] {
      assert s + t == s;
    } else {
      assert Init(s + t) == s + Init(t);
      CountConcat(s, Init(t), lo, hi);
    }
  }

  lemma {:induction false} CountAll(s: seq<int>, lo: int, hi: int)
    requires forall i :: 0 <= i < |s| ==> lo <= s[i] < hi
    ensures CountIn(s, lo, hi) == |s|
  {
    if s != [] { CountAll(Init(s), lo, hi); }
  }

  /** The first and last entry of a window that is not empty. */
  lemma {:induction false} WindowEnds(s: seq<int>, lo: int, hi: int) returns (i: nat, j: nat)
    requires CountIn(s, lo, hi) >= 1
    ensures i <= j < |s| && lo <= s[i] < hi && lo <= s[j] < hi
    ensures CountIn(s, lo, hi) <= j - i + 1
  {
    if CountIn(Init(s), lo, hi) == 0 {
      i, j := |s| - 1, |s| - 1;
    } else {
      i, j := WindowEnds(Init(s), lo, hi);
      if lo <= Last(s) < hi { j := |s| - 1; }
    }
  }
}
