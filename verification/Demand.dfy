/** Where a tick's targets come from: requests are counted at each node until it is
    polled, the proposer averages the counts, and the averages weigh the split. */
module Demand {
  import opened Seqs
  import opened Gcra
  import opened Rounds
  import opened Handover
  import opened Split
  import opened Targets

  const DEMAND_EMA_ALPHA: real := 0.2

  type Load = x: real | x >= 0.0 witness 0.0

  /** The proposer's moving average of one node's counts; none before the first poll. */
  datatype Average = NoAverage | Average(value: Load)

  /** What a node has counted since it was last polled, and the average of what it reported. */
  datatype Tally = Tally(count: nat, average: Average)

  const FRESH_TALLY: Tally := Tally(0, NoAverage)

  function SmoothDemand(average: Average, raw: nat): Load {
    match average
    case NoAverage => raw as real
    case Average(previous) => DEMAND_EMA_ALPHA * raw as real + (1.0 - DEMAND_EMA_ALPHA) * previous
  }

  /** A first report is taken as it is; a later one moves the average a fifth of the way,
      so it never leaves the range of what was reported. */
  lemma SmoothDemandMeans(average: Average, raw: nat)
    ensures average.NoAverage? ==> SmoothDemand(average, raw) == raw as real
    ensures average.Average? ==>
      && 5.0 * (SmoothDemand(average, raw) - average.value) == raw as real - average.value
      && (average.value <= raw as real ==> average.value <= SmoothDemand(average, raw) <= raw as real)
      && (raw as real <= average.value ==> raw as real <= SmoothDemand(average, raw) <= average.value)
  {
  }

  /** The integer weight of a smoothed demand: never zero. */
  function Weight(smoothed: Load): (w: nat)
    ensures w >= 1
  {
    (smoothed * 1000.0).Floor + 1
  }

  lemma WeightMeans(smoothed: Load)
    ensures 1000.0 * smoothed < Weight(smoothed) as real <= 1000.0 * smoothed + 1.0
  {
  }

  /** Whether a tick gets past the proposer's own limit check. */
  predicate Splits(cfg: Config, s: System)
    requires WellFormed(cfg, s)
  {
    s.phase.Idle? && s.fleet[cfg.proposer].Known? && s.fleet[cfg.proposer].globalLimit > 0
  }

  /** A tick starts a round exactly when it gets past the limit check and some share would
      move far enough. */
  lemma SplitsMeans(cfg: Config, s: System, e: Event)
    requires WellFormed(cfg, s) && e.Tick? && Fits(cfg, e) && s.phase.Idle?
    ensures Next(cfg, s, e).phase.Shrinking? <==>
      Splits(cfg, s) && WorthARound(Shares(cfg, s.fleet), GoalOf(cfg, s.fleet, e))
    ensures !Next(cfg, s, e).phase.Shrinking? ==> Next(cfg, s, e) == s
  {
    hide WorthARound;
  }

  /** Every poll that is answered empties the node's counter; a tick that splits averages
      what it read. */
  function TallyNext(cfg: Config, s: System, e: Event, i: nat, t: Tally): Tally
    requires WellFormed(cfg, s) && Fits(cfg, e) && i < cfg.nodes
  {
    match e
    case Request(k, _) => if k == i then t.(count := t.count + 1) else t
    case Tick(answered, _) =>
      if !s.phase.Idle? || !answered[i] then t
      else Tally(0, if Splits(cfg, s) then Average(SmoothDemand(t.average, t.count)) else t.average)
    case Advance(_) => t
  }

  function TallyAt(cfg: Config, events: seq<Event>, i: nat): Tally
    requires cfg.Valid() && AllFit(cfg, events) && i < cfg.nodes
  {
    if events == [] then FRESH_TALLY
    else TallyNext(cfg, Exec(cfg, Fresh(cfg), Init(events)), Last(events), i, TallyAt(cfg, Init(events), i))
  }

  /** The weights that a tick after these events would split by. */
  function WeightsAfter(cfg: Config, events: seq<Event>): (ws: seq<nat>)
    requires cfg.Valid() && AllFit(cfg, events)
    ensures |ws| == cfg.nodes
  {
    seq(cfg.nodes, i requires 0 <= i < cfg.nodes =>
      var t := TallyAt(cfg, events, i); Weight(SmoothDemand(t.average, t.count)))
  }

  /** The targets of every tick are the split by the demand at the nodes that answered it. */
  ghost predicate Driven(cfg: Config, events: seq<Event>)
    requires cfg.Valid() && AllFit(cfg, events)
  {
    events != [] ==>
      && Driven(cfg, Init(events))
      && DrivenTick(cfg, Init(events), Last(events))
  }

  ghost predicate DrivenTick(cfg: Config, before: seq<Event>, e: Event)
    requires cfg.Valid() && AllFit(cfg, before) && Fits(cfg, e)
  {
    e.Tick? && Splits(cfg, Exec(cfg, Fresh(cfg), before)) ==>
      IsSplit(cfg.limit, Kept(WeightsAfter(cfg, before), e.answered), Kept(e.targets, e.answered))
  }

  /** Events without a tick keep a run driven. */
  lemma {:induction false} NoTickDriven(cfg: Config, a: seq<Event>, b: seq<Event>)
    requires cfg.Valid() && AllFit(cfg, a) && AllFit(cfg, b) && AllFit(cfg, a + b) && Driven(cfg, a)
    requires forall i :: 0 <= i < |b| ==> !b[i].Tick?
    ensures Driven(cfg, a + b)
  {
    hide Fits;
    if b == [] {
      assert a + b == a;
    } else {
      assert Init(a + b) == a + Init(b) && Last(a + b) == Last(b);
      NoTickDriven(cfg, a, Init(b));
    }
  }

  lemma TickDriven(cfg: Config, a: seq<Event>, e: Event)
    requires cfg.Valid() && AllFit(cfg, a) && Fits(cfg, e) && AllFit(cfg, a + [e])
    requires Driven(cfg, a) && DrivenTick(cfg, a, e)
    ensures Driven(cfg, a + [e])
  {
    hide Fits, DrivenTick;
    assert Init(a + [e]) == a;
  }

  /** Before the first tick a node's tally counts its requests. */
  lemma {:induction false} TallyOfRequests(cfg: Config, events: seq<Event>, i: nat)
    requires cfg.Valid() && AllFit(cfg, events) && i < cfg.nodes
    requires forall k :: 0 <= k < |events| ==> events[k].Request?
    ensures TallyAt(cfg, events, i) == Tally(RequestCount(events, i), NoAverage)
  {
    hide Exec, Fits;
    if events != [] { TallyOfRequests(cfg, Init(events), i); }
  }

  /** A poll that is answered reports all that was counted since the one before, and the
      count starts again; a tick that splits averages the report. */
  lemma {:induction false} TallySincePoll(cfg: Config, a: seq<Event>, e: Event, b: seq<Event>, i: nat)
    requires cfg.Valid() && i < cfg.nodes && AllFit(cfg, a) && e.Tick? && Fits(cfg, e) && AllFit(cfg, b)
    requires Exec(cfg, Fresh(cfg), a).phase.Idle? && e.answered[i]
    requires forall k :: 0 <= k < |b| ==> !b[k].Tick?
    ensures AllFit(cfg, a + [e] + b)
    ensures
      var reported, t := TallyAt(cfg, a, i), TallyAt(cfg, a + [e] + b, i);
      && t.count == RequestCount(b, i)
      && t.average == if Splits(cfg, Exec(cfg, Fresh(cfg), a))
           then Average(SmoothDemand(reported.average, reported.count)) else reported.average
  {
    hide Exec, Fits, SmoothDemand;
    if b == [] {
      assert a + [e] + b == a + [e] && Init(a + [e]) == a;
    } else {
      TallySincePoll(cfg, a, e, Init(b), i);
      assert Init(a + [e] + b) == a + [e] + Init(b) && Last(a + [e] + b) == Last(b);
    }
  }

  function RequestCount(events: seq<Event>, i: nat): nat {
    if events == [] then 0
    else RequestCount(Init(events), i) + if Last(events).Request? && Last(events).node == i then 1 else 0
  }

  // ----- a demand that takes everything -----

  /** A node's demand is so large that the rest together round to nothing. */
  ghost predicate Heavy(limit: nat, ws: seq<nat>, k: nat) {
    k < |ws| && ws[k] >= 1 && ws[k] >= 2 * limit * (Sum(ws) - ws[k])
  }

  lemma {:induction false} OneMarked(n: nat, k: nat, mark: bool)
    ensures CountTrue(seq(n, i => mark && i == k)) == if mark && k < n then 1 else 0
  {
    if n > 0 {
      OneMarked(n - 1, k, mark);
      assert Init(seq(n, i => mark && i == k)) == seq(n - 1, i => mark && i == k);
    }
  }

  /** The entry of a light node, with `rest` the weight of all but the heavy one. */
  lemma LightQuotient(limit: nat, w: nat, rest: nat, sum: int)
    requires limit >= 1 && w <= rest && sum >= 2 * limit * rest && sum >= 1
    ensures Floor(limit, w, sum) == 0 && Rem(limit, w, sum) == limit * w <= limit * rest
  {
    MulMono(w, rest, limit);
    MulMono(0, w, limit);
    assert limit * w < sum by { if w > 0 { MulMono(1, rest, limit); } }
    DivideBy(limit * w, 0, limit * w, sum);
  }

  lemma HeavyQuotient(limit: nat, big: nat, rest: nat, sum: int)
    requires limit >= 1 && big >= 1 && sum == big + rest && big >= 2 * limit * rest
    ensures rest == 0 ==> Floor(limit, big, sum) == limit && Rem(limit, big, sum) == 0
    ensures rest >= 1 ==> Floor(limit, big, sum) == limit - 1
    ensures rest >= 1 ==> Rem(limit, big, sum) == sum - limit * rest >= limit * rest
  {
    if rest == 0 {
      DivideBy(limit * big, limit, 0, sum);
    } else {
      MulMono(1, rest, limit);
      assert limit * rest == rest * limit;
      assert limit * big == (limit - 1) * sum + (sum - limit * rest) by {
        ScaledRest(limit, sum, rest);
        Distribute(sum, limit, -1);
      }
      DivideBy(limit * big, limit - 1, sum - limit * rest, sum);
    }
  }

  /** Enough demand at one node brings it the whole limit, whatever the others ask for. */
  lemma HeavyTakesAll(limit: nat, ws: seq<nat>, k: nat)
    requires limit >= 1 && Heavy(limit, ws, k)
    ensures IsSplit(limit, ws, OneHot(|ws|, k, limit))
  {
    hide Sum, Floor, Rem, CountTrue;
    var n, sum := |ws|, Sum(ws);
    var rest := RestOf(ws, k);
    HeavyQuotient(limit, ws[k], rest, sum);
    forall i | 0 <= i < n && i != k
      ensures Floor(limit, ws[i], sum) == 0 && Rem(limit, ws[i], sum) == limit * ws[i] <= limit * rest
    {
      LightAtMostRest(ws, k, i);
      LightQuotient(limit, ws[i], rest, sum);
    }
    var marked := seq(n, i => rest >= 1 && i == k);
    OneMarked(n, k, rest >= 1);
    HeavyRems(limit, ws, k, rest);
    assert IsSplitBy(limit, ws, marked, OneHot(n, k, limit));
  }

  lemma RestOf(ws: seq<nat>, k: nat) returns (rest: nat)
    requires k < |ws|
    ensures rest == Sum(ws) - ws[k] == Sum(ws[k := 0])
  {
    SumUpdate(ws, k, 0);
    NonnegativeSum(ws[k := 0]);
    rest := Sum(ws) - ws[k];
  }

  lemma LightAtMostRest(ws: seq<nat>, k: nat, i: nat)
    requires k < |ws| && i < |ws| && i != k
    ensures ws[i] <= Sum(ws) - ws[k]
  {
    SumUpdate(ws, k, 0);
    EntryAtMostSum(ws[k := 0], i);
  }

  lemma HeavyRems(limit: nat, ws: seq<nat>, k: nat, rest: nat)
    requires k < |ws| && rest == Sum(ws) - ws[k] && Sum(ws) >= 1
    requires forall i :: 0 <= i < |ws| && i != k ==> Rem(limit, ws[i], Sum(ws)) == limit * ws[i]
    requires Rem(limit, ws[k], Sum(ws)) == if rest == 0 then 0 else Sum(ws) - limit * rest
    ensures Sum(Rems(limit, ws, Sum(ws))) == if rest == 0 then 0 else Sum(ws)
  {
    hide Sum, Rem;
    var last := if rest == 0 then 0 else Sum(ws) - limit * rest;
    var scaled := Scaled(limit, ws);
    assert Rems(limit, ws, Sum(ws)) == scaled[k := last];
    ScaledTotal(limit, ws, k, rest);
    hide *;
    SumUpdate(scaled, k, last);
  }

  lemma ScaledTotal(limit: int, ws: seq<nat>, k: nat, rest: int)
    requires k < |ws| && rest == Sum(ws) - ws[k]
    ensures Sum(Scaled(limit, ws)) - Scaled(limit, ws)[k] == limit * rest
  {
    hide Sum;
    ScaledSum(limit, ws);
    ScaledRest(limit, Sum(ws), ws[k]);
  }

  lemma ScaledRest(a: int, x: int, y: int)
    ensures a * (x - y) == a * x - a * y
  {
  }
}
