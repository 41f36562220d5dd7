/** Concrete runs showing which promises about shares the protocol does not keep. */
module RoundLimits {
  import opened Seqs
  import opened StaticShares
  import opened Rounds
  import opened RoundSafety
  import opened LateCalls

  /** Three nodes at their even shares of 300. */
  const EVEN: Config := Config(3, 0, 300)

  function EvenNode(): Node { Known(100, 0, 300) }

  function EvenStart(): System {
    var fleet := [EvenNode(), EvenNode(), EvenNode()];
    System(fleet, fleet, [0, 0, 0], 0, Idle)
  }

  lemma SumOfThree(a: int, b: int, c: int)
    ensures Sum([a, b, c]) == a + b + c
  {
    assert Init([a, b, c]) == [a, b] && Init([a, b]) == [a] && Init([a]) == [];
    assert Sum([a]) == a && Sum([a, b]) == a + b;
  }

  /** One unanswered poll: the two other nodes split the whole limit between them while
      the silent one keeps its hundred, and the shares can reach 400. */
  lemma SilentNodeOverAllocates()
    ensures
      var e := Tick([true, true, false], [150, 150, 0]);
      && Fits(EVEN, e)
      && WellFormed(EVEN, EvenStart()) && Total(EVEN, EvenStart().fleet) == EVEN.limit
      && Next(EVEN, EvenStart(), e).phase.Shrinking?
      && !RoundSafe(EVEN, Next(EVEN, EvenStart(), e), EVEN.limit)
  {
    var e := Tick([true, true, false], [150, 150, 0]);
    var s := EvenStart();
    assert Masked(e.targets, e.answered) == [150, 150, 0];
    SumOfThree(150, 150, 0);
    assert Shares(EVEN, s.fleet) == [100, 100, 100];
    SumOfThree(100, 100, 100);
    assert GoalOf(EVEN, s.fleet, e) == [150, 150, 100];
    var r := Next(EVEN, s, e);
    assert r.goal[0] - Shares(EVEN, s.fleet)[0] == 50;
    assert Masked(Shares(EVEN, s.fleet), Not(e.answered)) == [0, 0, 100];
    SumOfThree(0, 0, 100);
    assert Gaps(EVEN, r) == [0, 0, 0];
    SumOfThree(0, 0, 0);
    RoundSafeIff(EVEN, s, e, EVEN.limit);
  }

  /** One fully answered tick of a three-node system, its calls meeting fates `ds`. */
  function Round3(cfg: Config, s: System, targets: seq<int>, ds: seq<Delivery>): System
    requires WellFormed(cfg, s) && Fits(cfg, Tick([true, true, true], targets))
  {
    Play(cfg, Next(cfg, s, Tick([true, true, true], targets)), ds)
  }

  const SMALL: Config := Config(3, 0, 60)

  function SmallStart(): System {
    var fleet := [Known(20, 0, 60), Known(20, 0, 60), Known(20, 0, 60)];
    System(fleet, fleet, [0, 0, 0], 0, Idle)
  }

  lemma Play8(cfg: Config, s: System, ds: seq<Delivery>)
    requires WellFormed(cfg, s) && |ds| == 8
    ensures Play(cfg, s, ds) ==
      var s1 := Next(cfg, s, Advance(ds[0]));
      var s2 := Next(cfg, s1, Advance(ds[1]));
      var s3 := Next(cfg, s2, Advance(ds[2]));
      var s4 := Next(cfg, s3, Advance(ds[3]));
      var s5 := Next(cfg, s4, Advance(ds[4]));
      var s6 := Next(cfg, s5, Advance(ds[5]));
      var s7 := Next(cfg, s6, Advance(ds[6]));
      Next(cfg, s7, Advance(ds[7]))
  {
    hide Next, Play;
    EmptyPlay(cfg, s);
    forall k | 1 <= k <= 8 ensures ds[..k] != [] && Init(ds[..k]) == ds[..k - 1] {
    }
    assert ds[..0] == [] && ds[..8] == ds;
    PlayStep(cfg, s, ds[..1]);
    PlayStep(cfg, s, ds[..2]);
    PlayStep(cfg, s, ds[..3]);
    PlayStep(cfg, s, ds[..4]);
    PlayStep(cfg, s, ds[..5]);
    PlayStep(cfg, s, ds[..6]);
    PlayStep(cfg, s, ds[..7]);
    PlayStep(cfg, s, ds[..8]);
  }

  /** Why calls must not be delivered after they return: a grow that the first round gave
      up on, landing after the second has handed the same quota out again, passes the
      fence of a node no later round has touched. */
  lemma LateGrowOverAllocates()
    ensures
      var (first, second) := ([5, 35, 20], [5, 20, 35]);
      && WellFormed(SMALL, SmallStart())
      && Fits(SMALL, Tick([true, true, true], first)) && Fits(SMALL, Tick([true, true, true], second))
      && var s := Round3(SMALL, SmallStart(), first, [Acked, Acked, Acked, Acked, Acked, Lost, Acked, Acked]);
      && var t := Round3(SMALL, s, second, [Acked, Acked, Acked, Acked, Acked, Acked, Acked, Acked]);
      && Total(SMALL, t.fleet) == SMALL.limit
      && Total(SMALL, Delivered(t, LostCall(1, 1, 35)).fleet) == SMALL.limit + 15
  {
    hide Play, Next, Sum, NodeShare, RoundInv;
    var first, second := [5, 35, 20], [5, 20, 35];
    SumOfThree(5, 35, 20);
    SumOfThree(5, 20, 35);
    var e1, e2 := Tick([true, true, true], first), Tick([true, true, true], second);
    assert Masked(first, e1.answered) == first && Masked(second, e2.answered) == second;
    var ds := [Acked, Acked, Acked, Acked, Acked, Lost, Acked, Acked];
    FirstRound(ds);
    var s := Round3(SMALL, SmallStart(), first, ds);
    var es := [Acked, Acked, Acked, Acked, Acked, Acked, Acked, Acked];
    SecondRound(s, es);
    var t := Round3(SMALL, s, second, es);
    assert Shares(SMALL, t.fleet) == [5, 20, 35];
    assert Shares(SMALL, Delivered(t, LostCall(1, 1, 35)).fleet) == [5, 35, 35];
    SumOfThree(5, 35, 35);
  }

  lemma FirstRound(ds: seq<Delivery>)
    requires ds == [Acked, Acked, Acked, Acked, Acked, Lost, Acked, Acked]
    requires Fits(SMALL, Tick([true, true, true], [5, 35, 20])) && WellFormed(SMALL, SmallStart())
    ensures Round3(SMALL, SmallStart(), [5, 35, 20], ds).fleet == [Known(5, 1, 60), Known(20, 0, 60), Known(20, 0, 60)]
    ensures Round3(SMALL, SmallStart(), [5, 35, 20], ds).phase == Idle
  {
    hide Play, Sum;
    var e := Tick([true, true, true], [5, 35, 20]);
    assert GoalOf(SMALL, SmallStart().fleet, e) == [5, 35, 20];
    assert e.targets[0] - Shares(SMALL, SmallStart().fleet)[0] == -15;
    Play8(SMALL, Next(SMALL, SmallStart(), e), ds);
  }

  lemma SecondRound(s: System, ds: seq<Delivery>)
    requires ds == [Acked, Acked, Acked, Acked, Acked, Acked, Acked, Acked]
    requires WellFormed(SMALL, s) && s.phase == Idle && Fits(SMALL, Tick([true, true, true], [5, 20, 35]))
    requires s.fleet == [Known(5, 1, 60), Known(20, 0, 60), Known(20, 0, 60)]
    ensures Round3(SMALL, s, [5, 20, 35], ds).fleet == [Known(5, 1, 60), Known(20, 0, 60), Known(35, 2, 60)]
  {
    hide Play, Sum;
    var e := Tick([true, true, true], [5, 20, 35]);
    assert GoalOf(SMALL, s.fleet, e) == [5, 20, 35];
    assert e.targets[2] - Shares(SMALL, s.fleet)[2] == 15;
    Play8(SMALL, Next(SMALL, s, e), ds);
  }
}
