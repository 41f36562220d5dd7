/** The round machine joined to the requests its nodes admit: every node carries a TAT and
    charges each admission at the share it holds at that moment. */
module Joint {
  import opened Seqs
  import opened Gcra
  import opened StaticShares
  import opened ShareGcra
  import opened Rounds
  import opened MovingQuota
  import opened ShareRange

  /** `tats` and `logs` are the nodes' limiters: their TATs, and all they have admitted. */
  datatype Joint = Joint(sys: System, tats: seq<Instant>, logs: seq<seq<Admission>>)

  ghost predicate Sound(cfg: Config, period: int, j: Joint) {
    && WellFormed(cfg, j.sys) && InRange(cfg, j.sys) && cfg.limit <= period
    && |j.tats| == |j.logs| == cfg.nodes
  }

  /** The limiter of node i, at the share it holds. */
  ghost function LimiterOf(cfg: Config, period: int, j: Joint, i: nat): (h: ShareHistory)
    requires Sound(cfg, period, j) && i < cfg.nodes
    ensures EnforcedQuota(h.quota) <= period
  {
    ShareHistory(j.tats[i], Share(cfg, j.sys.fleet[i]), j.logs[i])
  }

  ghost function Admit(cfg: Config, period: int, j: Joint, i: nat, now: Instant): (j': Joint)
    requires Sound(cfg, period, j) && i < cfg.nodes
    ensures Sound(cfg, period, j') && j'.sys == j.sys
  {
    var h := ServeOp(LimiterOf(cfg, period, j, i), Arrive(now), period, NODE_BURST);
    Joint(j.sys, j.tats[i := h.tat], j.logs[i := h.log])
  }

  ghost function JointNext(cfg: Config, period: int, j: Joint, e: Event): (j': Joint)
    requires Sound(cfg, period, j) && Fits(cfg, e)
    ensures Sound(cfg, period, j') && j'.sys == Next(cfg, j.sys, e)
  {
    StepKeepsRange(cfg, j.sys, e);
    var moved := j.(sys := Next(cfg, j.sys, e));
    if e.Request? && e.node < cfg.nodes then Admit(cfg, period, moved, e.node, e.now) else moved
  }

  ghost function JointExec(cfg: Config, period: int, j: Joint, events: seq<Event>): (j': Joint)
    requires Sound(cfg, period, j) && AllFit(cfg, events)
    ensures Sound(cfg, period, j')
  {
    if events == [] then j
    else JointNext(cfg, period, JointExec(cfg, period, j, Init(events)), Last(events))
  }

  ghost function JointFresh(cfg: Config, period: int): (j: Joint)
    requires cfg.Valid() && cfg.limit <= period
    ensures Sound(cfg, period, j)
  {
    StaticShareInRange(cfg);
    Joint(Fresh(cfg), seq(cfg.nodes, _ => ZERO_TIME), seq(cfg.nodes, _ => []))
  }

  /** What the whole system admits in [lo, hi). */
  ghost function SystemAdmissions(j: Joint, lo: int, hi: int): int {
    Sum(Counts(j, lo, hi))
  }

  ghost function Counts(j: Joint, lo: int, hi: int): (s: seq<int>)
    ensures |s| == |j.logs|
  {
    seq(|j.logs|, i requires 0 <= i < |j.logs| => CountIn(Times(j.logs[i]), lo, hi))
  }

  // ----- each node's limiter in a joint run -----

  /** What an event means to node i's shareState. */
  function OpOf(cfg: Config, s: System, e: Event, i: nat): Op
    requires WellFormed(cfg, s) && Fits(cfg, e) && i < cfg.nodes
  {
    if e.Request? && e.node == i then Arrive(e.now) else SetQuota(Share(cfg, Next(cfg, s, e).fleet[i]))
  }

  ghost function OpsOf(cfg: Config, events: seq<Event>, i: nat): (ops: seq<Op>)
    requires cfg.Valid() && AllFit(cfg, events) && i < cfg.nodes
    ensures |ops| == |events|
  {
    if events == [] then []
    else OpsOf(cfg, Init(events), i) + [OpOf(cfg, Exec(cfg, Fresh(cfg), Init(events)), Last(events), i)]
  }

  lemma NextAt(cfg: Config, period: int, j: Joint, e: Event, i: nat)
    requires Sound(cfg, period, j) && Fits(cfg, e) && i < cfg.nodes
    ensures LimiterOf(cfg, period, JointNext(cfg, period, j, e), i)
         == ServeOp(LimiterOf(cfg, period, j, i), OpOf(cfg, j.sys, e, i), period, NODE_BURST)
  {
    hide NodeShare, Step, ShareRate;
    if e.Request? { RequestKeepsShare(cfg, j.sys, e, i); }
  }

  lemma RequestKeepsShare(cfg: Config, s: System, e: Event, i: nat)
    requires WellFormed(cfg, s) && e.Request? && i < cfg.nodes
    ensures Share(cfg, Next(cfg, s, e).fleet[i]) == Share(cfg, s.fleet[i])
  {
    hide NodeShare;
  }

  /** Every joint run is, at each node, a run of its shareState in which setQuota is called
      when and as the rounds say; the system half is the run of the round machine. */
  lemma {:induction false} NodeRun(cfg: Config, period: int, events: seq<Event>, i: nat)
    requires cfg.Valid() && cfg.limit <= period && AllFit(cfg, events) && i < cfg.nodes
    ensures
      var j, first := JointExec(cfg, period, JointFresh(cfg, period), events), NodeShare(cfg.limit, cfg.nodes);
      && j.sys == Exec(cfg, Fresh(cfg), events)
      && QuotasFit(first, OpsOf(cfg, events, i), period)
      && LimiterOf(cfg, period, j, i) == ServeOps(first, OpsOf(cfg, events, i), period, NODE_BURST)
  {
    hide NodeShare, ServeOp, JointNext, Next, Fits;
    if events == [] {
      StaticShareInRange(cfg);
    } else {
      NodeRun(cfg, period, Init(events), i);
      var j := JointExec(cfg, period, JointFresh(cfg, period), Init(events));
      NextAt(cfg, period, j, Last(events), i);
      assert Init(OpsOf(cfg, events, i)) == OpsOf(cfg, Init(events), i);
    }
  }

  // ----- a bound on every joint run -----

  lemma {:induction false} SharesFit(cfg: Config, events: seq<Event>, i: nat)
    requires cfg.Valid() && AllFit(cfg, events) && i < cfg.nodes
    ensures QuotasFit(NodeShare(cfg.limit, cfg.nodes), OpsOf(cfg, events, i), cfg.limit)
  {
    hide NodeShare, Next, Fits;
    StaticShareInRange(cfg);
    if events != [] {
      SharesFit(cfg, Init(events), i);
      RunInRange(cfg, events);
    }
  }

  /** On every run, polls answered or not and in whatever order timestamps come, each node
      admits in any window at most what the whole limit would let it, and one more per
      doubling of the smallest charge up to a period, however often the shares move. */
  lemma MovingSharesBound(cfg: Config, period: int, events: seq<Event>, lo: int, len: int)
    requires cfg.Valid() && cfg.limit <= period && AllFit(cfg, events) && len >= 1
    ensures
      var j := JointExec(cfg, period, JointFresh(cfg, period), events);
      SystemAdmissions(j, lo, lo + len) <= cfg.nodes * MovingMax(cfg.limit, period, len)
  {
    hide JointExec, Sum, CountIn, MovingMax, Fits, NodeShare, ServeOps, OpsOf, QuotasFit;
    var j := JointExec(cfg, period, JointFresh(cfg, period), events);
    var most := seq(cfg.nodes, _ => MovingMax(cfg.limit, period, len));
    forall i | 0 <= i < cfg.nodes ensures Counts(j, lo, lo + len)[i] <= most[i] {
      NodeRun(cfg, period, events, i);
      SharesFit(cfg, events, i);
      MovingQuotaWindow(NodeShare(cfg.limit, cfg.nodes), OpsOf(cfg, events, i), period, cfg.limit, lo, len);
    }
    SumMono(Counts(j, lo, lo + len), most);
    ConstantSum(most, MovingMax(cfg.limit, period, len));
  }
}
