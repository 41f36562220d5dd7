# A verified model of the RelayAPI rate limiter

RelayAPI limits requests per customer on several nodes that share no memory. This
project models three layers and proves what holds across them.

* **Admission.** One timestamp per customer (TAT), in the virtual-scheduling form of GCRA
  (Annex A of ITU-T Recommendation I.371): `Gcra`, `GcraLog`, `GcraOptimality`,
  `GcraDecisions`; the striped store and limiter above it: `Keyed`, `Store`; the fixed
  partition over nodes and its system-wide bound: `StaticShares`, `StaticBound`.
* **Rebalancing.** The GCRA whose quota moves while its TAT carries on: `ShareGcra`,
  `MovingQuota`, `MovingReached`; the largest-remainder split: `Split`, `Targets`, and the
  demand that weighs it: `Demand`; shrink-before-grow rounds as a state machine of poll,
  shrink calls, gate and grow calls, with client requests in between: `Rounds`,
  `RoundSafety`, `RoundOutcomes`, `ShareRange`, `Handover`, `ShareExtremes`, `RoundLimits`,
  `Fencing`; calls that arrive after they were given up on: `LateCalls`, `LateExtremes`;
  limits that change: `LimitChanges`; the rounds and the timed requests that the nodes
  admit, as one machine: `Joint`, `JointRuns`, `SharesOverTime`, `PeerWitness`, `PeerBound`;
  the peers' own objects and their runs: `PeerNode`, `Rebalance`, `ClusterRuns`,
  `ClusterLimits`.
* **Policy and measurement.** Validation and resolution: `Policy`; the harness's rolling
  maximum: `Rolling`.

`Seqs` holds sequence counting. `Sorting` stands for Go's `sort.Slice`: its callers use only
its contract, which leaves the order of equal keys open.

## How the model reads the program

* Instants are whole nanoseconds since Go's zero time, so the zero TAT is never later than
  an arrival. Durations and counts are mathematical integers.
* `decide` and `shareState.allow` repeat one formula; it is written once, as `Gcra.Step`,
  and `ShareState.Allow` is the program's own code proved against it.
* `proportionalSplit` uses exact quotients and remainders where the program uses float64.
  `Demand` derives the weights from the requests of a run, with the moving average over the
  reals; elsewhere any positive weights stand for them (`FitsIff`).
* Each locked region is one step. In particular `handleApplyShare` releases its lock
  between fencing and `setQuota`; the model takes the two together.
* Each call of a round is lost, applied with its reply lost, or applied and acknowledged.
  In `Rounds` it is not delivered after it has returned; `LateCalls` lifts that.
* A node that has not seen the customer counts at the static share, which is what the
  proposer assumes of it and what it would bootstrap to. The customer's limit is fixed
  through a run of `Rounds`; `LimitChanges` lifts that.
* Node ids are positions in the sorted peer list, and every peer is configured with
  the same node count.
* A share's emission is zero, and the program divides by it, once the quota exceeds the
  period in nanoseconds; `Allow` requires that it does not.

## Where the code and its documentation part

* Shares are said never to total more than the limit. `LimitKeptIff` says exactly when that
  holds: with every poll answered, when N divides the limit; with polls unanswered, or with
  zeros counted as they are enforced, when besides no round can fire. Bootstrap shares round up (`RunTotal`), silent nodes keep their share on
  top of the new split (`RoundSafeIff`, `SilentNodeOverAllocates`), up to N * L in all
  (`AnyRunTotal`, `AnyRunTotalReached`), and zero shares are enforced as one, up to L + N - 1
  in all (`RunEnforced`, `EnforcedMostReached`).
* Fencing is said to stop any delayed message of an abandoned round. It does so only at
  nodes that a later round has touched (`LateGrowOverAllocates`); `LateCallIff` says exactly
  when a late call is harmless, `LateRunStaysBounded` what a run with such calls keeps, and
  `AnyLateRunTotal` and `AnyLateRunTotalReached` how far any late calls can take it.
  Round numbers come from the proposer's own last applied round, so they repeat after any
  round that left its share alone (`CompletedRound`), and nodes can then be fenced out
  (`FencedShrinkStalls`).
* `N * (ceil(L / N) + burst)` is said to hold for both coordinators. It holds for static
  shares (`StaticSystemBound`). For the peer coordinator it holds exactly when the static
  share divides the period and no round can ever fire (`DocumentedBoundIff`): the
  rounded-down emission breaks it in the one case (`ConstantShareWindow`), moving shares in
  the other (`HandoverExceeds`, `RebalancingExceedsDocumentedBound`). `MovingSharesBound`
  holds always, and `RoundsInWindowBound` when polls are answered and time runs forward.
* `maxRolling60s` counts closed windows, although its comment says half-open. Judged
  against a half-open bound, a sound run can fail (`VerdictSoundIff`).
* Grace that runs past midnight is not enforced (`GraceHonouredIff`).

## Model

| member | source | states |
|---|---|---|
| `Gcra.Params.EmissionInterval` | submissions/Shreesh-Sree/promise-them-nothing-twice/solution/internal/ratelimit/gcra.go:30-32 | the interval is the least integer e with quota * e >= period, so a period never holds more than quota of them |
| `GcraLog.TatIsLog` | submissions/Shreesh-Sree/promise-them-nothing-twice/solution/internal/ratelimit/gcra.go:49-91 | after any run, in any timestamp order, the one stored TAT is the maximum over the admissions a_i of a_i + (n - i) * emission (n admissions, i from 0) |
| `GcraLog.DecisionIsLogDecision` | submissions/Shreesh-Sree/promise-them-nothing-twice/solution/internal/ratelimit/gcra.go:49-91 | a request is admitted if and only if a limiter that kept the whole log of admissions would admit it |
| `GcraLog.LogConforms` | submissions/Shreesh-Sree/promise-them-nothing-twice/solution/internal/ratelimit/gcra.go:49-71 | every two admissions, in decision order, are spaced by (j - i - burst) emissions |
| `GcraLog.WindowBounded` | submissions/Shreesh-Sree/promise-them-nothing-twice/solution/internal/ratelimit/gcra.go:49-71 | any window of any length, at any position, holds at most ceil(length / emission) + burst admissions, with no assumption on timestamp order |
| `GcraLog.WindowMaxIsExact` | submissions/Shreesh-Sree/promise-them-nothing-twice/solution/internal/ratelimit/gcra.go:30-71 | that maximum is exact: some run reaches a count in a window of this length if and only if the count is not above it |
| `GcraLog.RollingWindow` | submissions/Shreesh-Sree/promise-them-nothing-twice/solution/internal/ratelimit/gcra.go:5-12 | any half-open period window holds at most quota + burst admissions; a closed one at most one more, and only when the quota divides the period |
| `GcraLog.RollingWindowReached` | submissions/Shreesh-Sree/promise-them-nothing-twice/solution/internal/ratelimit/gcra.go:5-32 | some run reaches quota + burst in a half-open period if and only if (quota - 1) * emission < period, and quota + burst + 1 in a closed one if and only if the quota divides the period |
| `GcraLog.JitterTolerated` | submissions/Shreesh-Sree/promise-them-nothing-twice/solution/internal/coordinator/coordinator.go:30-45 | a fresh customer whose i-th request comes within the burst tolerance after base + i * emission has every request admitted, for runs of any length |
| `GcraLog.JitterToleranceTight` | submissions/Shreesh-Sree/promise-them-nothing-twice/solution/internal/coordinator/coordinator.go:30-45 | one nanosecond more of jitter and a request can be rejected |
| `GcraOptimality.GreedyIsOptimal` | submissions/Shreesh-Sree/promise-them-nothing-twice/solution/internal/ratelimit/gcra.go:49-91 | for requests in time order, at every prefix the limiter has admitted at least as many as any selection of the requests that keeps the spacing |
| `GcraOptimality.RaisingLimitsAdmitsMore` | submissions/Shreesh-Sree/promise-them-nothing-twice/solution/internal/ratelimit/gcra.go:13-32 | for requests in time order, raising quota or burst never lowers the number admitted at any prefix |
| `GcraDecisions.RemainingIsExact` | submissions/Shreesh-Sree/promise-them-nothing-twice/solution/internal/ratelimit/decision.go:15-18 | for admissions and rejections alike, Remaining is exactly the number of further requests at the same instant that are admitted before the first rejection |
| `GcraDecisions.RetryAfterIsExact` | submissions/Shreesh-Sree/promise-them-nothing-twice/solution/internal/ratelimit/decision.go:20-23 | from any stored TAT and for every decision, the request coming later by some wait instead is admitted if and only if the wait is at least RetryAfter |
| `GcraDecisions.DecisionReports` | submissions/Shreesh-Sree/promise-them-nothing-twice/solution/internal/ratelimit/decision.go:15-32 | every decision reports the quota it was made under; the reason is admitted if and only if the request is; Remaining is zero on a rejection and RetryAfter zero on an admission |
| `GcraDecisions.RetryAfterIsLeastWait` | submissions/Shreesh-Sree/promise-them-nothing-twice/solution/internal/ratelimit/decision.go:20-23 | RetryAfter is positive on a rejection, and a retry after a wait is admitted if and only if the wait is at least RetryAfter |
| `GcraDecisions.RejectionsLeaveNoTrace` | submissions/Shreesh-Sree/promise-them-nothing-twice/solution/internal/ratelimit/gcra.go:47-65 | deleting any rejected requests from a trace changes no other decision, nor the TAT |
| `Store.Store.ShardFor` | submissions/Shreesh-Sree/promise-them-nothing-twice/solution/internal/ratelimit/store.go:43-47 | whatever the hash, the key is sent to one of the store's own shards |
| `Store.Store.constructor` | submissions/Shreesh-Sree/promise-them-nothing-twice/solution/internal/ratelimit/store.go:35-41 | a new store has 32 distinct empty shards and stands for the empty map |
| `Store.Store.WithTat` | submissions/Shreesh-Sree/promise-them-nothing-twice/solution/internal/ratelimit/store.go:52-61 | for any hash function, reading and writing through the key's shard is one read and one write of a single map from key to TAT, absent keys reading as the zero time |
| `Store.Limiter.AllowAt` | submissions/Shreesh-Sree/promise-them-nothing-twice/solution/internal/ratelimit/gcra.go:119-123 | the limiter gives the decision of decide on the customer's own TAT, reporting its own quota and the reason, and changes no other customer's |
| `Keyed.KeysAreIsolated` | submissions/Shreesh-Sree/promise-them-nothing-twice/solution/internal/ratelimit/store.go:12-28 | in every interleaving each key gets exactly the decisions and TAT it would get running alone |
| `Keyed.AdmittedOfKey` | submissions/Shreesh-Sree/promise-them-nothing-twice/solution/internal/ratelimit/store.go:43-61 | the admissions of one key in an interleaved run are the log of that key's own run |
| `StaticShares.SharesCoverLimit` | submissions/Shreesh-Sree/promise-them-nothing-twice/solution/internal/coordinator/static.go:64-74 | the rounded-up shares sum to at least the limit and to less than one per node above it |
| `StaticShares.Static.LimiterFor` | submissions/Shreesh-Sree/promise-them-nothing-twice/solution/internal/coordinator/static.go:82-99 | the cached limiter for (customer, limit) is returned, or one at the node's share is added under that key and no other; no other entry and no history changes |
| `StaticShares.Static.Allow` | submissions/Shreesh-Sree/promise-them-nothing-twice/solution/internal/coordinator/static.go:76-80 | the node's decisions over its whole history are those of one GCRA per (customer, limit), and each reports the node's share as its limit |
| `StaticBound.StaticSystemBound` | submissions/Shreesh-Sree/promise-them-nothing-twice/solution/internal/coordinator/static.go:64-99 | across N nodes, in any half-open minute and even when limits alternate, a customer is admitted at most the sum over the limits in force of N * (ceil(L / N) + burst) |
| `StaticBound.OneLimitBound` | submissions/Shreesh-Sree/promise-them-nothing-twice/solution/internal/coordinator/static.go:64-74 | under one limit L the system admits at most L + N - 1 + N * burst in a half-open minute |
| `StaticBound.DocumentedBoundReached` | submissions/Shreesh-Sree/promise-them-nothing-twice/solution/internal/coordinator/static.go:64-74 | under one limit some run of the whole system reaches N * (ceil(L / N) + burst) in a half-open minute if and only if the last of a node's share of emissions still starts inside the minute |
| `StaticBound.SafetyBoundIsDocumented` | submissions/Shreesh-Sree/promise-them-nothing-twice/solution/cmd/harness/scenarios.go:115-135 | the harness bound is N * (ceil(L / N) + burst) at N = 3 |
| `StaticBound.VerdictMeans` | submissions/Shreesh-Sree/promise-them-nothing-twice/solution/cmd/harness/scenarios.go:128-146 | the verdict fails if and only if the measured maximum is above three shares and three bursts |
| `StaticBound.VerdictSoundIff` | submissions/Shreesh-Sree/promise-them-nothing-twice/solution/cmd/harness/scenarios.go:137-146 | every run of the static coordinator gets PASS on every closed minute if and only if a node's share does not divide the minute |
| `ShareGcra.ShareState.SetQuota` | submissions/Shreesh-Sree/promise-them-nothing-twice/solution/internal/coordinator/share_gcra.go:39-48 | only the quota changes; the TAT is untouched |
| `ShareGcra.ShareState.Allow` | submissions/Shreesh-Sree/promise-them-nothing-twice/solution/internal/coordinator/share_gcra.go:56-102 | the decision and new TAT are those of the shared GCRA step at emission floor(period / max(quota, 1)), reported under the limit max(quota, 1) with the right reason; the quota is untouched |
| `ShareGcra.ChargeBound` | submissions/Shreesh-Sree/promise-them-nothing-twice/solution/internal/coordinator/share_gcra.go:44-102 | for every interleaving of allow and setQuota, what the admissions of a window charged before any one of them is less than the window plus burst times that one's emission |
| `ShareGcra.MovingQuotaCount` | submissions/Shreesh-Sree/promise-them-nothing-twice/solution/internal/coordinator/share_gcra.go:44-102 | while shares move, the admissions of a window before any one of them, times the cheapest emission charged in it, stay below the window plus burst times that one's emission |
| `MovingQuota.MovingQuotaWindow` | submissions/Shreesh-Sree/promise-them-nothing-twice/solution/internal/coordinator/share_gcra.go:44-102 | however often the quota moves between one and L, and in whatever timestamp order, a window holds at most ceil(window / floor(period / L)) + burst admissions, and one more per doubling of floor(period / L) up to the period (about log2 L) |
| `MovingReached.MovingMaxReached` | submissions/Shreesh-Sree/promise-them-nothing-twice/solution/internal/coordinator/share_gcra.go:44-102 | that bound is met when L = 2^k divides the period, floor(period / L) >= L - 1 and the window is a whole number of emissions: the quota is cut to 2^k - 1, ..., 3, 1 at the window's last instant |
| `ShareGcra.ConstantQuotaRun` | submissions/Shreesh-Sree/promise-them-nothing-twice/solution/internal/coordinator/share_gcra.go:60-102 | without setQuota the run is the plain GCRA run at the rounded-down emission |
| `ShareGcra.ConstantShareWindow` | submissions/Shreesh-Sree/promise-them-nothing-twice/solution/internal/coordinator/share_gcra.go:64-88 | at a constant quota some run reaches quota + burst in a half-open period, more if and only if the quota does not divide the period, and never more than one more while the quota is at most its emission |
| `ShareGcra.ShareAdmitsAtLeast` | submissions/Shreesh-Sree/promise-them-nothing-twice/solution/internal/coordinator/share_gcra.go:22-27 | for requests in time order a share at a constant quota admits at least as many as ratelimit at every prefix |
| `ShareGcra.ShareAgreesIff` | submissions/Shreesh-Sree/promise-them-nothing-twice/solution/internal/coordinator/share_gcra.go:22-27 | the two implementations give the same decisions and TATs on every run if and only if the quota divides the period |
| `Split.ProportionalSplit` | submissions/Shreesh-Sree/promise-them-nothing-twice/solution/internal/coordinator/peer.go:629-677 | the result is a largest-remainder split of the total: nonnegative entries that sum to it, each less than one from its exact share, and for all-zero weights any two at most one apart |
| `Split.SplitIsExact` | submissions/Shreesh-Sree/promise-them-nothing-twice/solution/internal/coordinator/peer.go:629-669 | the split sums to exactly the total, the leftover is below the number of weights, and every entry is nonnegative and the floor or ceiling of its exact share |
| `Split.SplitIsOptimal` | submissions/Shreesh-Sree/promise-them-nothing-twice/solution/internal/coordinator/peer.go:653-669 | no integer vector with the same sum has a smaller sum of absolute deviations from the exact shares, whichever way equal remainders are sorted |
| `Targets.FitsIff` | submissions/Shreesh-Sree/promise-them-nothing-twice/solution/internal/coordinator/peer.go:503-516 | a tick's targets are admissible in the round machine if and only if they are a largest-remainder split of the limit over the answering nodes by some positive weights |
| `Demand.HeavyTakesAll` | submissions/Shreesh-Sree/promise-them-nothing-twice/solution/internal/coordinator/peer.go:503-516 | a node whose weight is at least 2 L times all the others' together gets the whole limit |
| `Demand.SmoothDemandMeans` | submissions/Shreesh-Sree/promise-them-nothing-twice/solution/internal/coordinator/peer.go:458-474 | a first report is taken as it is, a later one moves the average a fifth of the way and never past what was reported |
| `Demand.TallySincePoll` | submissions/Shreesh-Sree/promise-them-nothing-twice/solution/internal/coordinator/peer.go:410-421 | an answered poll reports what the node counted since the poll before, and the count starts again |
| `Rounds.WorthMeans` | submissions/Shreesh-Sree/promise-them-nothing-twice/solution/internal/coordinator/peer.go:518-529 | a round is worth its calls if and only if some share would move by fifteen or more |
| `Rounds.StepKeepsRound` | submissions/Shreesh-Sree/promise-them-nothing-twice/solution/internal/coordinator/peer.go:534-572 | every step of the protocol, client requests included, keeps the round invariant: a node is untouched, or moved to its target by an unfenced call, and the gate opens only when every shrinking node has moved |
| `RoundSafety.RunStaysBounded` | submissions/Shreesh-Sree/promise-them-nothing-twice/solution/internal/coordinator/peer.go:518-569 | if every poll is answered, then from any state of any round the shares total at most any bound that covers the present total and the limit, at every step and whatever happens to the calls |
| `RoundSafety.RunTotal` | submissions/Shreesh-Sree/promise-them-nothing-twice/solution/internal/coordinator/peer.go:479-572 | from a fresh start the shares total at most N * ceil(L / N) at every step of every run, and at most L in every state of a grow phase |
| `RoundSafety.OnceWithinLimit` | submissions/Shreesh-Sree/promise-them-nothing-twice/solution/internal/coordinator/peer.go:311-321 | once the total is at most the limit it stays so |
| `RoundSafety.RoundSafeIff` | submissions/Shreesh-Sree/promise-them-nothing-twice/solution/internal/coordinator/peer.go:489-569 | a round begun within any bound, some polls unanswered, stays within it under every fate of its calls if and only if its gate cannot open or the bound covers the limit and the silent nodes' shares, less the growth that fences will refuse |
| `ShareRange.AnyRunTotal` | submissions/Shreesh-Sree/promise-them-nothing-twice/solution/internal/coordinator/peer.go:479-572 | from a fresh start, with any polls unanswered, the shares total at most N * L at every step of every run |
| `ShareRange.QuietRun` | submissions/Shreesh-Sree/promise-them-nothing-twice/solution/internal/coordinator/peer.go:518-529 | if no target can differ from the static share by the hysteresis, every node keeps the static share on every run |
| `ShareExtremes.AnyRunTotalReached` | submissions/Shreesh-Sree/promise-them-nothing-twice/solution/internal/coordinator/peer.go:489-494 | some run reaches a total of N * L if and only if the static share is already L or a round can fire |
| `ShareExtremes.LimitKeptIff` | submissions/Shreesh-Sree/promise-them-nothing-twice/solution/internal/coordinator/peer.go:311-321 | every run from a fresh start keeps the shares within L, with every poll answered, if and only if N divides L; with polls unanswered, or counting a stored zero as one, if and only if N divides L and no round can fire |
| `LimitChanges.ChangingRunTotal` | submissions/Shreesh-Sree/promise-them-nothing-twice/solution/internal/coordinator/peer.go:195-220 | while requests bring changing limits and polls are answered, the shares total at most N * ceil(L / N) of the largest limit L at every step, and in a grow phase at most the limit being split plus what unseen nodes may yet start from |
| `RoundLimits.SilentNodeOverAllocates` | submissions/Shreesh-Sree/promise-them-nothing-twice/solution/internal/coordinator/peer.go:490-494 | three nodes at 100 of 300, one silent: a round can take the total to 400 |
| `RoundOutcomes.CompletedRound` | submissions/Shreesh-Sree/promise-them-nothing-twice/solution/internal/coordinator/peer.go:534-571 | when every call is acknowledged and no node is ahead of the proposer, the round ends with every answering node at its target, the same tick then sends nothing, the total is the limit if all answered, and the next round is unfenced if and only if the proposer's own share moved |
| `RoundOutcomes.AbandonedRound` | submissions/Shreesh-Sree/promise-them-nothing-twice/solution/internal/coordinator/peer.go:539-554 | when a shrink is unacknowledged the round ends with every share at its starting value or at its smaller target |
| `RoundOutcomes.FencedShrinkStalls` | submissions/Shreesh-Sree/promise-them-nothing-twice/solution/internal/coordinator/peer.go:534-554 | if a node that must shrink is fenced, no delivery gets the round past its gate, and the total never rises |
| `RoundOutcomes.GateNeedsEveryAck` | submissions/Shreesh-Sree/promise-them-nothing-twice/solution/internal/coordinator/peer.go:539-554 | no grow is sent unless every call to another node that must shrink was applied and its reply heard |
| `RoundOutcomes.ProposerAlwaysMoves` | submissions/Shreesh-Sree/promise-them-nothing-twice/solution/internal/coordinator/peer.go:588-604 | whatever the network does to a round's calls, the proposer stands at its own target once its turn is past |
| `ShareExtremes.OnlyGrowingRaisesEnforced` | submissions/Shreesh-Sree/promise-them-nothing-twice/solution/internal/coordinator/peer.go:534-554 | no step outside a grow phase, a shrink to zero included, raises what the nodes enforce |
| `ShareExtremes.RunEnforced` | submissions/Shreesh-Sree/promise-them-nothing-twice/solution/internal/coordinator/share_gcra.go:64-67 | with every poll answered the enforced shares, a stored zero counting as one, total at most L + N - 1 at every step of every run from a fresh start |
| `ShareExtremes.EnforcedMostReached` | submissions/Shreesh-Sree/promise-them-nothing-twice/solution/internal/coordinator/share_gcra.go:64-67 | some such run enforces L + N - 1 if and only if the static shares round up that far or a round can fire |
| `Handover.WholeLimitAtOne` | submissions/Shreesh-Sree/promise-them-nothing-twice/solution/internal/coordinator/peer.go:479-572 | if a round can fire, one request and one fully acknowledged round bring a fresh system to the whole limit at one node and zero at all others |
| `LateCalls.LostMeans` | submissions/Shreesh-Sree/promise-them-nothing-twice/solution/internal/coordinator/peer.go:604-621 | a call is recorded as lost if its step moved nothing and would, acknowledged, have taken the node's fenced step; the proposer's own call never is |
| `LateCalls.LateCallIff` | submissions/Shreesh-Sree/promise-them-nothing-twice/solution/internal/coordinator/peer.go:316-342 | in any state of any round whose total is within a bound, a late call keeps it there if and only if the node's fence refuses it or it raises the node's share by no more than the bound leaves |
| `LateCalls.LateRunStaysBounded` | submissions/Shreesh-Sree/promise-them-nothing-twice/solution/internal/coordinator/peer.go:316-342 | with polls answered, lost calls that still arrive, any number of times, never take the total past a bound that covers it and the limit, as long as each is fenced out, or does not exceed the share it finds, or comes between rounds and fits |
| `LateExtremes.AnyLateRunTotal` | submissions/Shreesh-Sree/promise-them-nothing-twice/solution/internal/coordinator/peer.go:316-342 | with no condition on what arrives late, and however often, the shares of a run from a fresh start total at most N * L |
| `LateExtremes.AnyLateRunTotalReached` | submissions/Shreesh-Sree/promise-them-nothing-twice/solution/internal/coordinator/peer.go:316-342 | some run with every poll answered reaches N * L by late arrivals if and only if the static share is already L or a round can fire |
| `RoundLimits.LateGrowOverAllocates` | submissions/Shreesh-Sree/promise-them-nothing-twice/solution/internal/coordinator/peer.go:316-321 | a grow that lands after its call was given up on passes the fence of a node untouched since and takes the total 15 above the limit |
| `Fencing.HighestRoundWins` | submissions/Shreesh-Sree/promise-them-nothing-twice/solution/internal/coordinator/peer.go:331-342 | with one quota per round number a node ends at the quota of the highest delivered round, if that is above where it stood, and otherwise where it stood |
| `Fencing.OrderDoesNotMatter` | submissions/Shreesh-Sree/promise-them-nothing-twice/solution/internal/coordinator/peer.go:316-342 | two deliveries of the same messages, in any order and with any repeats, leave a node in the same state |
| `Fencing.AppliedRoundsIncrease` | submissions/Shreesh-Sree/promise-them-nothing-twice/solution/internal/coordinator/peer.go:316-346 | the messages a node applies carry ever higher rounds, and a message is applied if and only if its round is above the start's and above that of every earlier applied message |
| `Fencing.RepeatedRoundsDepend` | submissions/Shreesh-Sree/promise-them-nothing-twice/solution/internal/coordinator/peer.go:534-537 | if two messages share a round number the outcome depends on their order unless they carry the same quota |
| `Joint.NodeRun` | submissions/Shreesh-Sree/promise-them-nothing-twice/solution/internal/coordinator/peer.go:188-193 | in every run of rounds and timed requests together, each node's limiter is a run of its shareState whose quota is set when and as the rounds say |
| `Joint.MovingSharesBound` | submissions/Shreesh-Sree/promise-them-nothing-twice/solution/internal/coordinator/coordinator.go:30-35 | on every such run, polls unanswered and timestamps in any order, the system admits in any window at most N times the maximum of a node whose quota moves between one and L |
| `SharesOverTime.SharesOverTimeBound` | submissions/Shreesh-Sree/promise-them-nothing-twice/solution/internal/coordinator/coordinator.go:30-35 | with every poll answered and requests in time order, (period - L + 1) times the admissions of any window is at most the window times (L + N - 1) plus two periods for every node and every move of a share in the window |
| `SharesOverTime.RoundsInWindowBound` | submissions/Shreesh-Sree/promise-them-nothing-twice/solution/internal/coordinator/coordinator.go:30-35 | the same with N moves for every round that starts in the window and for one under way |
| `PeerWitness.HandoverExceeds` | submissions/Shreesh-Sree/promise-them-nothing-twice/solution/internal/coordinator/peer.go:458-516 | if a round can fire, a run whose every target is the split by the demand its own requests created, with nothing lost and time in order, admits more than N * (ceil(L / N) + burst) in a period |
| `PeerBound.DocumentedBoundIff` | submissions/Shreesh-Sree/promise-them-nothing-twice/solution/internal/coordinator/coordinator.go:30-35 | every run from a fresh start admits at most N * (ceil(L / N) + burst) in every half-open period if and only if ceil(L / N) divides the period and no target can differ from it by the hysteresis; the same condition is needed when every poll is answered, every call acknowledged, requests come in time order and every target follows from the demand of the run |
| `PeerBound.RebalancingExceedsDocumentedBound` | submissions/Shreesh-Sree/promise-them-nothing-twice/solution/internal/coordinator/coordinator.go:30-35 | at limit 32 on two nodes the static share divides the minute, and still such a run passes the documented 34 |
| `PeerNode.Peer.CustomerFor` | submissions/Shreesh-Sree/promise-them-nothing-twice/solution/internal/coordinator/peer.go:195-220 | a first sight bootstraps to the static share, or to one without a limit; later a known limit replaces whatever limit was cached, and share, round and TAT stay |
| `PeerNode.Peer.Allow` | submissions/Shreesh-Sree/promise-them-nothing-twice/solution/internal/coordinator/peer.go:188-193 | one GCRA decision at the share the node now holds, reported under that share; the customer's TAT moves, the limit of the request is cached, its share and round stay, and nothing of any other customer changes |
| `PeerNode.Peer.HandleApplyShare` | submissions/Shreesh-Sree/promise-them-nothing-twice/solution/internal/coordinator/peer.go:322-346 | a round above the node's sets share and round, any other changes nothing; the cached limit, the TAT and all other customers are untouched |
| `Rebalance.Send` | submissions/Shreesh-Sree/promise-them-nothing-twice/solution/internal/coordinator/peer.go:590-627 | a lost call changes nothing, a delivered one takes the fenced step, and only one whose reply is heard can report acknowledgement |
| `Rebalance.CallPhase` | submissions/Shreesh-Sree/promise-them-nothing-twice/solution/internal/coordinator/peer.go:541-569 | a shrink or grow phase over the peers' own objects is that phase of the round machine |
| `Rebalance.MakePlan` | submissions/Shreesh-Sree/promise-them-nothing-twice/solution/internal/coordinator/peer.go:489-516 | the targets split the limit over the nodes that answered by largest remainder; silent nodes keep their share |
| `Rebalance.RebalanceCustomer` | submissions/Shreesh-Sree/promise-them-nothing-twice/solution/internal/coordinator/peer.go:479-572 | one tick leaves the peers exactly where the round machine puts them for a largest-remainder split, over the answering nodes, of the limit the proposer has cached, keeps every TAT and touches no other customer |
| `ClusterRuns.ServeRequest` | submissions/Shreesh-Sree/promise-them-nothing-twice/solution/internal/coordinator/peer.go:188-193 | one Allow on the objects is the request step of the joint machine, and is admitted if and only if the machine logs it |
| `ClusterRuns.Drive` | submissions/Shreesh-Sree/promise-them-nothing-twice/solution/internal/coordinator/peer.go:188-572 | any run of Allow and RebalanceCustomer over peers that have not seen the customer is a run of the joint machine over the requests, splits and calls its inputs stand for, TATs included |
| `ClusterLimits.ServeResolved` | submissions/Shreesh-Sree/promise-them-nothing-twice/solution/internal/coordinator/peer.go:188-220 | while limits change, one Allow on the objects is the request step of the machine with changing limits, and the node has then cached the limit it brought |
| `ClusterLimits.TickAtLimit` | submissions/Shreesh-Sree/promise-them-nothing-twice/solution/internal/coordinator/peer.go:479-572 | one fully answered tick on the objects is a run of that machine, and its targets sum to the limit the proposer has cached |
| `Policy.Config.Validate` | submissions/Shreesh-Sree/promise-them-nothing-twice/solution/internal/policy/config.go:97-210 | a configuration is accepted if and only if it meets every stated rule, every fault is a true complaint about it, and an overlap is reported if and only if every other check passes and two windows of that customer clash |
| `Policy.CustomersMean` | submissions/Shreesh-Sree/promise-them-nothing-twice/solution/internal/policy/config.go:102-127 | the rules for customers: named once, on a known tier, with exactly one of the two limits set and positive |
| `Policy.OverridesMean` | submissions/Shreesh-Sree/promise-them-nothing-twice/solution/internal/policy/config.go:129-183 | the rules for overrides: owner, ticket, reason, an expiry date after now, a window that ends after it starts, and a limit above the customer's own or else its tier's |
| `Policy.AcceptedMeans` | submissions/Shreesh-Sree/promise-them-nothing-twice/solution/internal/policy/config.go:185-207 | a configuration that keeps those rules is accepted if and only if no two overrides of a customer share a time of day in their windows and minutes of grace |
| `Policy.OverlapIsSharedTime` | submissions/Shreesh-Sree/promise-them-nothing-twice/solution/internal/policy/config.go:185-207 | the pair test holds if and only if some time of day lies in both padded windows |
| `Policy.OverlapIsSharedInstant` | submissions/Shreesh-Sree/promise-them-nothing-twice/solution/internal/policy/resolver.go:96-130 | two overrides clash if and only if, on any day that both outlast, some instant finds both active |
| `Policy.AtMostOneActive` | submissions/Shreesh-Sree/promise-them-nothing-twice/solution/internal/policy/config.go:185-189 | in an accepted configuration at most one override of a customer is active at any instant |
| `Policy.AcceptedIsOrderIndependent` | submissions/Shreesh-Sree/promise-them-nothing-twice/solution/internal/policy/resolver.go:72-94 | an accepted configuration resolves every customer at every instant the same, however its customers and overrides are ordered |
| `Policy.OrderIndependentIff` | submissions/Shreesh-Sree/promise-them-nothing-twice/solution/internal/policy/config.go:185-189 | among configurations passing the other checks, resolution is independent of order if and only if no two overrides of a customer are ever active together with different limits |
| `Policy.LimitAtLeastContracted` | submissions/Shreesh-Sree/promise-them-nothing-twice/solution/internal/policy/resolver.go:67-94 | a known customer gets at least its contracted limit, which is at least one, and more if and only if one of its overrides is active; an unknown customer gets nothing |
| `Policy.GraceHonouredIff` | submissions/Shreesh-Sree/promise-them-nothing-twice/solution/internal/policy/resolver.go:106-130 | from any day on, every instant of window plus grace is covered if and only if it ends by midnight, or the window starts at midnight, or the override expires with that day |
| `Policy.Resolver.Reload` | submissions/Shreesh-Sree/promise-them-nothing-twice/solution/internal/policy/resolver.go:49-65 | the configuration is swapped in, ready to be served, if and only if it loads and validates; otherwise the one being served stays |
| `Policy.ResolvedAsGiven` | submissions/Shreesh-Sree/promise-them-nothing-twice/solution/internal/policy/resolver.go:67-94 | over an accepted file: a customer gets the limit of its override in force by the file's own date, window and grace, or else its own limit where it has one and its tier's where it has none |
| `Policy.Resolver.Resolve` | submissions/Shreesh-Sree/promise-them-nothing-twice/solution/internal/policy/resolver.go:72-94 | the loops find the customer and its first active override in list order, and what is answered while a validated file is served is what that file says |
| `Rolling.MaxRolling60s` | submissions/Shreesh-Sree/promise-them-nothing-twice/solution/cmd/harness/analysis.go:48-79 | no interval of at most 60 seconds, at any position, holds more answered and admitted records than the result; the returned endpoints are receipt times of such records and delimit exactly that many |
| `Rolling.CountPermuted` | submissions/Shreesh-Sree/promise-them-nothing-twice/solution/cmd/harness/analysis.go:58-65 | how many timestamps a window holds does not depend on their order |
| `Rolling.CountOnRecords` | submissions/Shreesh-Sree/promise-them-nothing-twice/solution/cmd/harness/analysis.go:59-64 | the timestamps counted are those of the answered and admitted records, one each |
| `Rolling.Search` | submissions/Shreesh-Sree/promise-them-nothing-twice/solution/cmd/harness/analysis.go:68-70 | the search finds the first timestamp not before the bound |
| `Sorting.SortSlice` | submissions/Shreesh-Sree/promise-them-nothing-twice/solution/cmd/harness/analysis.go:65-65 | the slice ends in key order with the same elements |

## Left out

- HTTP handlers, JSON, headers, retry jitter, logging and audit records: plumbing around the decisions modelled here.
- Goroutines, tickers, mutexes and real clocks: each locked region is one step and arrival times are inputs.
- Policy.Config.Validate: does not say which of several faults is reported first.
- PeerNode.Peer.Allow: does not carry the demand counter it increments, which no decision reads; `Demand` models the counters over runs.
- Split.ProportionalSplit: takes exact quotients and remainders where the program takes float64 ones, because rounding is not its point.
- Demand counters in the objects and float64 rounding in the split: `Rebalance` takes arbitrary weights, and splits and averages are exact.
- Peer health, status timestamps and `QuotaState`: reports that decide nothing.
- Changing limits in `Joint`, `LateCalls` and the runs of `ClusterRuns`: `LimitChanges` and `ClusterLimits` treat their effect on shares, with polls answered.
- Ticks over many customers: `RebalanceCustomer` handles one customer and is proved to leave all others alone.
- Proposer failover and convergence over repeated failures: the code provides neither.
- YAML loading, date and time parsing, SIGHUP wiring and the dev clock: parsed offsets and expiry days are inputs.
- int64 and duration overflow: outside realistic limits.
- The harness's load generation, scenarios, cross-check and printing: only its bound, verdict and rolling maximum are modelled.
- The fixed-window limiter behind a build tag: a deliberately broken demonstration.
- `hash/fnv`: the store is proved for every hash function instead.
- MovingReached.MovingMaxReached: gives a condition under which the bound is met, not the exact maximum for every limit.
- Late calls in `Joint` and in the objects of `Rebalance`: `LateCalls` treats their effect on shares.
- StaticBound.VerdictSoundIff: takes the harness's timestamps to be the nodes' own arrival instants, which real clients see only approximately.
