/** The delay penalty, implemented three times in the program: as a proof status, as a stake percent and
    as the length of the proof window. Heights and block counts are uint32 values, percents uint64. */
module Penalty {
  import opened Words
  import opened Maps

  datatype Config = Config(
    proofWindow: nat,
    triggerBlocks: nat,
    stepBlocks: nat,
    stepPercent: nat,
    stage3Blocks: seq<nat>,
    stage2Start: nat,
    stage3Start: nat)

  datatype Status = Valid | InvalidHash | InvalidDuplicate | ValidDelayed | Expired

  const DEFAULT_BLOCKS: seq<nat> := [720, 840, 960, 1080, 1200, 1320, 1440]
  const STAGE3_PERCENTS: seq<nat> := [100, 95, 87, 75, 59, 35, 10]
  const STAGE1_PERCENT: nat := 95

  predicate Increasing(blocks: seq<nat>) {
    forall i, j :: 0 <= i < j < |blocks| ==> blocks[i] < blocks[j]
  }

  predicate WellFormedBlocks(blocks: seq<nat>) {
    |blocks| == 7 && Increasing(blocks) && forall i :: 0 <= i < 7 ==> 0 < blocks[i] < UINT32
  }

  /** What loading a configuration guarantees: zero values keep their positive defaults. */
  predicate Loaded(c: Config) {
    && 0 < c.proofWindow < UINT32 && c.triggerBlocks < UINT32
    && 0 < c.stepBlocks < UINT32 && 0 < c.stepPercent < UINT64
    && WellFormedBlocks(c.stage3Blocks)
    && 0 < c.stage2Start < UINT32 && 0 < c.stage3Start < UINT32
  }

  // ---- first implementation: proof status ----

  function OrDefault(blocks: seq<nat>): (r: seq<nat>)
    ensures |r| == 7
  {
    if |blocks| != 7 then DEFAULT_BLOCKS else blocks
  }

  function StepPenalty(stepBlocks: nat, stepPercent: nat, delay: nat): nat
    requires stepBlocks > 0 && delay > 0
  {
    ((delay - 1) / stepBlocks * stepPercent) % UINT64
  }

  function Stage2Status(c: Config, prove: nat, height: nat): Status {
    if height <= prove || c.stepBlocks == 0 || c.stepPercent == 0 then Valid
    else
      var penalty := StepPenalty(c.stepBlocks, c.stepPercent, height - prove);
      if penalty >= 100 then Expired else if penalty > 0 then ValidDelayed else Valid
  }

  function Stage3Status(blocks: seq<nat>, prove: nat, height: nat): Status {
    if height <= prove then Valid
    else
      var delay := height - prove;
      if delay > OrDefault(blocks)[6] then Expired else if delay > OrDefault(blocks)[0] then ValidDelayed else Valid
  }

  function MatchingStatus(c: Config, prove: nat, height: nat): Status {
    if c.stage3Start > 0 && prove >= c.stage3Start then Stage3Status(c.stage3Blocks, prove, height)
    else if c.stage2Start > 0 && prove >= c.stage2Start then Stage2Status(c, prove, height)
    else if c.triggerBlocks != 0 && height > prove && height - prove > c.triggerBlocks then ValidDelayed
    else Valid
  }

  // ---- second implementation: stake percent ----

  function Stage2Percent(c: Config, delay: nat): nat
    requires delay > 0
  {
    if c.stepBlocks == 0 || c.stepPercent == 0 then 100
    else
      var penalty := StepPenalty(c.stepBlocks, c.stepPercent, delay);
      if penalty >= 100 then 0 else 100 - penalty
  }

  /** The first bound that is at least the delay; |blocks| when there is none. */
  function FirstBound(blocks: seq<nat>, delay: nat): (k: nat)
    ensures k <= |blocks|
    ensures forall i :: 0 <= i < k ==> delay > blocks[i]
    ensures k < |blocks| ==> delay <= blocks[k]
  {
    if blocks == [] then 0 else if delay <= blocks[0] then 0 else 1 + FirstBound(blocks[1..], delay)
  }

  function Stage3Percent(blocks: seq<nat>, delay: nat): nat {
    var k := FirstBound(OrDefault(blocks), delay);
    if k < 7 then STAGE3_PERCENTS[k] else 0
  }

  /** The percent beside the first bound that the delay does not exceed; 0 beyond them all. */
  predicate ByBounds(bounds: seq<nat>, percents: seq<nat>, delay: nat, percent: nat)
    requires |bounds| == |percents|
  {
    && (forall k :: 0 <= k < |bounds| && delay <= bounds[k] && (forall j :: 0 <= j < k ==> bounds[j] < delay) ==>
                    percent == percents[k])
    && ((forall k :: 0 <= k < |bounds| ==> bounds[k] < delay) ==> percent == 0)
  }

  /** The search loop of the program. */
  method ResolveStage3Percent(blocks: seq<nat>, delay: nat) returns (percent: nat)
    ensures percent == Stage3Percent(blocks, delay)
    ensures var bounds := if |blocks| == 7 then blocks else [720, 840, 960, 1080, 1200, 1320, 1440];
            ByBounds(bounds, [100, 95, 87, 75, 59, 35, 10], delay, percent)
  {
    var bounds := OrDefault(blocks);
    for i := 0 to |bounds|
      invariant FirstBound(bounds, delay) == i + FirstBound(bounds[i..], delay)
    {
      if delay <= bounds[i] {
        return STAGE3_PERCENTS[i];
      }
    }
    return 0;
  }

  /** The percent a delayed proof of the reward at `prove` keeps. */
  function DelayedPercent(c: Config, prove: nat, height: nat): nat {
    if prove < c.stage2Start then STAGE1_PERCENT
    else if height <= prove then 100
    else if c.stage3Start > 0 && prove >= c.stage3Start then Stage3Percent(c.stage3Blocks, height - prove)
    else Stage2Percent(c, height - prove)
  }

  function StakePercent(c: Config, prove: nat, height: nat, status: Status): nat {
    if status != ValidDelayed then 100 else DelayedPercent(c, prove, height)
  }

  // ---- third implementation: proof window ----

  /** Steps until nothing is left, with the program's 64-bit and 32-bit truncations. */
  function StepsToNothing(stepPercent: nat): nat
    requires stepPercent > 0
  {
    ((100 + stepPercent - 1) % UINT64 / stepPercent) % UINT32
  }

  function Window(c: Config, prove: nat): nat
    requires Loaded(c)
  {
    if prove >= c.stage3Start then c.stage3Blocks[|c.stage3Blocks| - 1]
    else if prove >= c.stage2Start then (c.stepBlocks * StepsToNothing(c.stepPercent)) % UINT32
    else c.proofWindow
  }

  // ---- what each stage gives ----

  /** Before both stages, a stage whose start is not set never starting: a proof is delayed once its delay is beyond a
      trigger that is set, and keeps 95 percent then if stage 2 is to come. */
  lemma Stage1Table(c: Config, prove: nat, height: nat)
    requires (c.stage2Start == 0 || prove < c.stage2Start) && (c.stage3Start == 0 || prove < c.stage3Start)
    ensures var late := 0 < c.triggerBlocks && prove + c.triggerBlocks < height;
            var status := MatchingStatus(c, prove, height);
            && status == (if late then ValidDelayed else Valid)
            && (c.stage2Start > 0 ==> StakePercent(c, prove, height, status) == if late then 95 else 100)
  {
  }

  /** The window before both stages. */
  lemma Stage1Window(c: Config, prove: nat)
    requires Loaded(c) && prove < c.stage2Start && prove < c.stage3Start
    ensures Window(c, prove) == c.proofWindow
  {
  }

  /** In stage 2, n steps after the first block: n times the step percent, in 64 bits, is lost; nothing when the steps
      are not set. */
  lemma Stage2Table(c: Config, prove: nat, height: nat, n: nat)
    requires 0 < c.stage2Start <= prove < height && (c.stage3Start == 0 || prove < c.stage3Start)
    requires prove + n * c.stepBlocks < height <= prove + n * c.stepBlocks + c.stepBlocks || c.stepBlocks == 0
    ensures var lost := if c.stepBlocks == 0 then 0 else n * c.stepPercent % 0x1_0000_0000_0000_0000;
            var status := MatchingStatus(c, prove, height);
            && status == (if lost >= 100 then Expired else if lost > 0 then ValidDelayed else Valid)
            && (status != Expired ==> StakePercent(c, prove, height, status) == 100 - lost)
            && DelayedPercent(c, prove, height) == if lost >= 100 then 0 else 100 - lost
  {
    var delay := height - prove;
    if c.stepBlocks > 0 {
      StepsPassed(delay, c.stepBlocks, n);
      StepsPassed(delay, c.stepBlocks, n + 1);
      assert (delay - 1) / c.stepBlocks == n;
    }
  }

  /** In stage 3 after the start of stage 2: seven bounds, seven percents, and nothing beyond. */
  lemma Stage3Table(c: Config, prove: nat, height: nat)
    requires c.stage2Start <= prove < height && 0 < c.stage3Start <= prove
    requires |c.stage3Blocks| == 7 ==> Increasing(c.stage3Blocks)
    ensures var b := if |c.stage3Blocks| == 7 then c.stage3Blocks else [720, 840, 960, 1080, 1200, 1320, 1440];
            var d, status := height - prove, MatchingStatus(c, prove, height);
            && status == (if d <= b[0] then Valid else if d <= b[6] then ValidDelayed else Expired)
            && DelayedPercent(c, prove, height) ==
               (if d <= b[0] then 100 else if d <= b[1] then 95 else if d <= b[2] then 87 else if d <= b[3] then 75
                else if d <= b[4] then 59 else if d <= b[5] then 35 else if d <= b[6] then 10 else 0)
  {
    var b, d := OrDefault(c.stage3Blocks), height - prove;
    var k := FirstBound(b, d);
    assert k > 0 ==> d > b[k - 1];
    forall i | k <= i < 7 ensures d <= b[i] { assert b[k] <= b[i]; }
  }

  /** In stage 3 before the start of stage 2 a delayed proof keeps 95 percent. */
  lemma Stage3BeforeStage2(c: Config, prove: nat, height: nat)
    requires 0 < c.stage3Start <= prove < c.stage2Start
    ensures DelayedPercent(c, prove, height) == 95
  {
  }

  /** A proof mined no later than the height it proves, which the query never returns, loses nothing. */
  lemma NotLate(c: Config, prove: nat, height: nat)
    requires height <= prove
    ensures MatchingStatus(c, prove, height) == Valid && StakePercent(c, prove, height, Valid) == 100
    ensures c.stage2Start <= prove ==> DelayedPercent(c, prove, height) == 100
  {
  }

  // ---- the three agree ----

  predicate UnderPenalty(c: Config, prove: nat) {
    prove >= c.stage3Start || prove >= c.stage2Start
  }

  /** For one proof, the three implementations tell the same story. */
  predicate Agree(c: Config, prove: nat, height: nat)
    requires Loaded(c)
  {
    var status, percent := MatchingStatus(c, prove, height), DelayedPercent(c, prove, height);
    && (status == Expired <==> percent == 0)
    && (status == Expired <==> height > prove + Window(c, prove))
    && (status == Valid <==> percent == 100)
    && (status == ValidDelayed <==> 0 < percent < 100)
  }

  lemma DivideMonotone(x: nat, y: nat, d: nat)
    requires d > 0 && x <= y
    ensures x / d <= y / d
  {
    var p, q := x / d, y / d;
    assert p * d <= x && y < (q + 1) * d;
    if q < p { MultiplyMonotone(q + 1, p, d); }
  }

  lemma MultiplyMonotone(x: nat, y: nat, p: nat)
    requires x <= y
    ensures x * p <= y * p
  {
  }

  /** n full steps have passed exactly when the delay is beyond n * step. */
  lemma StepsPassed(delay: nat, step: nat, n: nat)
    requires delay > 0 && step > 0
    ensures (delay - 1) / step >= n <==> delay > n * step
  {
    var q := (delay - 1) / step;
    assert q * step <= delay - 1 < (q + 1) * step;
    if q >= n { MultiplyMonotone(n, q, step); } else { MultiplyMonotone(q + 1, n, step); }
  }

  lemma StepsNeeded(p: nat, n: nat)
    requires p > 0
    ensures n * p >= 100 <==> n >= (100 + p - 1) / p
  {
    var c := (100 + p - 1) / p;
    assert c * p <= 100 + p - 1 < (c + 1) * p;
    if n >= c { MultiplyMonotone(c, n, p); } else { MultiplyMonotone(n, c - 1, p); assert (c - 1) * p == c * p - p; }
  }

  function Steps(c: Config, delay: nat): nat
    requires c.stepBlocks > 0 && delay > 0
  {
    (delay - 1) / c.stepBlocks
  }

  /** The window as the formula means it, before truncation. */
  function TrueWindow(c: Config): nat
    requires c.stepPercent > 0
  {
    (100 + c.stepPercent - 1) / c.stepPercent * c.stepBlocks
  }

  /** What a number of steps costs, in unbounded and in 64-bit arithmetic. */
  function TrueCost(c: Config, steps: nat): nat {
    steps * c.stepPercent
  }

  function Cost(c: Config, steps: nat): nat {
    TrueCost(c, steps) % UINT64
  }

  /** No number of steps that a 32-bit height can reach costs everything and yet wraps to less than 100. */
  ghost predicate NoStepForgiven(c: Config, prove: nat) {
    forall steps: nat :: steps * c.stepBlocks + prove + 2 <= UINT32 && TrueCost(c, steps) >= 100 ==>
                         Cost(c, steps) >= 100
  }

  /** Every 32-bit step percent forgives nothing. */
  lemma SmallPercentsForgiveNothing(c: Config, prove: nat)
    requires Loaded(c) && c.stepPercent < UINT32
    ensures NoStepForgiven(c, prove)
  {
    forall steps: nat | steps * c.stepBlocks + prove + 2 <= UINT32 && TrueCost(c, steps) >= 100
      ensures Cost(c, steps) >= 100
    {
      assert steps <= steps * c.stepBlocks;
      MultiplyMonotone(steps, UINT32, c.stepPercent);
    }
  }

  lemma StepsToNothingExact(p: nat)
    requires 0 < p && p + 99 < UINT64
    ensures StepsToNothing(p) == (100 + p - 1) / p
  {
    StepsNeeded(p, 100);
  }

  /** Status and percent always tell the same story; the delay is beyond the true window exactly when the true
      cost is everything. */
  lemma Stage2Agrees(c: Config, prove: nat, height: nat)
    requires Loaded(c) && prove < height
    ensures Stage2Status(c, prove, height) == Expired <==> Stage2Percent(c, height - prove) == 0
    ensures Stage2Status(c, prove, height) == Valid <==> Stage2Percent(c, height - prove) == 100
    ensures Stage2Status(c, prove, height) == Expired <==> Cost(c, Steps(c, height - prove)) >= 100
    ensures height > prove + TrueWindow(c) <==> TrueCost(c, Steps(c, height - prove)) >= 100
    ensures Stage2Status(c, prove, height) in {Valid, ValidDelayed, Expired}
    ensures Stage2Percent(c, height - prove) <= 100
  {
    var delay := height - prove;
    StepsNeeded(c.stepPercent, (delay - 1) / c.stepBlocks);
    StepsPassed(delay, c.stepBlocks, (100 + c.stepPercent - 1) / c.stepPercent);
  }

  lemma Stage3Agrees(blocks: seq<nat>, prove: nat, height: nat)
    requires WellFormedBlocks(blocks) && prove < height
    ensures Stage3Status(blocks, prove, height) == Expired <==> Stage3Percent(blocks, height - prove) == 0
    ensures Stage3Status(blocks, prove, height) == Valid <==> Stage3Percent(blocks, height - prove) == 100
    ensures Stage3Status(blocks, prove, height) == Expired <==> height > prove + blocks[6]
    ensures Stage3Status(blocks, prove, height) in {Valid, ValidDelayed, Expired}
    ensures Stage3Percent(blocks, height - prove) <= 100
  {
    var k := FirstBound(blocks, height - prove);
    assert k > 0 ==> height - prove > blocks[0];
    assert k < 7 ==> blocks[k] <= blocks[6];
  }

  /** The stage order and the width conditions under which the three implementations agree at `prove`. */
  ghost predicate Consistent(c: Config, prove: nat)
    requires Loaded(c)
  {
    && prove >= c.stage2Start
    && (prove >= c.stage3Start ||
        (TrueWindow(c) < UINT32 && c.stepPercent + 99 < UINT64 && NoStepForgiven(c, prove)))
  }

  lemma ReachableSteps(c: Config, prove: nat, height: nat)
    requires Loaded(c) && prove < height < UINT32
    ensures Steps(c, height - prove) * c.stepBlocks + prove + 2 <= UINT32
  {
    var x := height - prove - 1;
    assert x / c.stepBlocks * c.stepBlocks <= x;
  }

  lemma AgreeWhenConsistent(c: Config, prove: nat, height: nat)
    requires Loaded(c) && prove < height < UINT32 && Consistent(c, prove)
    ensures Agree(c, prove, height)
  {
    hide Stage2Status, Stage2Percent, Stage3Status, Stage3Percent, StepsToNothing, TrueCost, Steps;
    if prove >= c.stage3Start {
      Stage3Agrees(c.stage3Blocks, prove, height);
    } else {
      Stage2Agrees(c, prove, height);
      StepsToNothingExact(c.stepPercent);
      ReachableSteps(c, prove, height);
      assert c.stepBlocks * StepsToNothing(c.stepPercent) == TrueWindow(c);
      SmallCost(c, Steps(c, height - prove));
    }
  }

  lemma SmallCost(c: Config, steps: nat)
    ensures TrueCost(c, steps) < 100 ==> Cost(c, steps) == TrueCost(c, steps)
  {
  }

  /** Where an inconsistent configuration shows: one block after the window, or one block after a forgiven
      step. */
  lemma DisagreeSomewhere(c: Config, prove: nat) returns (height: nat)
    requires Loaded(c) && UnderPenalty(c, prove) && prove + Window(c, prove) + 1 < UINT32 && !Consistent(c, prove)
    ensures prove < height < UINT32 && !Agree(c, prove, height)
  {
    hide Stage2Status, Stage2Percent, Stage3Status, Stage3Percent;
    height := prove + Window(c, prove) + 1;
    if prove < c.stage2Start {
      Stage3Agrees(c.stage3Blocks, prove, height);
    } else if c.stepPercent + 99 >= UINT64 {
      WideWindow(c);
      Stage2Agrees(c, prove, height);
      assert Steps(c, 1) == 0;
    } else if TrueWindow(c) >= UINT32 {
      StepsToNothingExact(c.stepPercent);
      assert c.stepBlocks * StepsToNothing(c.stepPercent) == TrueWindow(c);
      assert TrueWindow(c) % UINT32 < UINT32 <= TrueWindow(c);
      Stage2Agrees(c, prove, height);
      SmallCost(c, Steps(c, height - prove));
    } else {
      height := ForgivenStep(c, prove);
    }
  }

  lemma WideWindow(c: Config)
    requires Loaded(c) && c.stepPercent + 99 >= UINT64
    ensures c.stepBlocks * StepsToNothing(c.stepPercent) % UINT32 == 0
  {
    var p := c.stepPercent;
    assert (100 + p - 1) % UINT64 == p + 99 - UINT64 < p;
    assert StepsToNothing(p) == 0;
  }

  lemma ForgivenStep(c: Config, prove: nat) returns (height: nat)
    requires Loaded(c) && c.stage2Start <= prove < c.stage3Start
    requires TrueWindow(c) < UINT32 && c.stepPercent + 99 < UINT64 && !NoStepForgiven(c, prove)
    ensures prove < height < UINT32 && !Agree(c, prove, height)
  {
    hide Stage2Status, Stage2Percent, TrueCost, StepsToNothing;
    var steps: nat :| steps * c.stepBlocks + prove + 2 <= UINT32 && TrueCost(c, steps) >= 100 && Cost(c, steps) < 100;
    height := prove + steps * c.stepBlocks + 1;
    assert Steps(c, height - prove) == steps by {
      StepsPassed(height - prove, c.stepBlocks, steps);
      StepsPassed(height - prove, c.stepBlocks, steps + 1);
    }
    Stage2Agrees(c, prove, height);
    StepsToNothingExact(c.stepPercent);
    assert c.stepBlocks * StepsToNothing(c.stepPercent) == TrueWindow(c);
  }

  /** For every loaded configuration, status, percent and window agree on every proof of a penalised height
      exactly when stage 3 does not start before stage 2 there and the stage-2 arithmetic loses nothing: the
      window fits in 32 bits, its dividend in 64, and no step is forgiven by wrapping around. */
  lemma PenaltyAgreesIff(c: Config, prove: nat)
    requires Loaded(c) && UnderPenalty(c, prove) && prove + Window(c, prove) + 1 < UINT32
    ensures (forall height :: prove < height < UINT32 ==> Agree(c, prove, height)) <==> Consistent(c, prove)
  {
    hide Agree;
    if Consistent(c, prove) {
      forall height | prove < height < UINT32 ensures Agree(c, prove, height) {
        AgreeWhenConsistent(c, prove, height);
      }
    } else {
      var height := DisagreeSomewhere(c, prove);
    }
  }

  lemma StatusIsMatching(c: Config, prove: nat, height: nat)
    ensures MatchingStatus(c, prove, height) in {Valid, ValidDelayed, Expired}
  {
  }

  lemma {:induction false} FirstBoundMonotone(blocks: seq<nat>, d: nat, e: nat)
    requires d <= e
    ensures FirstBound(blocks, d) <= FirstBound(blocks, e)
  {
    if blocks != [] && d > blocks[0] {
      FirstBoundMonotone(blocks[1..], d, e);
    }
  }

  lemma Stage3Monotone(blocks: seq<nat>, d: nat, e: nat)
    requires d <= e
    ensures Stage3Percent(blocks, e) <= Stage3Percent(blocks, d)
  {
    hide FirstBound, OrDefault;
    FirstBoundMonotone(OrDefault(blocks), d, e);
    PercentsFall(FirstBound(OrDefault(blocks), d), FirstBound(OrDefault(blocks), e));
  }

  lemma PercentsFall(i: nat, j: nat)
    requires i <= j
    ensures j < 7 ==> STAGE3_PERCENTS[j] <= STAGE3_PERCENTS[i]
  {
  }

  lemma TrueCostMonotone(c: Config, d: nat, e: nat)
    requires Loaded(c) && 0 < d <= e
    ensures TrueCost(c, Steps(c, d)) <= TrueCost(c, Steps(c, e))
  {
    DivideMonotone(d - 1, e - 1, c.stepBlocks);
    MultiplyMonotone(Steps(c, d), Steps(c, e), c.stepPercent);
  }

  /** Without forgiven steps the percent is what the true cost leaves. */
  lemma PercentByTrueCost(c: Config, prove: nat, height: nat)
    requires Loaded(c) && prove < height < UINT32 && NoStepForgiven(c, prove)
    ensures var cost := TrueCost(c, Steps(c, height - prove));
            && Stage2Percent(c, height - prove) == (if cost >= 100 then 0 else 100 - cost)
            && (Stage2Status(c, prove, height) == Expired <==> cost >= 100)
  {
    hide TrueCost, Steps;
    ReachableSteps(c, prove, height);
    SmallCost(c, Steps(c, height - prove));
    PercentByCost(c, prove, height);
  }

  lemma PercentByCost(c: Config, prove: nat, height: nat)
    requires Loaded(c) && prove < height
    ensures var cost := Cost(c, Steps(c, height - prove));
            && Stage2Percent(c, height - prove) == (if cost >= 100 then 0 else 100 - cost)
            && (Stage2Status(c, prove, height) == Expired <==> cost >= 100)
  {
  }

  /** A later proof keeps no more than an earlier one, and is expired when the earlier one is. */
  predicate KeepsNoMore(c: Config, prove: nat, earlier: nat, later: nat) {
    var first, second := MatchingStatus(c, prove, earlier), MatchingStatus(c, prove, later);
    && (first == Expired ==> second == Expired)
    && (second != Expired ==> StakePercent(c, prove, later, second) <= StakePercent(c, prove, earlier, first))
  }

  /** Stage 2 with a forgiven step is the only case where waiting can pay. */
  ghost predicate Unforgiving(c: Config, prove: nat) {
    c.stage2Start <= prove < c.stage3Start ==> NoStepForgiven(c, prove)
  }

  lemma LaterKeepsNoMore(c: Config, prove: nat, earlier: nat, later: nat)
    requires Loaded(c) && Unforgiving(c, prove) && prove < earlier <= later < UINT32
    ensures KeepsNoMore(c, prove, earlier, later)
  {
    hide Stage2Status, Stage2Percent, Stage3Status, Stage3Percent, TrueCost, Steps;
    if prove >= c.stage3Start {
      Stage3Agrees(c.stage3Blocks, prove, earlier);
      Stage3Agrees(c.stage3Blocks, prove, later);
      Stage3Monotone(c.stage3Blocks, earlier - prove, later - prove);
    } else if prove >= c.stage2Start {
      Stage2Agrees(c, prove, earlier);
      Stage2Agrees(c, prove, later);
      PercentByTrueCost(c, prove, earlier);
      PercentByTrueCost(c, prove, later);
      TrueCostMonotone(c, earlier - prove, later - prove);
    }
  }

  lemma AtStep(c: Config, steps: nat)
    requires c.stepBlocks > 0
    ensures Steps(c, steps * c.stepBlocks + 1) == steps
  {
    StepsPassed(steps * c.stepBlocks + 1, c.stepBlocks, steps);
    StepsPassed(steps * c.stepBlocks + 1, c.stepBlocks, steps + 1);
  }

  /** The first step that costs everything does not wrap. */
  lemma FirstFullStep(c: Config, steps: nat) returns (first: nat)
    requires Loaded(c) && TrueCost(c, steps) >= 100
    ensures first <= steps && Cost(c, first) >= 100
  {
    var p := c.stepPercent;
    StepsNeeded(p, steps);
    first := if p >= 100 then 1 else (100 + p - 1) / p;
    StepsNeeded(p, first);
    if p < 100 {
      assert first * p <= 100 + p - 1;
    } else {
      assert steps >= 1;
    }
  }

  /** A forgiven step, and the first full one before it: expired first, and valid again later. */
  lemma ForgivenPair(c: Config, prove: nat) returns (earlier: nat, later: nat)
    requires Loaded(c) && !Unforgiving(c, prove)
    ensures prove < earlier <= later < UINT32 && !KeepsNoMore(c, prove, earlier, later)
  {
    hide Stage2Status, Stage2Percent, TrueCost, Steps;
    var steps: nat :| steps * c.stepBlocks + prove + 2 <= UINT32 && TrueCost(c, steps) >= 100 && Cost(c, steps) < 100;
    var first := FirstFullStep(c, steps);
    MultiplyMonotone(first, steps, c.stepBlocks);
    earlier, later := prove + first * c.stepBlocks + 1, prove + steps * c.stepBlocks + 1;
    AtStep(c, first);
    AtStep(c, steps);
    Stage2Agrees(c, prove, earlier);
    Stage2Agrees(c, prove, later);
  }

  /** A later proof never keeps more and never comes back from expiry, for every loaded configuration and every
      height, exactly when no step of stage 2 is forgiven there by wrapping around. */
  lemma PercentNeverIncreasesIff(c: Config, prove: nat)
    requires Loaded(c)
    ensures (forall earlier, later :: prove < earlier <= later < UINT32 ==> KeepsNoMore(c, prove, earlier, later))
            <==> Unforgiving(c, prove)
  {
    hide KeepsNoMore;
    if Unforgiving(c, prove) {
      forall earlier, later | prove < earlier <= later < UINT32 ensures KeepsNoMore(c, prove, earlier, later) {
        LaterKeepsNoMore(c, prove, earlier, later);
      }
    } else {
      var earlier, later := ForgivenPair(c, prove);
    }
  }

  /** Steps of one block at 2^63 percent: expired after one step, valid again after two; the window is one block,
      so neither proof is ever settled. */
  lemma WaitingCanPay(c: Config, prove: nat)
    requires Loaded(c) && c.stepBlocks == 1 && c.stepPercent == UINT64 / 2 && c.stage2Start <= prove < c.stage3Start
    ensures MatchingStatus(c, prove, prove + 2) == Expired && MatchingStatus(c, prove, prove + 3) == Valid
    ensures Window(c, prove) == 1
  {
    assert StepPenalty(1, UINT64 / 2, 2) == UINT64 / 2 && StepPenalty(1, UINT64 / 2, 3) == 0;
  }

  // ---- inside the window ----

  lemma TruncatedAtMost(x: nat, width: nat)
    requires width > 0
    ensures x % width <= x
  {
  }

  lemma StepsToNothingAtMost(p: nat)
    requires p > 0
    ensures StepsToNothing(p) <= (100 + p - 1) / p
  {
    TruncatedAtMost(100 + p - 1, UINT64);
    TruncatedQuotient((100 + p - 1) % UINT64, 100 + p - 1, p, UINT32);
  }

  lemma TruncatedQuotient(x: nat, y: nat, d: nat, width: nat)
    requires d > 0 && width > 0 && x <= y
    ensures x / d % width <= y / d
  {
    DivideMonotone(x, y, d);
    TruncatedAtMost(x / d, width);
  }

  /** Truncation only shrinks the window. */
  lemma WindowAtMostTrue(c: Config, prove: nat)
    requires Loaded(c) && c.stage2Start <= prove < c.stage3Start
    ensures Window(c, prove) <= TrueWindow(c)
  {
    hide StepsToNothing;
    var steps := StepsToNothing(c.stepPercent);
    StepsToNothingAtMost(c.stepPercent);
    MultiplyMonotone(steps, (100 + c.stepPercent - 1) / c.stepPercent, c.stepBlocks);
    TruncatedAtMost(c.stepBlocks * steps, UINT32);
  }

  /** Nothing in the window of stage 2 costs everything, so nothing there wraps around. */
  lemma WindowCost(c: Config, prove: nat, height: nat)
    requires Loaded(c) && c.stage2Start <= prove < c.stage3Start && prove < height <= prove + Window(c, prove)
    ensures var cost := TrueCost(c, Steps(c, height - prove));
            && cost < 100 && Stage2Percent(c, height - prove) == 100 - cost
            && Stage2Status(c, prove, height) == if cost > 0 then ValidDelayed else Valid
  {
    hide Stage2Status, Stage2Percent, TrueCost, Steps, Window;
    WindowAtMostTrue(c, prove);
    Stage2Agrees(c, prove, height);
    SmallCost(c, Steps(c, height - prove));
    PercentByCost(c, prove, height);
  }

  /** No proof that the window query returns is expired, and each keeps a positive percent, for every loaded
      configuration: whatever wraps around does so beyond the window. */
  lemma WindowHoldsNoExpired(c: Config, prove: nat, height: nat)
    requires Loaded(c) && prove < height <= prove + Window(c, prove)
    ensures MatchingStatus(c, prove, height) in {Valid, ValidDelayed}
    ensures 0 < DelayedPercent(c, prove, height) <= 100
    ensures prove >= c.stage2Start ==>
              StakePercent(c, prove, height, MatchingStatus(c, prove, height)) == DelayedPercent(c, prove, height)
  {
    hide Stage2Status, Stage2Percent, Stage3Status, Stage3Percent, TrueCost, Steps;
    if prove >= c.stage3Start {
      Stage3Agrees(c.stage3Blocks, prove, height);
    } else if prove >= c.stage2Start {
      WindowCost(c, prove, height);
    }
  }

  /** Inside the window waiting never pays, for every loaded configuration. */
  lemma WindowKeepsNoMore(c: Config, prove: nat, earlier: nat, later: nat)
    requires Loaded(c) && prove < earlier <= later <= prove + Window(c, prove)
    ensures KeepsNoMore(c, prove, earlier, later)
  {
    hide Stage2Status, Stage2Percent, Stage3Status, Stage3Percent, TrueCost, Steps;
    if prove >= c.stage3Start {
      Stage3Agrees(c.stage3Blocks, prove, earlier);
      Stage3Agrees(c.stage3Blocks, prove, later);
      Stage3Monotone(c.stage3Blocks, earlier - prove, later - prove);
    } else if prove >= c.stage2Start {
      WindowCost(c, prove, earlier);
      WindowCost(c, prove, later);
      TrueCostMonotone(c, earlier - prove, later - prove);
    }
  }

  // ---- loading the stage-3 bounds ----

  datatype ParseError = NotAList | WrongLength | BadNumber(index: nat) | ZeroBound(index: nat) | NotIncreasing(at: nat)
  datatype ParseResult = Blocks(blocks: seq<nat>) | Failed(error: ParseError)

  function Numbers(items: seq<Option<nat>>): seq<nat>
    requires forall i :: 0 <= i < |items| ==> items[i].Some?
  {
    seq(|items|, i requires 0 <= i < |items| => items[i].value)
  }

  predicate GoodPrefix(items: seq<Option<nat>>, n: nat)
    requires n <= |items|
  {
    && (forall i :: 0 <= i < n ==> items[i].Some? && 0 < items[i].value < UINT32)
    && Increasing(Numbers(items[..n]))
  }

  /** Item i is the first one that is refused, for the reason given. */
  predicate FirstFault(items: seq<Option<nat>>, error: ParseError) {
    match error
    case BadNumber(i) => i < |items| && GoodPrefix(items, i) && (items[i].None? || items[i].value >= UINT32)
    case ZeroBound(i) => i < |items| && GoodPrefix(items, i) && items[i] == Some(0)
    case NotIncreasing(i) => 0 < i < |items| && GoodPrefix(items, i) && items[i].Some? &&
                             items[i].value <= items[i - 1].value
    case _ => false
  }

  lemma GoodStep(items: seq<Option<nat>>, n: nat)
    requires n < |items| && GoodPrefix(items, n)
    requires items[n].Some? && 0 < items[n].value < UINT32 && (n > 0 ==> items[n].value > items[n - 1].value)
    ensures GoodPrefix(items, n + 1)
    ensures Numbers(items[..n + 1]) == Numbers(items[..n]) + [items[n].value]
  {
    var old', new' := Numbers(items[..n]), Numbers(items[..n + 1]);
    assert new' == old' + [items[n].value];
    forall i, j | 0 <= i < j < |new'| ensures new'[i] < new'[j] {
      assert n > 0 ==> old'[n - 1] == items[n - 1].value;
    }
  }

  lemma GoodAdjacent(items: seq<Option<nat>>, n: nat, i: nat)
    requires n <= |items| && GoodPrefix(items, n) && 0 < i < n
    ensures items[i - 1].value < items[i].value
  {
    var numbers := Numbers(items[..n]);
    assert numbers[i - 1] < numbers[i];
  }

  /** Reads seven strictly increasing positive 32-bit bounds, or reports the first fault. The argument is
      None when the configured value is not a list; an element is None when it is not a number. */
  method ParseStage3Blocks(raw: Option<seq<Option<nat>>>) returns (r: ParseResult)
    ensures r.Blocks? <==> raw.Some? && |raw.value| == 7 && GoodPrefix(raw.value, 7)
    ensures r.Blocks? ==> r.blocks == Numbers(raw.value) && WellFormedBlocks(r.blocks)
    ensures r.Failed? ==>
              match r.error
              case NotAList => raw.None?
              case WrongLength => raw.Some? && |raw.value| != 7
              case _ => raw.Some? && |raw.value| == 7 && FirstFault(raw.value, r.error)
  {
    if raw.None? {
      return Failed(NotAList);
    }
    var items := raw.value;
    if |items| != 7 {
      return Failed(WrongLength);
    }
    var blocks: seq<nat> := [];
    for i := 0 to |items|
      invariant GoodPrefix(items, i) && blocks == Numbers(items[..i])
    {
      if items[i].None? || items[i].value >= UINT32 {
        return Failed(BadNumber(i));
      }
      if items[i].value == 0 {
        return Failed(ZeroBound(i));
      }
      if i > 0 && items[i].value <= blocks[i - 1] {
        assert !GoodPrefix(items, 7) by {
          if GoodPrefix(items, 7) { GoodAdjacent(items, 7, i); }
        }
        return Failed(NotIncreasing(i));
      }
      GoodStep(items, i);
      blocks := blocks + [items[i].value];
    }
    assert items[..7] == items;
    return Blocks(blocks);
  }
}
