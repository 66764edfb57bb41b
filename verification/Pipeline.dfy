/** The block pipeline: an in-order producer, one goroutine per block, a token channel that bounds the
    blocks in flight, a consumer with a reorder buffer, and the final stage. Every channel operation is a
    step; a run is any interleaving of steps. */
module Pipeline {

  /** Capacity of every channel. */
  const CAP: nat := 64

  /** Heights [start, max) are to be processed; the raw blocks at heights in `short` are too short to parse
      and are skipped by the producer. */
  datatype Config = Config(start: nat, max: nat, short: set<nat>)

  datatype Producer = AtHead | Offering | Stopped
  datatype Consumer = Receiving | Draining | Staging | Finished

  datatype Pipe = Pipe(
    producer: Producer,
    next: nat,             // the producer's next height
    tokens: nat,           // elements in the token channel
    working: set<nat>,     // blocks being parsed by their goroutine
    ready: seq<nat>,       // the channel of parsed blocks
    closed: bool,          // that channel is closed
    consumer: Consumer,
    buffer: set<nat>,      // received blocks that are not staged yet
    turn: nat,             // the height the consumer stages next
    staged: seq<nat>,      // every height staged so far, in order
    stage: seq<nat>,       // the channel to the final stage
    ended: seq<nat>,       // every height the final stage received, in order
    finishing: nat)        // final-stage goroutines still running

  function Initial(c: Config): Pipe {
    Pipe(AtHead, c.start, 0, {}, [], false, Receiving, {}, c.start, [], [], [], 0)
  }

  datatype Step =
    | Offer                  // the producer has the block at `next` and wants a token slot
    | Skip                   // the raw block at `next` is too short
    | Stop                   // end of range, missing block or fetch error
    | Dispatch               // token sent, goroutine started
    | Parsed(height: nat)    // a goroutine sends its block
    | CloseReady             // all goroutines done
    | Receive                // the consumer takes a block
    | EndOfInput             // the consumer sees the closed channel
    | TakeToken              // the consumer releases a token for the block whose turn it is
    | StageBlock             // that block is processed serially and sent on
    | DrainStop              // nothing more to stage now
    | EndTake                // the final stage takes a block
    | EndDone                // one of its goroutines finishes

  predicate Enabled(c: Config, s: Pipe, step: Step) {
    match step
    case Offer => s.producer.AtHead? && s.next < c.max && s.next !in c.short
    case Skip => s.producer.AtHead? && s.next < c.max && s.next in c.short
    case Stop => s.producer.AtHead?
    case Dispatch => s.producer.Offering? && s.tokens < CAP
    case Parsed(h) => h in s.working && |s.ready| < CAP
    case CloseReady => s.producer.Stopped? && s.working == {} && !s.closed
    case Receive => s.consumer.Receiving? && s.ready != []
    case EndOfInput => s.consumer.Receiving? && s.ready == [] && s.closed
    case TakeToken => s.consumer.Draining? && HasTurn(c, s) && s.tokens > 0
    case StageBlock => s.consumer.Staging? && |s.stage| < CAP
    case DrainStop => s.consumer.Draining? && !HasTurn(c, s)
    case EndTake => s.stage != [] && s.finishing < CAP
    case EndDone => s.finishing > 0
  }

  /** The block whose turn it is has been received. */
  predicate HasTurn(c: Config, s: Pipe) {
    s.turn < c.max && s.turn in s.buffer
  }

  function Do(c: Config, s: Pipe, step: Step): Pipe
    requires Enabled(c, s, step)
  {
    match step
    case Offer => s.(producer := Offering)
    case Skip => s.(next := s.next + 1)
    case Stop => s.(producer := Stopped)
    case Dispatch => s.(producer := AtHead, tokens := s.tokens + 1, working := s.working + {s.next}, next := s.next + 1)
    case Parsed(h) => s.(working := s.working - {h}, ready := s.ready + [h])
    case CloseReady => s.(closed := true)
    case Receive =>
      var h := s.ready[0];
      s.(ready := s.ready[1..],
         buffer := if h < c.max then s.buffer + {h} else s.buffer,
         consumer := if h == s.turn then Draining else Receiving)
    case EndOfInput => s.(consumer := Finished)
    case TakeToken => s.(tokens := s.tokens - 1, consumer := Staging)
    case StageBlock =>
      s.(staged := s.staged + [s.turn], stage := s.stage + [s.turn], buffer := s.buffer - {s.turn},
         turn := s.turn + 1, consumer := Draining)
    case DrainStop => s.(consumer := if s.turn >= c.max then Finished else Receiving)
    case EndTake => s.(ended := s.ended + [s.stage[0]], stage := s.stage[1..], finishing := s.finishing + 1)
    case EndDone => s.(finishing := s.finishing - 1)
  }

  /** Everything is shut down and drained. */
  predicate Final(s: Pipe) {
    && s.producer.Stopped? && s.closed && s.working == {} && s.ready == []
    && s.consumer.Finished? && s.stage == [] && s.finishing == 0
  }

  function Range(lo: nat, hi: nat): (r: seq<nat>)
    requires lo <= hi
    ensures |r| == hi - lo
  {
    seq(hi - lo, i requires 0 <= i => lo + i)
  }

  // ---- the invariant ----

  function Held(s: Pipe): nat {
    if s.consumer.Staging? then 1 else 0
  }

  predicate InFlight(s: Pipe, h: nat) {
    h in s.working || h in s.ready || h in s.buffer
  }

  ghost predicate Inv(c: Config, s: Pipe) {
    && Bounds(c, s)
    && s.tokens + Held(s) == |s.working| + |s.ready| + |s.buffer| && s.tokens <= CAP
    && (forall h: nat :: InFlight(s, h) <==> s.turn <= h < s.next && h !in c.short)
    && Apart(s)
    && s.staged == Range(c.start, s.turn) && s.ended + s.stage == s.staged
  }

  predicate Bounds(c: Config, s: Pipe) {
    && c.start <= s.turn <= s.next && (s.next <= c.max || s.next == c.start)
    && (s.producer.Offering? ==> s.next < c.max && s.next !in c.short)
    && (s.consumer.Staging? ==> s.turn in s.buffer)
    && (s.consumer.Receiving? || s.consumer.Finished? ==> s.turn !in s.buffer)
    && (s.closed ==> s.producer.Stopped? && s.working == {})
    && (s.consumer.Finished? ==> s.turn >= c.max || (s.closed && s.ready == []))
    && |s.stage| <= CAP && s.finishing <= CAP
    && forall h: nat :: c.start <= h < s.turn ==> h !in c.short
  }

  /** A height is in one place only. */
  predicate Apart(s: Pipe) {
    && s.working !! s.buffer
    && (forall i :: 0 <= i < |s.ready| ==> s.ready[i] !in s.working && s.ready[i] !in s.buffer)
    && forall i, j :: 0 <= i < j < |s.ready| ==> s.ready[i] != s.ready[j]
  }

  lemma InitialInv(c: Config)
    ensures Inv(c, Initial(c))
  {
  }

  lemma RangeGrows(lo: nat, hi: nat)
    requires lo <= hi
    ensures Range(lo, hi) + [hi] == Range(lo, hi + 1)
  {
  }

  /** Every step keeps the invariant. */
  lemma StepKeepsInv(c: Config, s: Pipe, step: Step)
    requires Inv(c, s) && Enabled(c, s, step)
    ensures Inv(c, Do(c, s, step))
  {
    hide Inv, Do, Enabled;
    match step
    case Dispatch => DispatchKeepsInv(c, s);
    case Parsed(h) => ParsedKeepsInv(c, s, h);
    case Receive => ReceiveKeepsInv(c, s);
    case StageBlock => StageKeepsInv(c, s);
    case DrainStop => DrainStopKeepsInv(c, s);
    case EndTake => EndTakeKeepsInv(c, s);
    case _ => QuietKeepsInv(c, s, step);
  }

  /** Steps that move no block. */
  lemma QuietKeepsInv(c: Config, s: Pipe, step: Step)
    requires Inv(c, s) && Enabled(c, s, step)
    requires step.Offer? || step.Skip? || step.Stop? || step.CloseReady? || step.EndOfInput? || step.TakeToken? ||
             step.EndDone?
    ensures Inv(c, Do(c, s, step))
  {
    assert forall h: nat :: InFlight(s, h) <==> InFlight(Do(c, s, step), h);
  }

  lemma DrainStopKeepsInv(c: Config, s: Pipe)
    requires Inv(c, s) && Enabled(c, s, DrainStop)
    ensures Inv(c, Do(c, s, DrainStop))
  {
    assert s.turn >= c.max ==> !InFlight(s, s.turn);
    assert forall h: nat :: InFlight(s, h) <==> InFlight(Do(c, s, DrainStop), h);
  }

  lemma EndTakeKeepsInv(c: Config, s: Pipe)
    requires Inv(c, s) && Enabled(c, s, EndTake)
    ensures Inv(c, Do(c, s, EndTake))
  {
    assert s.ended + s.stage == s.ended + [s.stage[0]] + s.stage[1..];
    assert forall h: nat :: InFlight(s, h) <==> InFlight(Do(c, s, EndTake), h);
  }

  lemma DispatchKeepsInv(c: Config, s: Pipe)
    requires Inv(c, s) && Enabled(c, s, Dispatch)
    ensures Inv(c, Do(c, s, Dispatch))
  {
    var s' := Do(c, s, Dispatch);
    assert !InFlight(s, s.next);
    forall x: nat ensures InFlight(s', x) <==> InFlight(s, x) || x == s.next {
    }
  }

  lemma ParsedKeepsInv(c: Config, s: Pipe, h: nat)
    requires Inv(c, s) && Enabled(c, s, Parsed(h))
    ensures Inv(c, Do(c, s, Parsed(h)))
  {
    var s' := Do(c, s, Parsed(h));
    forall x: nat ensures InFlight(s', x) <==> InFlight(s, x) {
      assert x in s'.ready <==> x in s.ready || x == h;
    }
  }

  lemma ReceiveKeepsInv(c: Config, s: Pipe)
    requires Inv(c, s) && Enabled(c, s, Receive)
    ensures Inv(c, Do(c, s, Receive))
  {
    var s' := Do(c, s, Receive);
    var h := s.ready[0];
    assert InFlight(s, h);
    assert s.ready == [h] + s.ready[1..];
    forall x: nat ensures InFlight(s', x) <==> InFlight(s, x) {
      assert x in s.ready <==> x == h || x in s.ready[1..];
    }
  }

  lemma StageKeepsInv(c: Config, s: Pipe)
    requires Inv(c, s) && Enabled(c, s, StageBlock)
    ensures Inv(c, Do(c, s, StageBlock))
  {
    var s' := Do(c, s, StageBlock);
    assert InFlight(s, s.turn);
    RangeGrows(c.start, s.turn);
    assert s'.ended + s'.stage == (s.ended + s.stage) + [s.turn];
    forall x: nat ensures InFlight(s', x) <==> InFlight(s, x) && x != s.turn {
    }
  }

  // ---- progress ----

  /** The token receive never blocks: whenever the consumer has the block whose turn it is, a token is there. */
  lemma TokenReceiveNeverBlocks(c: Config, s: Pipe)
    requires Inv(c, s) && s.consumer.Draining? && HasTurn(c, s)
    ensures Enabled(c, s, TakeToken)
  {
    assert |s.buffer| > 0;
  }

  /** A parsing goroutine never blocks on the channel of parsed blocks. */
  lemma ReadySendNeverBlocks(c: Config, s: Pipe, h: nat)
    requires Inv(c, s) && h in s.working
    ensures Enabled(c, s, Parsed(h))
  {
    assert |s.working| > 0;
    if s.consumer.Staging? {
      assert |s.buffer| > 0;
    }
  }

  ghost predicate Stuck(c: Config, s: Pipe) {
    forall step :: !Enabled(c, s, step)
  }

  /** A state that cannot move is the final one, or the producer waits for a token that a skipped height
      keeps from ever being released: all CAP tokens belong to buffered blocks above it. */
  lemma StuckShape(c: Config, s: Pipe)
    requires Inv(c, s) && Stuck(c, s)
    ensures Final(s) || (s.producer.Offering? && s.consumer.Receiving? && s.tokens == CAP && |s.buffer| == CAP
                         && s.working == {} && s.ready == [] && s.turn in c.short && s.turn < s.next)
  {
    assert !Enabled(c, s, EndDone) && !Enabled(c, s, EndTake) && !Enabled(c, s, StageBlock);
    assert !Enabled(c, s, TakeToken) && !Enabled(c, s, DrainStop) && !Enabled(c, s, Receive) &&
           !Enabled(c, s, EndOfInput);
    assert !Enabled(c, s, CloseReady) && !Enabled(c, s, Dispatch) && !Enabled(c, s, Stop);
    if s.consumer.Draining? && HasTurn(c, s) {
      TokenReceiveNeverBlocks(c, s);
    }
    forall h | h in s.working ensures Enabled(c, s, Parsed(h)) {
      ReadySendNeverBlocks(c, s, h);
    }
    assert s.working == {};
    if s.ready != [] {
      assert InFlight(s, s.ready[0]);
    }
    if s.producer.Offering? {
      assert s.buffer != {};
      var h :| h in s.buffer;
      assert InFlight(s, h);
      assert !InFlight(s, s.turn);
    }
  }

  // ---- runs ----

  ghost predicate Reaches(c: Config, s: Pipe, run: seq<Step>, s': Pipe)
    decreases |run|
  {
    if run == [] then s == s' else Enabled(c, s, run[0]) && Reaches(c, Do(c, s, run[0]), run[1..], s')
  }

  lemma {:induction false} RunKeepsInv(c: Config, s: Pipe, run: seq<Step>, s': Pipe)
    requires Inv(c, s) && Reaches(c, s, run, s')
    ensures Inv(c, s')
    decreases |run|
  {
    hide Inv, Do, Enabled;
    if run != [] {
      StepKeepsInv(c, s, run[0]);
      RunKeepsInv(c, Do(c, s, run[0]), run[1..], s');
    }
  }

  /** Work left; every step uses some of it up. */
  function Work(c: Config, s: Pipe): int {
    10 * (c.max - s.next) + 8 * |s.working| + 7 * |s.ready| + 4 * |s.buffer| + 2 * |s.stage| + s.finishing
    + (match s.producer case AtHead => 2 case Offering => 1 case Stopped => 0)
    + (if s.closed then 0 else 1)
    + (match s.consumer case Finished => 0 case Receiving => 1 case Staging => 1 case Draining => 2)
  }

  /** The sizes that a step changes. */
  lemma StepSizes(c: Config, s: Pipe, step: Step)
    requires Inv(c, s) && Enabled(c, s, step)
    ensures var t := Do(c, s, step);
            match step
            case Dispatch => |t.working| == |s.working| + 1
            case Parsed(h) => |t.working| == |s.working| - 1 && |t.ready| == |s.ready| + 1
            case Receive => |t.ready| == |s.ready| - 1 && |t.buffer| <= |s.buffer| + 1
            case StageBlock => |t.buffer| == |s.buffer| - 1 && |t.stage| == |s.stage| + 1
            case EndTake => |t.stage| == |s.stage| - 1
            case _ => true
  {
    hide Range;
    match step
    case Dispatch => assert !InFlight(s, s.next);
    case Receive => assert InFlight(s, s.ready[0]);
    case _ =>
  }

  /** The steps up to the channel of parsed blocks. */
  predicate BeforeReceiving(step: Step) {
    step.Offer? || step.Skip? || step.Stop? || step.Dispatch? || step.Parsed? || step.CloseReady?
  }

  lemma ProducerUsesWork(c: Config, s: Pipe, step: Step)
    requires Inv(c, s) && Enabled(c, s, step) && c.start <= c.max && BeforeReceiving(step)
    ensures Work(c, Do(c, s, step)) < Work(c, s)
  {
    StepSizes(c, s, step);
    assert s.next <= c.max;
    hide Inv;
  }

  lemma ConsumerUsesWork(c: Config, s: Pipe, step: Step)
    requires Inv(c, s) && Enabled(c, s, step) && !BeforeReceiving(step)
    ensures Work(c, Do(c, s, step)) < Work(c, s)
  {
    StepSizes(c, s, step);
    hide Inv;
  }

  lemma StepUsesWork(c: Config, s: Pipe, step: Step)
    requires Inv(c, s) && Enabled(c, s, step) && c.start <= c.max
    ensures Work(c, Do(c, s, step)) < Work(c, s)
  {
    hide Inv, Do, Enabled, Work;
    if BeforeReceiving(step) {
      ProducerUsesWork(c, s, step);
    } else {
      ConsumerUsesWork(c, s, step);
    }
  }

  /** Every run is finite: it is no longer than the work there is. */
  lemma {:induction false} RunsAreBounded(c: Config, s: Pipe, run: seq<Step>, s': Pipe)
    requires Inv(c, s) && c.start <= c.max && Reaches(c, s, run, s')
    ensures |run| <= Work(c, s) - Work(c, s')
    decreases |run|
  {
    hide Inv, Do, Enabled, Work;
    if run != [] {
      StepKeepsInv(c, s, run[0]);
      StepUsesWork(c, s, run[0]);
      RunsAreBounded(c, Do(c, s, run[0]), run[1..], s');
    }
  }

  /** MAIN. With no skipped height, for every interleaving: blocks are staged exactly once and in
      consecutive height order, the final stage receives them in that order, the run is finite, and a state
      that cannot move has shut down cleanly after staging every dispatched block. */
  lemma EveryRunStagesInOrder(c: Config, run: seq<Step>, s: Pipe)
    requires c.short == {} && c.start <= c.max && Reaches(c, Initial(c), run, s)
    ensures c.start <= s.turn <= s.next <= c.max
    ensures s.staged == Range(c.start, s.turn) && s.ended + s.stage == s.staged
    ensures |run| <= Work(c, Initial(c)) - Work(c, s) <= Work(c, Initial(c))
    ensures Stuck(c, s) ==> Final(s) && s.turn == s.next && s.ended == Range(c.start, s.next)
  {
    InitialInv(c);
    RunKeepsInv(c, Initial(c), run, s);
    RunsAreBounded(c, Initial(c), run, s);
    if Stuck(c, s) {
      StuckShape(c, s);
      assert s.turn < s.next ==> InFlight(s, s.turn);
      assert s.stage == [];
    }
  }

  // ---- a skipped height ----

  /** Nothing at or above a skipped height is ever staged, on any run. */
  lemma SkippedHeightBlocksStaging(c: Config, run: seq<Step>, s: Pipe, h: nat)
    requires c.start <= h && h in c.short && Reaches(c, Initial(c), run, s)
    ensures c.start <= s.turn <= h && s.staged == Range(c.start, s.turn)
  {
    InitialInv(c);
    RunKeepsInv(c, Initial(c), run, s);
  }

  ghost predicate Reachable(c: Config, s: Pipe) {
    exists run :: Reaches(c, Initial(c), run, s)
  }

  lemma {:induction false} ReachesAppend(c: Config, s: Pipe, run: seq<Step>, s1: Pipe, step: Step)
    requires Reaches(c, s, run, s1) && Enabled(c, s1, step)
    ensures Reaches(c, s, run + [step], Do(c, s1, step))
    decreases |run|
  {
    hide Enabled, Do;
    if run == [] {
      assert run + [step] == [step] && [step][1..] == [];
    } else {
      ReachesAppend(c, Do(c, s, run[0]), run[1..], s1, step);
      assert (run + [step])[1..] == run[1..] + [step];
    }
  }

  lemma Extend(c: Config, s: Pipe, step: Step, s': Pipe)
    requires Reachable(c, s) && Enabled(c, s, step) && s' == Do(c, s, step)
    ensures Reachable(c, s')
  {
    var run :| Reaches(c, Initial(c), run, s);
    ReachesAppend(c, Initial(c), run, s, step);
  }

  /** All blocks below start + k went through one by one. */
  function Calm(c: Config, k: nat): Pipe {
    var h := c.start + k;
    Pipe(AtHead, h, 0, {}, [], false, Receiving, {}, h, Range(c.start, h), [], Range(c.start, h), 0)
  }

  lemma {:induction false} CalmReachable(c: Config, k: nat)
    requires c.start + k < c.max && forall h :: c.start <= h < c.start + k ==> h !in c.short
    ensures Reachable(c, Calm(c, k))
  {
    if k == 0 {
      assert Reaches(c, Initial(c), [], Calm(c, 0));
    } else {
      hide Reachable;
      CalmReachable(c, k - 1);
      CalmDispatch(c, k - 1);
      CalmStage(c, k - 1);
    }
  }

  /** The block at start + k is parsed and received; its turn has come. */
  function Received(c: Config, k: nat): Pipe {
    var h := c.start + k;
    Calm(c, k).(next := h + 1, tokens := 1, buffer := {h}, consumer := Draining)
  }

  lemma CalmDispatch(c: Config, k: nat)
    requires c.start + k < c.max && c.start + k !in c.short && Reachable(c, Calm(c, k))
    ensures Reachable(c, Received(c, k))
  {
    hide Reachable, Range;
    var h := c.start + k;
    var s0 := Calm(c, k);
    var s3 := s0.(next := h + 1, tokens := 1, ready := [h]);
    Extend(c, s0, Offer, s0.(producer := Offering));
    Extend(c, s0.(producer := Offering), Dispatch, s0.(next := h + 1, tokens := 1, working := {h}));
    Extend(c, s0.(next := h + 1, tokens := 1, working := {h}), Parsed(h), s3);
    Extend(c, s3, Receive, Received(c, k));
  }

  lemma CalmStage(c: Config, k: nat)
    requires c.start + k + 1 < c.max && Reachable(c, Received(c, k))
    ensures Reachable(c, Calm(c, k + 1))
  {
    hide Reachable, Range;
    var h := c.start + k;
    RangeGrows(c.start, h);
    var s4 := Received(c, k);
    var s8 := Calm(c, k + 1).(stage := [h], ended := Range(c.start, h));
    Extend(c, s4, TakeToken, s4.(tokens := 0, consumer := Staging));
    Extend(c, s4.(tokens := 0, consumer := Staging), StageBlock, s8.(consumer := Draining));
    Extend(c, s8.(consumer := Draining), DrainStop, s8);
    Extend(c, s8, EndTake, Calm(c, k + 1).(finishing := 1));
    Extend(c, Calm(c, k + 1).(finishing := 1), EndDone, Calm(c, k + 1));
  }

  /** The j heights from lo on. */
  function Interval(lo: nat, j: nat): (r: set<nat>)
    ensures forall h :: h in r <==> lo <= h < lo + j
  {
    if j == 0 then {} else Interval(lo, j - 1) + {lo + j - 1}
  }

  /** The heights among the first j above h that the producer dispatches. */
  function Dispatched(c: Config, h: nat, j: nat): set<nat> {
    Interval(h + 1, j) - c.short
  }

  lemma DispatchedStep(c: Config, h: nat, j: nat)
    ensures var x := h + 1 + j;
            && Dispatched(c, h, j + 1) == (if x in c.short then Dispatched(c, h, j) else Dispatched(c, h, j) + {x})
            && x !in Dispatched(c, h, j)
            && |Dispatched(c, h, j + 1)| == |Dispatched(c, h, j)| + (if x in c.short then 0 else 1)
  {
    var x := h + 1 + j;
    assert Dispatched(c, h, j + 1) == if x in c.short then Dispatched(c, h, j) else Dispatched(c, h, j) + {x};
  }

  /** The first skipped height. */
  predicate FirstSkipped(c: Config, h: nat) {
    c.start <= h < c.max && h in c.short && forall x :: c.start <= x < h ==> x !in c.short
  }

  /** The height k above start was skipped, and the dispatched blocks among the j after it wait in the buffer. */
  function Jam(c: Config, k: nat, j: nat): Pipe {
    var h := c.start + k;
    Calm(c, k).(next := h + 1 + j, tokens := |Dispatched(c, h, j)|, buffer := Dispatched(c, h, j))
  }

  lemma CalmFields(c: Config, k: nat)
    ensures Calm(c, k).producer.AtHead? && Calm(c, k).consumer.Receiving? && Calm(c, k).working == {} &&
            Calm(c, k).ready == []
    ensures Calm(c, k).turn == c.start + k
  {
  }

  lemma {:induction false} JamReachable(c: Config, k: nat, j: nat)
    requires FirstSkipped(c, c.start + k) && c.start + k + j < c.max && |Dispatched(c, c.start + k, j)| <= CAP
    ensures Reachable(c, Jam(c, k, j))
  {
    hide Reachable, Jam, FirstSkipped, Dispatched;
    if j == 0 {
      JamStart(c, k);
    } else {
      DispatchedStep(c, c.start + k, j - 1);
      JamReachable(c, k, j - 1);
      JamStep(c, k, j - 1);
    }
  }

  lemma JamStart(c: Config, k: nat)
    requires FirstSkipped(c, c.start + k)
    ensures Reachable(c, Jam(c, k, 0))
  {
    hide Reachable, Dispatched;
    CalmReachable(c, k);
    NoneDispatched(c, c.start + k);
    Extend(c, Calm(c, k), Skip, Jam(c, k, 0));
  }

  lemma JamStep(c: Config, k: nat, j: nat)
    requires FirstSkipped(c, c.start + k) && c.start + k + 1 + j < c.max && |Dispatched(c, c.start + k, j + 1)| <= CAP
    requires Reachable(c, Jam(c, k, j))
    ensures Reachable(c, Jam(c, k, j + 1))
  {
    hide Reachable, Calm, Range, Dispatched;
    CalmFields(c, k);
    DispatchedStep(c, c.start + k, j);
    if c.start + k + 1 + j in c.short {
      Extend(c, Jam(c, k, j), Skip, Jam(c, k, j + 1));
    } else {
      JamDispatch(c, k, j);
      JamReceive(c, k, j);
    }
  }

  /** The jam with the next block dispatched, being parsed. */
  function Parsing(c: Config, k: nat, j: nat): Pipe {
    var x := c.start + k + 1 + j;
    Jam(c, k, j).(next := x + 1, tokens := |Dispatched(c, c.start + k, j)| + 1, working := {x})
  }

  lemma JamDispatch(c: Config, k: nat, j: nat)
    requires c.start + k + 1 + j < c.max && c.start + k + 1 + j !in c.short && |Dispatched(c, c.start + k, j)| < CAP
    requires Reachable(c, Jam(c, k, j))
    ensures Reachable(c, Parsing(c, k, j))
  {
    hide Reachable, Calm, Range, Dispatched;
    var s := Jam(c, k, j);
    CalmFields(c, k);
    Extend(c, s, Offer, s.(producer := Offering));
    Extend(c, s.(producer := Offering), Dispatch, Parsing(c, k, j));
  }

  lemma JamReceive(c: Config, k: nat, j: nat)
    requires c.start + k + 1 + j < c.max && c.start + k + 1 + j !in c.short
    requires Reachable(c, Parsing(c, k, j))
    ensures Reachable(c, Jam(c, k, j + 1))
  {
    hide Reachable, Calm, Range, Dispatched;
    var x := c.start + k + 1 + j;
    CalmFields(c, k);
    DispatchedStep(c, c.start + k, j);
    var parsed := Parsing(c, k, j).(working := {}, ready := [x]);
    Extend(c, Parsing(c, k, j), Parsed(x), parsed);
    Extend(c, parsed, Receive, Jam(c, k, j + 1));
  }

  /** A run can get stuck, with the producer waiting forever for a token. */
  ghost predicate DeadlockReachable(c: Config) {
    exists s :: Reachable(c, s) && Stuck(c, s) && !Final(s)
  }

  /** Whatever heights are skipped, a deadlock is reachable if and only if more than 64 blocks are to be
      dispatched above the first of them. */
  lemma SkipDeadlocksIff(c: Config)
    requires c.start <= c.max
    ensures DeadlockReachable(c) <==> exists h: nat :: FirstSkipped(c, h) && |Dispatched(c, h, c.max - h - 1)| > 64
  {
    hide Reachable, Stuck, Final, Dispatched;
    if h: nat :| FirstSkipped(c, h) && |Dispatched(c, h, c.max - h - 1)| > CAP {
      var j := FullAt(c, h, c.max - h - 1);
      JamReachable(c, h - c.start, j);
      JamIsStuck(c, h - c.start, j);
    }
    if DeadlockReachable(c) {
      var s :| Reachable(c, s) && Stuck(c, s) && !Final(s);
      var h := DeadlockNeedsRoom(c, s);
    }
  }

  /** Where the buffer is full and the next height is to be dispatched. */
  lemma {:induction false} FullAt(c: Config, h: nat, n: nat) returns (j: nat)
    requires |Dispatched(c, h, n)| > CAP
    ensures j < n && |Dispatched(c, h, j)| == CAP && h + 1 + j !in c.short
  {
    hide Dispatched;
    NoneDispatched(c, h);
    DispatchedStep(c, h, n - 1);
    if |Dispatched(c, h, n - 1)| > CAP {
      j := FullAt(c, h, n - 1);
    } else {
      j := n - 1;
    }
  }

  lemma NoneDispatched(c: Config, h: nat)
    ensures Dispatched(c, h, 0) == {}
  {
  }

  lemma DeadlockNeedsRoom(c: Config, s: Pipe) returns (h: nat)
    requires c.start <= c.max && Reachable(c, s) && Stuck(c, s) && !Final(s)
    ensures FirstSkipped(c, h) && |Dispatched(c, h, c.max - h - 1)| > CAP
  {
    hide Stuck, Reaches;
    var run :| Reaches(c, Initial(c), run, s);
    InitialInv(c);
    RunKeepsInv(c, Initial(c), run, s);
    StuckShape(c, s);
    h := s.turn;
    var above := Dispatched(c, h, c.max - h - 1);
    forall x | x in s.buffer ensures x in above && x != s.next {
      assert InFlight(s, x);
    }
    SubsetSize(s.buffer, s.next, above);
  }

  lemma SubsetSize(s: set<nat>, x: nat, t: set<nat>)
    requires s <= t && x in t && x !in s
    ensures |t| > |s|
  {
    assert |t - {x}| == |t| - 1;
    SetSize(s, t - {x});
  }

  lemma {:induction false} SetSize(s: set<nat>, t: set<nat>)
    requires s <= t
    ensures |s| <= |t|
    decreases |s|
  {
    if s != {} {
      var x :| x in s;
      SetSize(s - {x}, t - {x});
    }
  }

  lemma JamIsStuck(c: Config, k: nat, j: nat)
    requires FirstSkipped(c, c.start + k) && c.start + k + 1 + j < c.max && c.start + k + 1 + j !in c.short
    requires |Dispatched(c, c.start + k, j)| == CAP && Reachable(c, Jam(c, k, j))
    ensures
      var s := Jam(c, k, j).(producer := Offering);
      Reachable(c, s) && Stuck(c, s) && !Final(s)
  {
    hide Dispatched, Reachable;
    var s := Jam(c, k, j);
    Extend(c, s, Offer, s.(producer := Offering));
    assert c.start + k !in s.buffer by { AboveOnly(c, c.start + k, j); }
  }

  lemma AboveOnly(c: Config, h: nat, j: nat)
    ensures h !in Dispatched(c, h, j)
  {
  }
}
