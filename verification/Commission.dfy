/** The delayed commission register: one pending update plus one promoted ratio per indexer stand in for
    the full history of updates. */
module Commission {
  import opened Words
  import opened Maps
  import opened Ledger
  import opened Penalty

  const MAX_RATIO: real := 0.15

  datatype Update = Update(ratio: real, height: nat, effective: nat)

  /** What the store keeps for one indexer. */
  datatype Register = Register(pending: Option<Update>, promoted: Option<real>)

  const EMPTY: Register := Register(None, None)

  // ---- the reference: the whole history ----

  /** The ratio of the latest update that is effective at height h, else the registered one. */
  function RatioAt(history: seq<Update>, registered: real, h: nat): real {
    if history == [] then registered
    else if history[|history| - 1].effective <= h then history[|history| - 1].ratio
    else RatioAt(history[..|history| - 1], registered, h)
  }

  /** RatioAt is what its name says. */
  lemma {:induction false} RatioAtIsLatest(history: seq<Update>, registered: real, h: nat)
    ensures forall i :: 0 <= i < |history| && history[i].effective <= h
                        && (forall j :: i < j < |history| ==> history[j].effective > h)
                        ==> RatioAt(history, registered, h) == history[i].ratio
    ensures (forall i :: 0 <= i < |history| ==> history[i].effective > h) ==>
                         RatioAt(history, registered, h) == registered
  {
    if history != [] && history[|history| - 1].effective > h {
      RatioAtIsLatest(history[..|history| - 1], registered, h);
    }
  }

  // ---- the register's operations ----

  function Promote(r: Register, h: nat): Register {
    if r.pending.Some? && r.pending.value.effective <= h then r.(promoted := Some(r.pending.value.ratio)) else r
  }

  predicate Uneffective(r: Register, h: nat) {
    r.pending.Some? && r.pending.value.effective > h
  }

  /** Promote what is due, then overwrite the pending slot. */
  function Overwrite(r: Register, u: Update): Register {
    Promote(r, u.height).(pending := Some(u))
  }

  function Read(r: Register, registered: real, h: nat): real {
    match Promote(r, h).promoted
    case Some(ratio) => ratio
    case None => registered
  }

  // ---- the register represents the history ----

  /** r may be the register at height `clock` after the accepted updates `history`: what it promoted is the
      ratio in force before the last update or, once that one is effective, its ratio. */
  ghost predicate Represents(r: Register, history: seq<Update>, registered: real, clock: nat) {
    var current := if r.promoted.Some? then r.promoted.value else registered;
    if history == [] then r == EMPTY
    else
      var last := history[|history| - 1];
      && r.pending == Some(last) && last.height <= clock
      && (|history| > 1 ==> history[|history| - 2].effective <= last.height)
      && (current == RatioAt(history[..|history| - 1], registered, last.height) ||
          (last.effective <= clock && current == last.ratio))
  }

  /** Between the last update and its activation nothing changes. */
  lemma StableUntilActivation(r: Register, history: seq<Update>, registered: real, clock: nat, h: nat)
    requires Represents(r, history, registered, clock) && history != [] && clock <= h
    ensures var before := history[..|history| - 1];
            RatioAt(before, registered, h) == RatioAt(before, registered, history[|history| - 1].height)
  {
  }

  /** Reading gives the ratio of the latest update whose activation height has passed. */
  lemma ReadIsRatioAt(r: Register, history: seq<Update>, registered: real, clock: nat, h: nat)
    requires Represents(r, history, registered, clock) && clock <= h
    ensures Read(r, registered, h) == RatioAt(history, registered, h)
    ensures Represents(Promote(r, h), history, registered, h)
  {
    if history != [] {
      StableUntilActivation(r, history, registered, clock, h);
    }
  }

  lemma OverwriteKeeps(r: Register, history: seq<Update>, registered: real, clock: nat, u: Update)
    requires Represents(r, history, registered, clock) && clock <= u.height && !Uneffective(r, u.height)
    ensures Represents(Overwrite(r, u), history + [u], registered, u.height)
  {
    assert (history + [u])[..|history|] == history;
    ReadIsRatioAt(r, history, registered, clock, u.height);
  }

  // ---- every run ----

  datatype Op = Submit(ratio: real, height: nat) | Look(height: nat)

  function MakeUpdate(ratio: real, height: nat, activation: nat): Update {
    Update(ratio, height, (height + activation) % UINT32)
  }

  /** An update is accepted when its ratio is in range and none is waiting to become effective. */
  predicate Accepts(r: Register, ratio: real, height: nat) {
    0.0 <= ratio <= MAX_RATIO && !Uneffective(r, height)
  }

  function Run(ops: seq<Op>, activation: nat): Register {
    if ops == [] then EMPTY
    else
      var r := Run(ops[..|ops| - 1], activation);
      match ops[|ops| - 1]
      case Look(h) => Promote(r, h)
      case Submit(ratio, h) => if Accepts(r, ratio, h) then Overwrite(r, MakeUpdate(ratio, h, activation)) else r
  }

  predicate Allows(history: seq<Update>, ratio: real, height: nat) {
    0.0 <= ratio <= MAX_RATIO && forall i :: 0 <= i < |history| ==> history[i].effective <= height
  }

  /** The accepted updates of a run, judged by the whole history: all earlier ones must be effective. */
  function Accepted(ops: seq<Op>, activation: nat): seq<Update> {
    if ops == [] then []
    else
      var history := Accepted(ops[..|ops| - 1], activation);
      match ops[|ops| - 1]
      case Look(_) => history
      case Submit(ratio, h) =>
        if Allows(history, ratio, h)
        then history + [MakeUpdate(ratio, h, activation)] else history
  }

  ghost predicate Ordered(ops: seq<Op>) {
    forall i, j :: 0 <= i < j < |ops| ==> ops[i].height <= ops[j].height
  }

  function Clock(ops: seq<Op>): nat {
    if ops == [] then 0 else ops[|ops| - 1].height
  }

  ghost predicate AllEffectiveButLast(history: seq<Update>, clock: nat) {
    forall i :: 0 <= i < |history| - 1 ==> history[i].effective <= clock
  }

  lemma {:induction false} RunRepresents(ops: seq<Op>, registered: real, activation: nat)
    requires Ordered(ops)
    ensures Represents(Run(ops, activation), Accepted(ops, activation), registered, Clock(ops))
    ensures AllEffectiveButLast(Accepted(ops, activation), Clock(ops))
  {
    hide Represents, RatioAt, Overwrite, Promote, Uneffective, MakeUpdate, AllEffectiveButLast;
    if ops == [] {
      NothingYet(registered);
    } else {
      var prior, op := ops[..|ops| - 1], ops[|ops| - 1];
      RunRepresents(prior, registered, activation);
      RunStep(Run(prior, activation), Accepted(prior, activation), registered, Clock(prior), op, activation);
      if op.Submit? {
        var r, history := Run(prior, activation), Accepted(prior, activation);
        assert Accepts(r, op.ratio, op.height) <==> Allows(history, op.ratio, op.height);
      }
    }
  }

  lemma NothingYet(registered: real)
    ensures Represents(EMPTY, [], registered, 0) && AllEffectiveButLast([], 0)
  {
  }

  lemma RunStep(r: Register, history: seq<Update>, registered: real, clock: nat, op: Op, activation: nat)
    requires Represents(r, history, registered, clock) && clock <= op.height && AllEffectiveButLast(history, clock)
    ensures op.Look? ==> Represents(Promote(r, op.height), history, registered, op.height)
    ensures Uneffective(r, op.height) <==> exists i :: 0 <= i < |history| && history[i].effective > op.height
    ensures op.Submit? && !Uneffective(r, op.height) ==>
              Represents(Overwrite(r, MakeUpdate(op.ratio, op.height, activation)),
                         history + [MakeUpdate(op.ratio, op.height, activation)], registered, op.height)
    ensures Represents(r, history, registered, op.height) && AllEffectiveButLast(history, op.height)
    ensures op.Submit? && !Uneffective(r, op.height) ==>
              AllEffectiveButLast(history + [MakeUpdate(op.ratio, op.height, activation)], op.height)
  {
    hide Promote, Overwrite, RatioAt;
    ReadIsRatioAt(r, history, registered, clock, op.height);
    if op.Submit? && !Uneffective(r, op.height) {
      OverwriteKeeps(r, history, registered, clock, MakeUpdate(op.ratio, op.height, activation));
    }
  }

  /** Over every run of updates and reads at non-decreasing heights, the one-slot register answers like the
      full history of accepted updates, at every height from the last operation on. */
  lemma EveryRunReadsLatest(ops: seq<Op>, registered: real, activation: nat, h: nat)
    requires Ordered(ops) && Clock(ops) <= h
    ensures Read(Run(ops, activation), registered, h) == RatioAt(Accepted(ops, activation), registered, h)
  {
    RunRepresents(ops, registered, activation);
    ReadIsRatioAt(Run(ops, activation), Accepted(ops, activation), registered, Clock(ops), h);
  }

  // ---- replaying accepted updates ----

  /** The register after overwriting with one update after another, without looking at the guard. */
  function Replay(history: seq<Update>): Register {
    if history == [] then EMPTY else Overwrite(Replay(history[..|history| - 1]), history[|history| - 1])
  }

  /** Every update was made once the one before it was effective. */
  ghost predicate Spaced(history: seq<Update>) {
    forall i :: 0 <= i < |history| - 1 ==>
                history[i].effective <= history[i + 1].height && history[i].height <= history[i + 1].height
  }

  lemma {:induction false} AcceptedIsSpaced(ops: seq<Op>, activation: nat)
    requires Ordered(ops)
    ensures Spaced(Accepted(ops, activation))
    ensures forall i :: 0 <= i < |Accepted(ops, activation)| ==> Accepted(ops, activation)[i].height <= Clock(ops)
  {
    if ops != [] {
      AcceptedIsSpaced(ops[..|ops| - 1], activation);
    }
  }

  lemma {:induction false} ReplayRepresents(history: seq<Update>, registered: real)
    requires Spaced(history)
    ensures history == [] ==> Represents(Replay(history), history, registered, 0)
    ensures history != [] ==> Represents(Replay(history), history, registered, history[|history| - 1].height)
  {
    if history != [] {
      var n := |history| - 1;
      var earlier, u := history[..n], history[n];
      ReplayRepresents(earlier, registered);
      assert history == earlier + [u];
      OverwriteKeeps(Replay(earlier), earlier, registered, if n == 0 then 0 else earlier[n - 1].height, u);
    }
  }

  /** The lagged register, to which the updates accepted at the tip are replayed without a guard of its own,
      answers like the full history all the same. */
  lemma ReplayReadsLatest(ops: seq<Op>, registered: real, activation: nat, h: nat)
    requires Ordered(ops) && Clock(ops) <= h
    ensures Read(Replay(Accepted(ops, activation)), registered, h) == RatioAt(Accepted(ops, activation), registered, h)
  {
    var history := Accepted(ops, activation);
    AcceptedIsSpaced(ops, activation);
    ReplayRepresents(history, registered);
    ReadIsRatioAt(Replay(history), history, registered, if history == [] then 0 else history[|history| - 1].height, h);
  }

  // ---- falling back to the live register ----

  /** The live ratio: height 0 promotes nothing. */
  function ReadLive(live: Register, registered: real, h: nat): real {
    if h > 0 then Read(live, registered, h)
    else if live.promoted.Some? then live.promoted.value else registered
  }

  /** What reading the live ratio does to the live register. */
  function PromoteLive(live: Register, h: nat): Register {
    if h > 0 then Promote(live, h) else live
  }

  /** What a settlement reads: the lagged register and, where it never promoted anything, the live one. */
  function ReadBoth(lagged: Register, live: Register, registered: real, h: nat): real {
    match Promote(lagged, h).promoted
    case Some(ratio) => ratio
    case None => ReadLive(live, registered, h)
  }

  /** What happens to a register: an accepted update overwrites the slot, a settlement at a height looks. */
  datatype Touch = Made(update: Update) | Looked(at: nat)

  function Touched(r: Register, touch: Touch): Register {
    match touch
    case Made(u) => Overwrite(r, u)
    case Looked(p) => Promote(r, p)
  }

  function After(touches: seq<Touch>): Register {
    if touches == [] then EMPTY else Touched(After(touches[..|touches| - 1]), touches[|touches| - 1])
  }

  function MadeIn(touches: seq<Touch>): seq<Update> {
    if touches == [] then []
    else
      var earlier := MadeIn(touches[..|touches| - 1]);
      match touches[|touches| - 1]
      case Made(u) => earlier + [u]
      case Looked(_) => earlier
  }

  predicate LooksUpTo(touches: seq<Touch>, h: nat) {
    forall i :: 0 <= i < |touches| && touches[i].Looked? ==> touches[i].at <= h
  }

  /** Looks up to h leave the replayed register, or have promoted its pending update, effective by h. */
  ghost predicate OnlyPromoted(r: Register, history: seq<Update>, h: nat) {
    || r == Replay(history)
    || (history != [] && history[|history| - 1].effective <= h
        && r == Replay(history).(promoted := Some(history[|history| - 1].ratio)))
  }

  lemma ReplayShape(history: seq<Update>)
    requires Spaced(history)
    ensures history == [] ==> Replay(history) == EMPTY
    ensures history != [] ==> Replay(history).pending == Some(history[|history| - 1])
    ensures Replay(history).promoted == if |history| < 2 then None else Some(history[|history| - 2].ratio)
  {
    if |history| >= 2 {
      var earlier := history[..|history| - 1];
      assert Replay(earlier).pending == Some(earlier[|earlier| - 1]);
      assert earlier[|earlier| - 1] == history[|history| - 2];
    }
  }

  lemma {:induction false} LooksOnlyPromote(touches: seq<Touch>, h: nat)
    requires Spaced(MadeIn(touches)) && LooksUpTo(touches, h)
    ensures OnlyPromoted(After(touches), MadeIn(touches), h)
    decreases |touches|
  {
    if touches != [] {
      var earlier, touch := touches[..|touches| - 1], touches[|touches| - 1];
      var before := MadeIn(earlier);
      assert touch.Made? ==> MadeIn(touches)[..|before|] == before;
      assert Spaced(before);
      LooksOnlyPromote(earlier, h);
      ReplayShape(before);
    }
  }

  /** No update is effective before it is made; heights and activation do not overflow 32 bits. */
  ghost predicate Forward(history: seq<Update>) {
    forall i :: 0 <= i < |history| ==> history[i].height <= history[i].effective
  }

  lemma {:induction false} AcceptedIsForward(ops: seq<Op>, activation: nat)
    requires forall i :: 0 <= i < |ops| ==> ops[i].height + activation < UINT32
    ensures Forward(Accepted(ops, activation))
    decreases |ops|
  {
    if ops != [] {
      AcceptedIsForward(ops[..|ops| - 1], activation);
    }
  }

  /** The first k updates are those made by height h. */
  ghost predicate MadeBy(history: seq<Update>, k: nat, h: nat) {
    && k <= |history|
    && (forall i :: 0 <= i < k ==> history[i].height <= h)
    && (forall i :: k <= i < |history| ==> history[i].height > h)
  }

  lemma {:induction false} LaterDoNotCount(history: seq<Update>, registered: real, k: nat, h: nat)
    requires Forward(history) && MadeBy(history, k, h)
    ensures RatioAt(history, registered, h) == RatioAt(history[..k], registered, h)
    decreases |history|
  {
    if k < |history| {
      var earlier := history[..|history| - 1];
      LaterDoNotCount(earlier, registered, k, h);
      assert earlier[..k] == history[..k];
    } else {
      assert history[..k] == history;
    }
  }

  /** The first update is effective before every later one is made. */
  lemma {:induction false} FirstIsEarliest(history: seq<Update>, i: nat)
    requires Spaced(history) && Forward(history) && i < |history|
    ensures history[0].effective <= history[i].effective
  {
    if i > 0 {
      FirstIsEarliest(history, i - 1);
    }
  }

  /** The lagged register has promoted something by h exactly when the first update is effective by then. */
  lemma LaggedPromotedIff(lagged: seq<Touch>, history: seq<Update>, k: nat, h: nat)
    requires Spaced(history) && Forward(history) && MadeBy(history, k, h)
    requires MadeIn(lagged) == history[..k] && LooksUpTo(lagged, h)
    ensures Promote(After(lagged), h).promoted.Some? <==> history != [] && history[0].effective <= h
  {
    hide After, Replay;
    LooksOnlyPromote(lagged, h);
    ReplayShape(history[..k]);
    if k >= 1 {
      FirstIsEarliest(history, k - 1);
    }
    if k >= 2 {
      assert history[0].effective <= history[1].height;
    }
    if k == 0 && history != [] {
      assert history[0].height > h;
    }
  }

  /** Having looked earlier changes nothing that is read later. */
  lemma LookedReads(r: Register, history: seq<Update>, registered: real, h: nat)
    requires Spaced(history) && OnlyPromoted(r, history, h)
    ensures Read(r, registered, h) == Read(Replay(history), registered, h)
  {
    hide Replay;
    ReplayShape(history);
  }

  lemma LaggedReads(lagged: seq<Touch>, history: seq<Update>, registered: real, k: nat, h: nat)
    requires Spaced(history) && Forward(history) && MadeBy(history, k, h)
    requires MadeIn(lagged) == history[..k] && LooksUpTo(lagged, h)
    ensures Read(After(lagged), registered, h) == RatioAt(history, registered, h)
  {
    hide After, Replay, RatioAt, Represents, OnlyPromoted, Read;
    LaterDoNotCount(history, registered, k, h);
    LooksOnlyPromote(lagged, h);
    LookedReads(After(lagged), history[..k], registered, h);
    ReplayRepresents(history[..k], registered);
    var clock := if k == 0 then 0 else history[k - 1].height;
    ReadIsRatioAt(Replay(history[..k]), history[..k], registered, clock, h);
  }

  /** The settling consumer at height h, with a lagged register that has seen the updates made by h and a live one that
      has seen them all, whatever earlier settlements looked at: the ratio read is the one in force at h if and only if
      there are fewer than two updates, the first is effective by h, or the last but one has the registered ratio.
      Otherwise the live register answers with a ratio from the future. (The pending consumer falls back to keys that no
      accepted update writes, and so to the registered ratio.) */
  lemma LiveFallbackIff(lagged: seq<Touch>, live: seq<Touch>, history: seq<Update>, registered: real, k: nat, h: nat)
    requires Spaced(history) && Forward(history) && MadeBy(history, k, h)
    requires MadeIn(lagged) == history[..k] && LooksUpTo(lagged, h)
    requires MadeIn(live) == history && LooksUpTo(live, h)
    ensures ReadBoth(After(lagged), After(live), registered, h) == RatioAt(history, registered, h)
            <==> |history| < 2 || history[0].effective <= h || history[|history| - 2].ratio == registered
  {
    hide After, Replay, RatioAt, MadeIn;
    LaggedPromotedIff(lagged, history, k, h);
    LaggedReads(lagged, history, registered, k, h);
    LooksOnlyPromote(live, h);
    ReplayShape(history);
    if history != [] {
      FirstIsEarliest(history, |history| - 1);
    }
  }

  /** A first update at height 10, effective at 20, and a second at 25, which promotes the first in the live
      register: settling height 15 then reads the first although it is not effective there. */
  lemma LiveFallbackLeaks(registered: real, ratio: real, second: real)
    requires registered != ratio
    ensures var u, v := Update(ratio, 10, 20), Update(second, 25, 35);
            && RatioAt([u, v], registered, 15) == registered
            && ReadBoth(Replay([u]), Replay([u, v]), registered, 15) == ratio
  {
    var u, v := Update(ratio, 10, 20), Update(second, 25, 35);
    assert [u][..0] == [] && [u, v][..1] == [u];
    assert RatioAt([u], registered, 15) == registered;
    ReplayShape([u]);
    ReplayShape([u, v]);
  }

  // ---- every run of the tip and the settling consumer ----

  /** The tip accepts an update; the consumer replays the updates of the next block and, when it pays the indexer,
      reads its ratio. */
  datatype Event = Accept(update: Update) | Consume(pays: bool)

  /** The updates accepted so far, the last consumed height, how many updates were replayed by then, and what has
      happened to each register. */
  datatype Both = Both(history: seq<Update>, consumed: nat, replayed: nat, lagged: seq<Touch>, live: seq<Touch>)

  const NOTHING: Both := Both([], 0, 0, [], [])

  /** How many of the updates were made by height h. */
  function CountBy(history: seq<Update>, h: nat): (k: nat)
    ensures k <= |history|
  {
    if history == [] then 0
    else if history[|history| - 1].height <= h then |history|
    else CountBy(history[..|history| - 1], h)
  }

  function AllMade(history: seq<Update>): (touches: seq<Touch>)
    ensures |touches| == |history| && forall i :: 0 <= i < |touches| ==> touches[i] == Made(history[i])
  {
    seq(|history|, i requires 0 <= i < |history| => Made(history[i]))
  }

  /** The tip is ahead of the consumer and accepts an update when none is waiting. */
  predicate Possible(s: Both, e: Event) {
    match e
    case Accept(u) =>
      && s.consumed < u.height <= u.effective && Accepts(After(s.live), u.ratio, u.height)
      && (s.history != [] ==> s.history[|s.history| - 1].height <= u.height)
    case Consume(_) => true
  }

  /** The lagged register's touches once the updates of the block to be settled are replayed. */
  function Replayed(s: Both): seq<Touch>
    requires s.replayed <= CountBy(s.history, s.consumed + 1)
  {
    s.lagged + AllMade(s.history[s.replayed..CountBy(s.history, s.consumed + 1)])
  }

  function React(s: Both, e: Event): Both {
    match e
    case Accept(u) => s.(history := s.history + [u], live := s.live + [Made(u)])
    case Consume(pays) =>
      var h, k := s.consumed + 1, CountBy(s.history, s.consumed + 1);
      if s.replayed > k then s
      else
        var lagged := Replayed(s) + if pays then [Looked(h)] else [];
        s.(consumed := h, replayed := k, lagged := lagged,
           live := if pays && After(lagged).promoted.None? then s.live + [Looked(h)] else s.live)
  }

  function Follow(events: seq<Event>): Both {
    if events == [] then NOTHING else React(Follow(events[..|events| - 1]), events[|events| - 1])
  }

  predicate AllPossible(events: seq<Event>) {
    events == [] || (AllPossible(events[..|events| - 1])
                     && Possible(Follow(events[..|events| - 1]), events[|events| - 1]))
  }

  ghost predicate InStep(s: Both) {
    && Spaced(s.history) && Forward(s.history) && MadeBy(s.history, s.replayed, s.consumed)
    && MadeIn(s.lagged) == s.history[..s.replayed] && MadeIn(s.live) == s.history
    && LooksUpTo(s.lagged, s.consumed) && LooksUpTo(s.live, s.consumed)
  }

  lemma {:induction false} CountIsMadeBy(history: seq<Update>, h: nat)
    requires Spaced(history)
    ensures MadeBy(history, CountBy(history, h), h)
  {
    if history != [] {
      var n := |history| - 1;
      if history[n].height <= h {
        forall i | 0 <= i < |history| ensures history[i].height <= h { HeightsRise(history, i, n); }
      } else {
        CountIsMadeBy(history[..n], h);
      }
    }
  }

  lemma {:induction false} HeightsRise(history: seq<Update>, i: nat, j: nat)
    requires Spaced(history) && i <= j < |history|
    ensures history[i].height <= history[j].height
    decreases j
  {
    if i < j {
      HeightsRise(history, i, j - 1);
    }
  }

  lemma MadeInNext(touches: seq<Touch>, touch: Touch)
    ensures MadeIn(touches + [touch]) == if touch.Made? then MadeIn(touches) + [touch.update] else MadeIn(touches)
  {
    assert (touches + [touch])[..|touches|] == touches;
  }

  lemma {:induction false} MadeInAll(touches: seq<Touch>, history: seq<Update>)
    ensures MadeIn(touches + AllMade(history)) == MadeIn(touches) + history
    decreases |history|
  {
    hide MadeIn, AllMade;
    if history == [] {
      assert touches + AllMade(history) == touches;
    } else {
      var n := |history| - 1;
      MadeInAll(touches, history[..n]);
      MadeInNext(touches + AllMade(history[..n]), Made(history[n]));
      AllMadeNext(touches, history);
      LastJoined(MadeIn(touches), history);
    }
  }

  lemma AllMadeNext(touches: seq<Touch>, history: seq<Update>)
    requires history != []
    ensures var n := |history| - 1;
            touches + AllMade(history) == touches + AllMade(history[..n]) + [Made(history[n])]
  {
  }

  lemma LastJoined(made: seq<Update>, history: seq<Update>)
    requires history != []
    ensures made + history == made + history[..|history| - 1] + [history[|history| - 1]]
  {
  }

  lemma MoreMadeLater(history: seq<Update>, k: nat, h: nat, l: nat, g: nat)
    requires MadeBy(history, k, h) && MadeBy(history, l, g) && h <= g
    ensures k <= l
  {
    if l < |history| {
      assert history[l].height > g;
    }
  }

  /** Once the updates of the next block are replayed, those made by its height have been. */
  lemma ReplayedSees(s: Both)
    requires InStep(s)
    ensures var k := CountBy(s.history, s.consumed + 1);
            && s.replayed <= k && MadeBy(s.history, k, s.consumed + 1)
            && MadeIn(Replayed(s)) == s.history[..k] && LooksUpTo(Replayed(s), s.consumed + 1)
  {
    hide Spaced, Forward, MadeIn;
    var k := CountBy(s.history, s.consumed + 1);
    CountIsMadeBy(s.history, s.consumed + 1);
    MoreMadeLater(s.history, s.replayed, s.consumed, k, s.consumed + 1);
    MadeInAll(s.lagged, s.history[s.replayed..k]);
    assert s.history[..k] == s.history[..s.replayed] + s.history[s.replayed..k];
  }

  lemma AcceptIsSpaced(s: Both, u: Update)
    requires InStep(s) && Possible(s, Accept(u))
    ensures Spaced(s.history + [u])
  {
    hide After, MadeIn, Replay, MadeBy, Forward;
    LooksOnlyPromote(s.live, s.consumed);
    ReplayShape(s.history);
  }

  lemma AcceptKeepsInStep(s: Both, u: Update)
    requires InStep(s) && Possible(s, Accept(u))
    ensures InStep(React(s, Accept(u)))
  {
    hide After, MadeIn, Spaced;
    AcceptIsSpaced(s, u);
    MadeInNext(s.live, Made(u));
    assert (s.history + [u])[..s.replayed] == s.history[..s.replayed];
  }

  lemma ConsumeKeepsInStep(s: Both, pays: bool)
    requires InStep(s)
    ensures InStep(React(s, Consume(pays))) && React(s, Consume(pays)).consumed == s.consumed + 1
  {
    hide After, MadeIn, Spaced, Forward, MadeBy, Replayed, CountBy;
    ReplayedSees(s);
    MadeInNext(Replayed(s), Looked(s.consumed + 1));
    MadeInNext(s.live, Looked(s.consumed + 1));
    assert Replayed(s) + [] == Replayed(s);
  }

  lemma {:induction false} FollowInStep(events: seq<Event>)
    requires AllPossible(events)
    ensures InStep(Follow(events))
    decreases |events|
  {
    hide InStep, Possible, React;
    if events == [] {
      NothingInStep();
    } else {
      var s, e := Follow(events[..|events| - 1]), events[|events| - 1];
      FollowInStep(events[..|events| - 1]);
      match e
      case Accept(u) => AcceptKeepsInStep(s, u);
      case Consume(pays) => ConsumeKeepsInStep(s, pays);
    }
  }

  lemma NothingInStep()
    ensures InStep(NOTHING)
  {
  }

  lemma AfterNext(touches: seq<Touch>, touch: Touch)
    ensures After(touches + [touch]) == Touched(After(touches), touch)
  {
    assert (touches + [touch])[..|touches|] == touches;
  }

  /** What the settlement of the next height reads. */
  function SettledRatio(s: Both, registered: real): real
    requires s.replayed <= CountBy(s.history, s.consumed + 1)
  {
    ReadBoth(After(Replayed(s)), After(s.live), registered, s.consumed + 1)
  }

  /** Over every run of the tip and the settling consumer, each settlement reads the ratio in force at its height if
      and only if fewer than two updates have been accepted so far, the first is effective there, or the last but one
      has the registered ratio; and no update accepted later changes what was in force there. */
  lemma EverySettlementIff(events: seq<Event>, registered: real, later: seq<Update>)
    requires AllPossible(events)
    requires forall i :: 0 <= i < |later| ==> Follow(events).consumed + 1 < later[i].height <= later[i].effective
    ensures var s := Follow(events);
            var h := s.consumed + 1;
            && s.replayed <= CountBy(s.history, h)
            && (SettledRatio(s, registered) == RatioAt(s.history + later, registered, h)
                <==> |s.history| < 2 || s.history[0].effective <= h || s.history[|s.history| - 2].ratio == registered)
  {
    hide InStep, RatioAt, SettledRatio, CountBy, Follow, AllPossible;
    FollowInStep(events);
    NextSettlement(Follow(events), registered);
    LaterKeepsRatio(Follow(events), registered, later);
  }

  lemma LaterKeepsRatio(s: Both, registered: real, later: seq<Update>)
    requires InStep(s) && forall i :: 0 <= i < |later| ==> s.consumed + 1 < later[i].height <= later[i].effective
    ensures RatioAt(s.history + later, registered, s.consumed + 1) == RatioAt(s.history, registered, s.consumed + 1)
  {
    hide RatioAt, MadeIn, LooksUpTo, CountBy;
    var h := s.consumed + 1;
    var k := CountBy(s.history, h);
    CountIsMadeBy(s.history, h);
    LaterDoNotCount(s.history, registered, k, h);
    LaterDoNotCount(s.history + later, registered, k, h);
    assert (s.history + later)[..k] == s.history[..k];
  }

  lemma NextSettlement(s: Both, registered: real)
    requires InStep(s)
    ensures s.replayed <= CountBy(s.history, s.consumed + 1)
    ensures SettledRatio(s, registered) == RatioAt(s.history, registered, s.consumed + 1)
            <==> |s.history| < 2 || s.history[0].effective <= s.consumed + 1
                 || s.history[|s.history| - 2].ratio == registered
  {
    hide RatioAt, ReadBoth, After, Replayed, CountBy, MadeBy, MadeIn;
    var h := s.consumed + 1;
    ReplayedSees(s);
    LiveFallbackIff(Replayed(s), s.live, s.history, registered, CountBy(s.history, h), h);
  }

  // ---- why the guard is needed ----

  /** Overwriting an update that is not yet effective is harmless exactly when that update would never have
      shown: it changes nothing, or the new one becomes effective no later. */
  lemma UnguardedOverwriteIff(r: Register, history: seq<Update>, registered: real, clock: nat, u: Update)
    requires Represents(r, history, registered, clock) && clock <= u.height && Uneffective(r, u.height)
    ensures (forall h :: h >= u.height ==>
                         Read(Overwrite(r, u), registered, h) == RatioAt(history + [u], registered, h))
            <==> (var lost := history[|history| - 1];
                  lost.ratio == RatioAt(history, registered, u.height) || u.effective <= lost.effective)
  {
    hide Represents, Read, Overwrite, RatioAt;
    var lost := LastOf(r, history, registered, clock, u.height);
    forall h | h >= u.height
      ensures Read(Overwrite(r, u), registered, h) ==
              if u.effective <= h then u.ratio else RatioAt(history, registered, u.height)
      ensures RatioAt(history + [u], registered, h) ==
              if u.effective <= h then u.ratio
              else if lost.effective <= h then lost.ratio
              else RatioAt(history, registered, u.height)
    {
      UnguardedRead(r, history, registered, clock, u, h);
    }
    if u.effective > lost.effective && lost.ratio != RatioAt(history, registered, u.height) {
      var h := lost.effective;
      assert h >= u.height && Read(Overwrite(r, u), registered, h) != RatioAt(history + [u], registered, h);
    }
  }

  lemma LastOf(r: Register, history: seq<Update>, registered: real, clock: nat, h: nat) returns (lost: Update)
    requires Represents(r, history, registered, clock) && clock <= h && Uneffective(r, h)
    ensures history != [] && lost == history[|history| - 1] && lost.effective > h
  {
    lost := history[|history| - 1];
  }

  lemma UnguardedRead(r: Register, history: seq<Update>, registered: real, clock: nat, u: Update, h: nat)
    requires Represents(r, history, registered, clock) && clock <= u.height && Uneffective(r, u.height) && h >= u.height
    requires history != []
    ensures Read(Overwrite(r, u), registered, h) ==
            if u.effective <= h then u.ratio else RatioAt(history, registered, u.height)
    ensures RatioAt(history + [u], registered, h) ==
            if u.effective <= h then u.ratio
            else if history[|history| - 1].effective <= h then history[|history| - 1].ratio
            else RatioAt(history, registered, u.height)
  {
    assert (history + [u])[..|history|] == history;
    ReadIsRatioAt(r, history, registered, clock, u.height);
    ReadIsRatioAt(r, history, registered, clock, h);
  }

  // ---- the store: staged writes over Redis hashes ----

  /** The delayed-commission and ratio hashes of one reward consumer: writes are staged in memory, reads see
      staged values first, and a flush moves them to Redis. */
  class CommissionStore {
    var stagedDelayed: map<IndexerId, Update>
    var storedDelayed: map<IndexerId, Update>
    var stagedRatio: map<IndexerId, real>
    var storedRatio: map<IndexerId, real>
    const registered: map<IndexerId, real>
    const activation: nat

    constructor (registered: map<IndexerId, real>, activation: nat)
      ensures forall i :: Of(i) == EMPTY
      ensures this.registered == registered && this.activation == activation
    {
      stagedDelayed, storedDelayed, stagedRatio, storedRatio := map[], map[], map[], map[];
      this.registered, this.activation := registered, activation;
    }

    function Lookup<T>(staged: map<IndexerId, T>, stored: map<IndexerId, T>, i: IndexerId): Option<T> {
      if i in staged then Some(staged[i]) else if i in stored then Some(stored[i]) else None
    }

    function Of(i: IndexerId): Register
      reads this
    {
      Register(Lookup(stagedDelayed, storedDelayed, i), Lookup(stagedRatio, storedRatio, i))
    }

    function Registered(i: IndexerId): real {
      if i in registered then registered[i] else 0.0
    }

    method StageCommissionRatioForHeight(height: nat, i: IndexerId)
      modifies this`stagedRatio
      ensures Of(i) == Promote(old(Of(i)), height)
      ensures forall j :: j != i ==> Of(j) == old(Of(j))
    {
      var item := Lookup(stagedDelayed, storedDelayed, i);
      if item.None? || item.value.effective > height {
        return;
      }
      stagedRatio := stagedRatio[i := item.value.ratio];
    }

    method HasUneffectiveDelayedCommissionRatio(i: IndexerId, height: nat) returns (r: bool)
      ensures r == Uneffective(Of(i), height)
    {
      var item := Lookup(stagedDelayed, storedDelayed, i);
      r := item.Some? && item.value.effective > height;
    }

    /** Accepts the update when it comes from the indexer's user and the rules allow it: one step of Run for
        this indexer, nothing for others. */
    method UpdateRatio(height: nat, i: IndexerId, ratio: real, user: Option<Address>, actor: Option<Address>)
      returns (accepted: bool)
      modifies this`stagedRatio, this`stagedDelayed
      ensures accepted == (user.Some? && actor == user && Accepts(old(Of(i)), ratio, height))
      ensures accepted <==> && user.Some? && actor == user && 0.0 <= ratio <= 0.15
                            && (old(Of(i)).pending.Some? ==> old(Of(i)).pending.value.effective <= height)
      ensures Of(i) == if accepted then Overwrite(old(Of(i)), MakeUpdate(ratio, height, activation)) else old(Of(i))
      ensures accepted ==> Of(i).pending == Some(Update(ratio, height, (height + activation) % 0x1_0000_0000))
      ensures forall j :: j != i ==> Of(j) == old(Of(j))
    {
      var waiting := HasUneffectiveDelayedCommissionRatio(i, height);
      accepted := user.Some? && actor == user && 0.0 <= ratio && ratio <= MAX_RATIO && !waiting;
      if accepted {
        StageCommissionRatioForHeight(height, i);
        label promoted:
        stagedDelayed := stagedDelayed[i := MakeUpdate(ratio, height, activation)];
        assert forall j :: j != i ==> Of(j) == old@promoted(Of(j));
      }
    }

    /** Replays an update that was accepted at the tip: no guard here. */
    method ReplayUpdate(height: nat, i: IndexerId, ratio: real)
      modifies this`stagedRatio, this`stagedDelayed
      ensures Of(i) == Overwrite(old(Of(i)), MakeUpdate(ratio, height, activation))
      ensures forall j :: j != i ==> Of(j) == old(Of(j))
    {
      StageCommissionRatioForHeight(height, i);
      label promoted:
      stagedDelayed := stagedDelayed[i := MakeUpdate(ratio, height, activation)];
      assert forall j :: j != i ==> Of(j) == old@promoted(Of(j));
    }

    /** The live ratio, with the registered one as the last resort. */
    method LatestRatio(height: nat, i: IndexerId) returns (ratio: real)
      modifies this`stagedRatio
      ensures ratio == ReadLive(old(Of(i)), Registered(i), height)
      ensures old(Of(i)) == EMPTY ==> ratio == if i in registered then registered[i] else 0.0
      ensures Of(i) == PromoteLive(old(Of(i)), height) && forall j :: j != i ==> Of(j) == old(Of(j))
    {
      if height > 0 {
        StageCommissionRatioForHeight(height, i);
      }
      if i in stagedRatio {
        ratio := stagedRatio[i];
      } else if i in storedRatio {
        ratio := storedRatio[i];
      } else {
        ratio := Registered(i);
      }
    }

    /** The ratio a settlement at `height` uses, from this lagged store and the live one: the history's answer,
        for every history this register represents, unless the fallback leaks. */
    method SnapshotRatio(height: nat, i: IndexerId, live: CommissionStore) returns (ratio: real)
      requires live != this && live.registered == registered
      modifies this`stagedRatio, live`stagedRatio
      ensures ratio == ReadBoth(old(Of(i)), old(live.Of(i)), Registered(i), height)
      ensures Of(i) == Promote(old(Of(i)), height) && forall j :: j != i ==> Of(j) == old(Of(j))
      ensures live.Of(i) == if Of(i).promoted.Some? then old(live.Of(i)) else PromoteLive(old(live.Of(i)), height)
      ensures forall j :: j != i ==> live.Of(j) == old(live.Of(j))
    {
      StageCommissionRatioForHeight(height, i);
      if i in stagedRatio {
        ratio := stagedRatio[i];
      } else if i in storedRatio {
        ratio := storedRatio[i];
      } else {
        ratio := live.LatestRatio(height, i);
      }
    }

    /** The settling consumer at the next height: the updates of the block are replayed and, when the indexer is paid,
        its ratio is read. Both stores follow the run. */
    method ConsumeHeight(height: nat, i: IndexerId, due: seq<Update>, pays: bool, live: CommissionStore, ghost s: Both)
      returns (ratio: Option<real>)
      requires live != this && live.registered == registered && height == s.consumed + 1
      requires s.replayed <= CountBy(s.history, s.consumed + 1)
      requires due == s.history[s.replayed..CountBy(s.history, s.consumed + 1)]
      requires forall k :: 0 <= k < |due| ==> due[k] == MakeUpdate(due[k].ratio, due[k].height, activation)
      requires Of(i) == After(s.lagged) && live.Of(i) == After(s.live)
      modifies this`stagedRatio, this`stagedDelayed, live`stagedRatio
      ensures var next := React(s, Consume(pays));
              Of(i) == After(next.lagged) && live.Of(i) == After(next.live) && next.consumed == s.consumed + 1
      ensures ratio == if pays then Some(SettledRatio(s, Registered(i))) else None
      ensures forall j :: j != i ==> Of(j) == old(Of(j)) && live.Of(j) == old(live.Of(j))
    {
      hide After, Overwrite, Promote, CountBy, ReadBoth;
      var k := 0;
      assert s.lagged + AllMade(due[..0]) == s.lagged;
      while k < |due|
        invariant k <= |due| && Of(i) == After(s.lagged + AllMade(due[..k]))
        invariant forall j :: j != i ==> Of(j) == old(Of(j))
        invariant forall j :: live.Of(j) == old(live.Of(j))
      {
        ReplayUpdate(due[k].height, i, due[k].ratio);
        AfterNext(s.lagged + AllMade(due[..k]), Made(due[k]));
        assert s.lagged + AllMade(due[..k + 1]) == s.lagged + AllMade(due[..k]) + [Made(due[k])];
        k := k + 1;
      }
      assert due[..k] == due;
      assert Of(i) == After(Replayed(s));
      assert Replayed(s) + [] == Replayed(s);
      ratio := None;
      if pays {
        var r := SnapshotRatio(height, i, live);
        AfterNext(Replayed(s), Looked(s.consumed + 1));
        AfterNext(s.live, Looked(s.consumed + 1));
        ratio := Some(r);
      }
    }

    /** Flushing moves the staged fields to Redis and changes no register. */
    method Flush()
      modifies this
      ensures forall i :: Of(i) == old(Of(i))
      ensures stagedDelayed == map[] && stagedRatio == map[]
    {
      storedDelayed, storedRatio := storedDelayed + stagedDelayed, storedRatio + stagedRatio;
      stagedDelayed, stagedRatio := map[], map[];
    }
  }
}
