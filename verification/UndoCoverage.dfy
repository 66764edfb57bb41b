/** Which heights have undo rows, over every run of submits and rollbacks whatsoever: nothing is assumed about
    the blocks, the progress markers or whether a rollback finds its rows. Then what that means for the guard
    that decides whether a rollback is accepted. */
module UndoCoverage {
  import opened Maps
  import opened Ledger
  import opened BatchModel
  import opened BatchRefinement
  import opened Rollback
  import opened Balances
  import opened IndexerState
  import opened Runs
  import opened RoundSteps

  /** How many heights from the first one on are committed, the lowest height that still has undo rows, and
      the highest height ever submitted. */
  datatype Log = Log(n: nat, floor: nat, high: nat)

  const NO_LOG: Log := Log(0, 0, 0)

  /** One round on any state: a submit of the next blocks, or a rollback from any height. */
  ghost function Play(s: State, log: Log, first: nat, senders: set<Address>, step: Step): State {
    match step
    case Submit(blocks) => if blocks == [] then s else SubmitBatch(s, senders, first + log.n, blocks)
    case RollBack(f) => RollbackStep(s, f)
  }

  ghost function Logged(s: State, log: Log, first: nat, step: Step): Log {
    match step
    case Submit(blocks) =>
      if blocks == [] then log else
        var end := first + log.n + |blocks| - 1;
        Log(log.n + |blocks|, Max(log.floor, MinKeepHeight(end)), Max(log.high, end))
    case RollBack(f) =>
      if NothingToUndo(s, f) || RollbackRefused(s, f) then log
      else Log(if f < first then 0 else Min(log.n, f - first), Min(log.floor, f), log.high)
  }

  ghost function PlayAll(s: State, log: Log, first: nat, senders: set<Address>, steps: seq<Step>): (State, Log)
    decreases |steps|
  {
    if steps == [] then (s, log)
    else PlayAll(Play(s, log, first, senders, steps[0]), Logged(s, log, first, steps[0]), first, senders, steps[1..])
  }

  ghost predicate KeysFrom(t: map<nat, Utxos>, heights: set<nat>, floor: nat) {
    forall x :: x in t <==> x in heights && floor <= x
  }

  /** Exactly the committed heights from the floor on have undo rows, and the floor is at most RETENTION below
      the highest height ever submitted. */
  ghost predicate RowsKept(s: State, log: Log, first: nat) {
    && s.committed == Heights(first, log.n)
    && KeysFrom(s.tables.undoNew, s.committed, log.floor) && KeysFrom(s.tables.undoSpent, s.committed, log.floor)
    && log.floor <= first + log.n && log.floor <= MinKeepHeight(log.high)
  }

  lemma FlushKeepsKeys(t: map<nat, Utxos>, first: nat, n: nat, floor: nat, xs: seq<Utxos>)
    requires KeysFrom(t, Heights(first, n), floor) && floor <= first + n && xs != []
    ensures KeysFrom(FlushUndo(t, first + n, xs), Heights(first, n + |xs|),
                     Max(floor, MinKeepHeight(first + n + |xs| - 1)))
  {
  }

  lemma SubmitTables(s: State, senders: set<Address>, start: nat, blocks: seq<Block>)
    requires blocks != []
    ensures var arts := ParseBlocks(blocks, s.store, s.rows.Keys + senders).1;
            |arts| == |blocks| && SubmitBatch(s, senders, start, blocks).tables == FlushTables(s.tables, start, arts)
  {
    hide ParseBlocks, FlushTables, Apply, CommitStore, CountIncrement, BindsOf, Heights, InsertAll;
  }

  lemma SubmitKeepsRows(s: State, log: Log, first: nat, senders: set<Address>, blocks: seq<Block>)
    requires RowsKept(s, log, first) && blocks != []
    ensures RowsKept(SubmitBatch(s, senders, first + log.n, blocks), Logged(s, log, first, Submit(blocks)), first)
  {
    hide ParseBlocks, SubmitBatch, FlushUndo, Heights, Put, KeysFrom, UndoNewOf, UndoSpentOf;
    SubmitTables(s, senders, first + log.n, blocks);
    SubmitRows(s, senders, first + log.n, blocks);
    var arts := ParseBlocks(blocks, s.store, s.rows.Keys + senders).1;
    FlushKeepsKeys(s.tables.undoNew, first, log.n, log.floor, UndoNewOf(arts));
    FlushKeepsKeys(s.tables.undoSpent, first, log.n, log.floor, UndoSpentOf(arts));
    HeightsConcat(first, log.n, |blocks|);
  }

  lemma BelowKeepsKeys(t: map<nat, Utxos>, heights: set<nat>, floor: nat, f: nat)
    requires KeysFrom(t, heights, floor)
    ensures KeysFrom(Below(t, f), HeightsBelow(heights, f), Min(floor, f))
  {
  }

  lemma RollbackKeepsRows(s: State, log: Log, first: nat, f: nat)
    requires RowsKept(s, log, first)
    ensures RowsKept(RollbackStep(s, f), Logged(s, log, first, RollBack(f)), first)
  {
    hide UndoStoreDown, UndoAccountsDown, RowsBelow, RowsUpTo, BindsOf, KeysFrom, Below, NothingToUndo;
    BelowKeepsKeys(s.tables.undoNew, s.committed, log.floor, f);
    BelowKeepsKeys(s.tables.undoSpent, s.committed, log.floor, f);
    assert HeightsBelow(Heights(first, log.n), f) == Heights(first, if f < first then 0 else Min(log.n, f - first));
  }

  lemma PlayStepKeepsRows(s: State, log: Log, first: nat, senders: set<Address>, step: Step)
    requires RowsKept(s, log, first)
    ensures RowsKept(Play(s, log, first, senders, step), Logged(s, log, first, step), first)
  {
    hide RowsKept, SubmitBatch, RollbackStep;
    match step
    case Submit(blocks) =>
      if blocks != [] {
        SubmitKeepsRows(s, log, first, senders, blocks);
      }
    case RollBack(f) => RollbackKeepsRows(s, log, first, f);
  }

  lemma {:induction false} PlayKeepsRows(s: State, log: Log, first: nat, senders: set<Address>, steps: seq<Step>)
    requires RowsKept(s, log, first)
    ensures var r := PlayAll(s, log, first, senders, steps); RowsKept(r.0, r.1, first)
    decreases |steps|
  {
    hide RowsKept, Play, Logged;
    if steps != [] {
      PlayStepKeepsRows(s, log, first, senders, steps[0]);
      PlayKeepsRows(Play(s, log, first, senders, steps[0]), Logged(s, log, first, steps[0]), first, senders,
                    steps[1..]);
    }
  }

  /** Every undo row a rollback from f needs exists. */
  ghost predicate FindsRows(s: State, f: nat) {
    forall x :: x in s.committed && x >= f ==> x in s.tables.undoNew && x in s.tables.undoSpent
  }

  /** MAIN (coverage). After every run from the empty state, exactly the committed heights from the floor on have
      undo rows; the floor is at most RETENTION below the highest height ever submitted; and every rollback that
      starts no lower than that finds all the rows it needs. */
  lemma EveryRunKeepsUndoRows(first: nat, senders: set<Address>, steps: seq<Step>, f: nat)
    ensures var (s, log) := PlayAll(INITIAL, NO_LOG, first, senders, steps);
            && RowsKept(s, log, first)
            && (f >= MinKeepHeight(log.high) ==> FindsRows(s, f))
  {
    hide PlayAll;
    assert RowsKept(INITIAL, NO_LOG, first);
    PlayKeepsRows(INITIAL, NO_LOG, first, senders, steps);
  }

  // ---- the same steps as the runs of the whole invariant, and as the rounds of the main loop ----

  lemma ExecIsPlay(s: State, first: nat, senders: set<Address>, h: History, step: Step)
    requires CursorsMatch(s, first, |h.chain|) && StepAllowed(h, first, senders, step)
    ensures Exec(s, first, senders, h, step) == Play(s, Log(|h.chain|, h.floor, h.high), first, senders, step)
  {
    hide SubmitBatch, RollbackFrom, RollbackStep, NoInBlockSpends, ValidChain, BoundAt;
    if step.RollBack? {
      if RollbackRefused(s, step.from) {
        StepRefused(s, step.from);
      } else {
        StepIsRollbackFrom(s, step.from);
      }
    }
  }

  /** The steps of one round: an optional rollback, then a submit. */
  function StepsOfRound(from: Option<nat>, blocks: seq<Block>): seq<Step> {
    (if from.Some? then [RollBack(from.value)] else []) + [Submit(blocks)]
  }

  /** What the round method does to the state is a piece of a run. */
  lemma RoundIsPlay(s: State, log: Log, first: nat, senders: set<Address>, from: Option<nat>, blocks: seq<Block>)
    requires RowsKept(s, log, first) && CursorsAgree(s)
    requires from.Some? ==> first <= from.value < first + log.n && !RollbackRefused(s, from.value)
    ensures AfterRound(s, senders, from, NextHeight(s.committed, from, first), blocks)
            == PlayAll(s, log, first, senders, StepsOfRound(from, blocks)).0
  {
    hide SubmitBatch, RollbackStep, CursorsAgree, KeysFrom, PlayAll, Heights, NothingToUndo;
    NextIsAfterCommitted(s.committed, first, log.n);
    if from.Some? {
      assert StepsOfRound(from, blocks) == [RollBack(from.value), Submit(blocks)];
      PlayTwo(s, log, first, senders, RollBack(from.value), Submit(blocks));
      SomethingToUndo(s, from.value);
    } else {
      assert StepsOfRound(from, blocks) == [Submit(blocks)];
      PlayOne(s, log, first, senders, Submit(blocks));
    }
  }

  lemma SomethingToUndo(s: State, f: nat)
    requires f in s.committed
    ensures !NothingToUndo(s, f)
  {
  }

  lemma PlayOne(s: State, log: Log, first: nat, senders: set<Address>, step: Step)
    ensures PlayAll(s, log, first, senders, [step]) == (Play(s, log, first, senders, step), Logged(s, log, first, step))
  {
    hide Play, Logged;
    assert [step][1..] == [];
  }

  lemma PlayTwo(s: State, log: Log, first: nat, senders: set<Address>, step: Step, next: Step)
    ensures PlayAll(s, log, first, senders, [step, next])
            == PlayAll(Play(s, log, first, senders, step), Logged(s, log, first, step), first, senders, [next])
    ensures PlayAll(s, log, first, senders, [step, next]).0
            == Play(Play(s, log, first, senders, step), Logged(s, log, first, step), first, senders, next)
  {
    hide Play, Logged;
    assert [step, next][1..] == [next];
    PlayOne(Play(s, log, first, senders, step), Logged(s, log, first, step), first, senders, next);
  }

  lemma NextIsAfterCommitted(committed: set<nat>, first: nat, n: nat)
    requires committed == Heights(first, n)
    ensures NextHeight(committed, None, first) == first + n
  {
    if n > 0 {
      assert first + n - 1 in committed;
    }
  }

  // ---- the guard ----

  /** A rollback from a committed height finds its rows exactly when it does not start below the floor. */
  lemma FindsRowsIff(s: State, log: Log, first: nat, f: nat)
    requires RowsKept(s, log, first) && first <= f < first + log.n
    ensures FindsRows(s, f) <==> log.floor <= f
  {
    assert f in s.committed;
  }

  /** The guard lets through only rollbacks that find their rows exactly when the floor is not above the lowest
      height the guard accepts. */
  lemma GuardSufficesIff(s: State, log: Log, first: nat)
    requires RowsKept(s, log, first) && log.n > 0 && s.utxoCursor == Some(first + log.n - 1)
    ensures (forall f :: first <= f < first + log.n && !RollbackRefused(s, f) ==> FindsRows(s, f))
            <==> log.floor <= Max(first, MinKeepHeight(first + log.n - 1))
  {
    hide FindsRows, RowsKept;
    forall f: nat | first <= f < first + log.n ensures FindsRows(s, f) <==> log.floor <= f {
      FindsRowsIff(s, log, first, f);
    }
    var lowest := Max(first, MinKeepHeight(first + log.n - 1));
    assert !RollbackRefused(s, lowest);
  }

  /** In particular it suffices whenever the tip is the highest height ever submitted. */
  lemma GuardSufficesAtTip(s: State, log: Log, first: nat)
    requires RowsKept(s, log, first) && log.n > 0 && s.utxoCursor == Some(first + log.n - 1) &&
             log.high == first + log.n - 1
    ensures forall f :: first <= f < first + log.n && !RollbackRefused(s, f) ==> FindsRows(s, f)
  {
    GuardSufficesIff(s, log, first);
  }

  // ---- what the rollback restores, rows or no rows ----

  /** A rollback gives back the store before f if and only if the undone heights that still have rows hold no
      in-block tracked spend, and the undone heights without rows left the store as it was. */
  lemma RollbackRestoresIff(s: State, first: nat, senders: set<Address>, h: History, f: nat, m: nat)
    requires Inv(s, first, senders, h) && first <= f < first + |h.chain| && first + m == Max(f, h.floor)
    ensures RollbackFrom(s, f).store == StoreAt(h.chain[..f - first], senders)
            <==> NoInBlockSpends(h.chain, senders, m) &&
                 StoreAt(h.chain[..m], senders) == StoreAt(h.chain[..f - first], senders)
  {
    hide StoreAt, TrackedAt, BoundAt, Artifacts, TablesOf, RowsAt, BindsOf, AccountsMatch, ValidChain, Heights;
    hide Residue, NoInBlockSpends, UndoStoreDown, UndoAccountsDown, RowsBelow, TablesBelow, RowsUpTo, HeightsBelow;
    RollbackStoreExactly(s, first, senders, h, f);
    ResidueIsNew(h.chain, senders, m);
    var lower := StoreAt(h.chain[..f - first], senders);
    ResidueApart(h.chain, senders, m, f - first);
    UnionExact(StoreAt(h.chain[..m], senders), Residue(h.chain, senders, m), lower);
  }

  /** The residue above m is not in the store of any earlier height. */
  lemma ResidueApart(c: seq<Block>, senders: set<Address>, m: nat, k: nat)
    requires ValidChain(c) && k <= m <= |c|
    ensures Residue(c, senders, m).Keys !! StoreAt(c[..k], senders).Keys
  {
    hide StoreAt, TrackedAt, Residue;
    ResidueIsNew(c, senders, m);
    assert Untouched(Residue(c, senders, m).Keys, c[..k]) by {
      forall i | 0 <= i < k ensures c[..k][i] == c[..m][i] { }
    }
    StoreUntouched(c[..k], senders, Residue(c, senders, m).Keys);
  }

  lemma UnionExact<K, V>(m: map<K, V>, n: map<K, V>, r: map<K, V>)
    requires m.Keys !! n.Keys && n.Keys !! r.Keys
    ensures m + n == r <==> n == map[] && m == r
  {
    if n == map[] {
      assert m + n == m;
    } else {
      var k :| k in n;
      assert k in m + n && k !in r;
    }
  }
}
