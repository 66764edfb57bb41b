/** The retention guard compares a rollback with the current UTXO cursor, but undo rows are pruned
    relative to the highest height ever submitted. After a first rollback the guard can therefore
    accept a second one whose undo rows are gone. */
module UndoGuard {
  import opened Maps
  import opened Ledger
  import opened BatchModel
  import opened BatchRefinement
  import opened Rollback
  import opened IndexerState
  import opened Runs

  const SENDER: Address := Address("bc1q-sender")
  const COIN: Outpoint := Outpoint("t150", 0)
  const NOTHING: Block := Block({}, map[], map[])
  const FUNDING: Block := Block({}, map[COIN := TxoData(150, 0, 7000, Some(SENDER))], map[])

  /** 300 blocks from height 1 on; the one at height 150 funds the tracked address. */
  function Quiet(): (c: seq<Block>)
    ensures |c| == 300
    ensures forall i :: 0 <= i < 300 ==> c[i] == if i == 149 then FUNDING else NOTHING
  {
    seq(300, i => if i == 149 then FUNDING else NOTHING)
  }

  lemma {:induction false} NothingBound(c: seq<Block>)
    requires forall i :: 0 <= i < |c| ==> c[i].binds == map[] && c[i].spent == {}
    ensures BoundAt(c) == {}
    ensures forall f: nat :: NoInBlockSpends(c, {SENDER}, f)
    decreases |c|
  {
    if c != [] {
      NothingBound(c[..|c| - 1]);
    }
  }

  lemma QuietValid()
    ensures ValidChain(Quiet())
  {
  }

  lemma QuietRun()
    ensures
      var steps := [Submit(Quiet()), RollBack(250)];
      && RunAllowed(History([], 0, 0), 1, {SENDER}, steps)
      && HistoryAfter(History([], 0, 0), 1, {SENDER}, steps) == History(Quiet()[..249], 200, 300)
  {
    hide NoInBlockSpends, BoundAt, ValidChain;
    QuietValid();
    var h0 := History([], 0, 0);
    var steps := [Submit(Quiet()), RollBack(250)];
    assert h0.chain + Quiet() == Quiet();
    NothingBound(Quiet());
    var h1 := AfterSubmit(h0, 1, Quiet());
    assert h1 == History(Quiet(), 200, 300);
    assert steps[1..] == [RollBack(250)];
    assert steps[1..][1..] == [];
  }

  lemma CoinAlive()
    ensures ValidChain(Quiet()[..249])
    ensures COIN in StoreAt(Quiet()[..249][..199], {SENDER})
    ensures COIN !in StoreAt(Quiet()[..249][..149], {SENDER})
  {
    hide StoreAt, BoundAt;
    var c := Quiet()[..249];
    ValidPrefix(c, 199);
    ValidPrefix(c, 149);
    StoreIsLiveTracked(c[..199], {SENDER}, COIN);
    StoreIsLiveTracked(c[..149], {SENDER}, COIN);
    assert LiveTracked(c[..199], {SENDER}, COIN, 149);
  }

  /** Submit 300 blocks, roll back from 250, then roll back from 150: the guard accepts (249 - 150 <= 100),
      the undo rows of heights 150 to 199 do not exist, and the output created at 150 stays in the store. */
  lemma GuardAcceptsUncoveredRollback(s: State)
    requires RunAllowed(History([], 0, 0), 1, {SENDER}, [Submit(Quiet()), RollBack(250)])
    requires Reaches(INITIAL, 1, {SENDER}, History([], 0, 0), [Submit(Quiet()), RollBack(250)], s)
    ensures s.utxoCursor == Some(249) && s.balanceCursor == Some(249) && !RollbackRefused(s, 150)
    ensures 150 !in s.tables.undoNew
    ensures COIN in RollbackFrom(s, 150).store
    ensures COIN !in StoreAt(Quiet()[..149], {SENDER})
  {
    hide StoreAt, BoundAt, Artifacts, TablesOf, RowsAt, AccountsMatch, UndoStoreDown, UndoAccountsDown, Reaches;
    hide Residue, NoInBlockSpends, ValidChain, RunAllowed, HistoryAfter, Heights, Quiet;
    var steps := [Submit(Quiet()), RollBack(250)];
    InitialInv(1, {SENDER});
    RunKeepsInv(INITIAL, 1, {SENDER}, History([], 0, 0), steps, s);
    QuietRun();
    var h := History(Quiet()[..249], 200, 300);
    AllowedRunsKeepRightRows(1, {SENDER}, steps, s, 150);
    RollbackStoreExactly(s, 1, {SENDER}, h, 150);
    CoinAlive();
    assert Quiet()[..249][..149] == Quiet()[..149];
  }
}
