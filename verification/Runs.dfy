/** Safety over every run of submits and rollbacks. */
module Runs {
  import opened Maps
  import opened Ledger
  import opened BatchModel
  import opened BatchRefinement
  import opened Rollback
  import opened Balances
  import opened IndexerState

  /** What a run has done so far: the chain now indexed (its first block has height `first`), the
      lowest height that still has undo rows, and the highest height ever submitted. */
  datatype History = History(chain: seq<Block>, floor: nat, high: nat)

  ghost predicate AccountsMatch(store: Utxos, a: Accounts, binds: Bindings) {
    && BalancesMatch(store, a.balances)
    && TotalsMatch(a.balances, a.totals, binds)
    && StakersMatch(a.balances, a.stakers, binds)
  }

  /** The table that holds xs[0], xs[1], ... at heights first, first + 1, ..., without the heights below floor. */
  function TableOf<V>(first: nat, xs: seq<V>, floor: nat): map<nat, V> {
    map h | h in Heights(first, |xs|) && floor <= h :: xs[h - first]
  }

  /** All balance deltas of the chain, and the undo rows from `floor` on. */
  function TablesOf(first: nat, arts: seq<Artifact>, floor: nat): Tables {
    Tables(TableOf(first, DeltasOf(arts), 0),
           TableOf(first, UndoNewOf(arts), floor),
           TableOf(first, UndoSpentOf(arts), floor))
  }

  predicate CursorsMatch(s: State, first: nat, n: nat) {
    && s.committed == Heights(first, n)
    && s.utxoCursor == s.balanceCursor
    && s.utxoCursor == if n == 0 then None else Some(first + n - 1)
  }

  function RowsAt(c: seq<Block>, first: nat): Rows {
    InsertAll(map[], first, c)
  }

  /** The invariant that ties the whole persistent state to the indexed chain. */
  ghost predicate Inv(s: State, first: nat, senders: set<Address>, h: History) {
    && ValidChain(h.chain)
    && BoundAt(h.chain) !! senders
    && s.store == StoreAt(h.chain, senders)
    && s.rows == RowsAt(h.chain, first)
    && AccountsMatch(s.store, s.accounts, BindsOf(s.rows))
    && s.tables == TablesOf(first, Artifacts(h.chain, senders), h.floor)
    && CursorsMatch(s, first, |h.chain|)
    && h.floor <= first + |h.chain|
  }

  lemma InitialInv(first: nat, senders: set<Address>)
    ensures Inv(INITIAL, first, senders, History([], 0, 0))
  {
    var none: map<Address, int> := map[];
    forall i: IndexerId ensures GroupSum(none, IndexerOf(map[]), i) == 0 {
      assert Members(none, IndexerOf(map[]), i) == none;
    }
    forall b: Binding ensures GroupSum(none, BindsOf(map[]), b) == 0 {
      assert Members(none, BindsOf(map[]), b) == none;
    }
    var empty: Utxos := map[];
    forall a ensures AddrSum(empty, a) == 0 {
      AddrSumNonNegative(empty, a);
    }
  }

  // ---- tables ----

  lemma PutTable<V>(first: nat, xs: seq<V>, ys: seq<V>)
    ensures Put(TableOf(first, xs, 0), first + |xs|, ys) == TableOf(first, xs + ys, 0)
  {
  }

  function Max(x: nat, y: nat): nat {
    if x < y then y else x
  }

  function Min(x: nat, y: nat): nat {
    if x < y then x else y
  }

  lemma FlushTable(first: nat, xs: seq<Utxos>, ys: seq<Utxos>, floor: nat)
    requires ys != [] && floor <= first + |xs|
    ensures FlushUndo(TableOf(first, xs, floor), first + |xs|, ys)
            == TableOf(first, xs + ys, Max(floor, MinKeepHeight(first + |xs| + |ys| - 1)))
  {
  }

  lemma BelowTable<V>(first: nat, xs: seq<V>, floor: nat, f: nat)
    requires first <= f <= first + |xs|
    ensures Below(TableOf(first, xs, floor), f) == TableOf(first, xs[..f - first], Min(floor, f))
  {
  }

  lemma {:induction false} ArtifactsPrefix(c: seq<Block>, senders: set<Address>, n: nat)
    requires n <= |c|
    ensures Artifacts(c[..n], senders) == Artifacts(c, senders)[..n]
    decreases |c|
  {
    if n == |c| {
      assert c[..n] == c;
    } else {
      ArtifactsPrefix(c[..|c| - 1], senders, n);
      assert c[..|c| - 1][..n] == c[..n];
    }
  }

  // ---- binding rows ----

  lemma {:induction false} InsertAllConcat(rows: Rows, first: nat, c: seq<Block>, d: seq<Block>)
    ensures InsertAll(InsertAll(rows, first, c), first + |c|, d) == InsertAll(rows, first, c + d)
    decreases |d|
  {
    if d == [] {
      assert c + d == c;
    } else {
      var n := |d| - 1;
      InsertAllConcat(rows, first, c, d[..n]);
      assert (c + d)[..|c + d| - 1] == c + d[..n];
    }
  }

  lemma {:induction false} RowsFacts(c: seq<Block>, first: nat)
    ensures RowsAt(c, first).Keys == BoundAt(c)
    ensures forall a :: a in RowsAt(c, first) ==> first <= RowsAt(c, first)[a].height < first + |c|
    decreases |c|
  {
    if c != [] {
      RowsFacts(c[..|c| - 1], first);
    }
  }

  /** Deleting the rows from height f on leaves the rows of the shorter chain. */
  lemma {:induction false} RowsTruncate(c: seq<Block>, first: nat, f: nat)
    requires first <= f <= first + |c|
    ensures RowsBelow(RowsAt(c, first), f) == RowsAt(c[..f - first], first)
    decreases |c|
  {
    hide RowsBelow, InsertRows;
    if f == first + |c| {
      assert c[..f - first] == c;
      RowsFacts(c, first);
      AllBelow(RowsAt(c, first), f);
    } else {
      var n := |c| - 1;
      RowsTruncate(c[..n], first, f);
      assert c[..n][..f - first] == c[..f - first];
      InsertAbove(RowsAt(c[..n], first), c[n].binds, first + n, f);
    }
  }

  lemma AllBelow(rows: Rows, f: nat)
    requires forall a :: a in rows ==> rows[a].height < f
    ensures RowsBelow(rows, f) == rows
  {
  }

  lemma InsertAbove(rows: Rows, binds: Bindings, height: nat, f: nat)
    requires f <= height
    ensures RowsBelow(InsertRows(rows, binds, height), f) == RowsBelow(rows, f)
  {
  }

  lemma {:induction false} InsertAllKeeps(rows: Rows, start: nat, blocks: seq<Block>)
    ensures forall a :: a in rows ==>
                        a in InsertAll(rows, start, blocks) && InsertAll(rows, start, blocks)[a] == rows[a]
    ensures InsertAll(rows, start, blocks).Keys == rows.Keys + BoundAt(blocks)
    decreases |blocks|
  {
    if blocks != [] {
      InsertAllKeeps(rows, start, blocks[..|blocks| - 1]);
    }
  }

  /** Addresses that are not tracked hold nothing. */
  lemma UntrackedHoldNothing(store: Utxos, bal: map<Address, int>, tracked: set<Address>)
    requires BalancesMatch(store, bal) && AllTracked(store, tracked)
    ensures forall a :: a in bal ==> a in tracked
  {
    forall a | a in bal ensures a in tracked {
      AddrSumNonNegative(store, a);
      assert Get(bal, a) == AddrSum(store, a) != 0;
      var k :| k in store && store[k].address == Some(a);
    }
  }

  lemma RebindAccounts(store: Utxos, acc: Accounts, b1: Bindings, b2: Bindings)
    requires AccountsMatch(store, acc, b1) && AgreeOnHolders(acc.balances, b1, b2)
    ensures AccountsMatch(store, acc, b2)
  {
    RebindKeepsMatch(acc.balances, acc.totals, acc.stakers, b1, b2);
  }

  lemma ApplyKeepsMatch(store: Utxos, store': Utxos, acc: Accounts, binds: Bindings, d: map<Address, int>)
    requires AccountsMatch(store, acc, binds) && MeasuresChange(d, store, store')
    ensures AccountsMatch(store', Apply(acc, binds, d), binds)
  {
    BalancesStep(store, store', acc.balances, d);
    TotalsStep(acc.balances, acc.totals, binds, d);
    BalancesNonNegative(store', AddDeltas(acc.balances, d));
    StakersStep(acc.balances, acc.stakers, binds, d);
  }

  // ---- submit ----

  function AfterSubmit(h: History, first: nat, blocks: seq<Block>): History
    requires blocks != []
  {
    var end := first + |h.chain| + |blocks| - 1;
    History(h.chain + blocks, Max(h.floor, MinKeepHeight(end)), Max(h.high, end))
  }

  predicate SubmitAllowed(h: History, senders: set<Address>, blocks: seq<Block>) {
    && blocks != []
    && BoundAt(h.chain + blocks) !! senders
  }

  lemma TrackedFromRows(c: seq<Block>, first: nat, senders: set<Address>)
    ensures RowsAt(c, first).Keys + senders == TrackedAt(c, senders)
  {
    RowsFacts(c, first);
  }

  /** New bindings cannot touch an address that already holds something. */
  lemma SubmitRebinds(store: Utxos, acc: Accounts, first: nat, senders: set<Address>, c: seq<Block>, blocks: seq<Block>)
    requires AccountsMatch(store, acc, BindsOf(RowsAt(c, first)))
    requires store == StoreAt(c, senders) && BoundAt(c + blocks) !! senders
    ensures AccountsMatch(store, acc, BindsOf(InsertAll(RowsAt(c, first), first + |c|, blocks)))
  {
    hide StoreAt, BoundAt, BalancesMatch, TotalsMatch, StakersMatch, AllTracked, InsertAll, RowsAt, ValidChain;
    var rows := RowsAt(c, first);
    RowsFacts(c, first);
    StoreAllTracked(c, senders);
    UntrackedHoldNothing(store, acc.balances, TrackedAt(c, senders));
    InsertAllKeeps(rows, first + |c|, blocks);
    BoundAtConcat(c, blocks);
    RebindAccounts(store, acc, BindsOf(rows), BindsOf(InsertAll(rows, first + |c|, blocks)));
  }

  lemma FlushTablesOf(first: nat, arts: seq<Artifact>, more: seq<Artifact>, floor: nat)
    requires more != [] && floor <= first + |arts|
    ensures FlushTables(TablesOf(first, arts, floor), first + |arts|, more)
            == TablesOf(first, arts + more, Max(floor, MinKeepHeight(first + |arts| + |more| - 1)))
  {
    hide TableOf, Put, FlushUndo, DeltasOf, UndoNewOf, UndoSpentOf, Max, MinKeepHeight;
    PutTable(first, DeltasOf(arts), DeltasOf(more));
    FlushTable(first, UndoNewOf(arts), UndoNewOf(more), floor);
    FlushTable(first, UndoSpentOf(arts), UndoSpentOf(more), floor);
    ColumnsConcat(arts, more);
  }

  lemma ColumnsConcat(x: seq<Artifact>, y: seq<Artifact>)
    ensures DeltasOf(x + y) == DeltasOf(x) + DeltasOf(y)
    ensures UndoNewOf(x + y) == UndoNewOf(x) + UndoNewOf(y)
    ensures UndoSpentOf(x + y) == UndoSpentOf(x) + UndoSpentOf(y)
  {
  }

  lemma ColumnsPrefix(x: seq<Artifact>, n: nat)
    requires n <= |x|
    ensures DeltasOf(x[..n]) == DeltasOf(x)[..n]
    ensures UndoNewOf(x[..n]) == UndoNewOf(x)[..n]
    ensures UndoSpentOf(x[..n]) == UndoSpentOf(x)[..n]
  {
  }

  lemma RowsConcat(c: seq<Block>, blocks: seq<Block>, first: nat)
    ensures InsertAll(RowsAt(c, first), first + |c|, blocks) == RowsAt(c + blocks, first)
  {
    InsertAllConcat(map[], first, c, blocks);
  }

  /** The accounts after a batch whose delta map g.gDelta measures the change of the store. */
  lemma SubmitAccounts(acc: Accounts, first: nat, senders: set<Address>, c: seq<Block>, blocks: seq<Block>,
                       d: map<Address, int>)
    requires AccountsMatch(StoreAt(c, senders), acc, BindsOf(RowsAt(c, first)))
    requires BoundAt(c + blocks) !! senders
    requires MeasuresChange(d, StoreAt(c, senders), StoreAt(c + blocks, senders))
    ensures AccountsMatch(StoreAt(c + blocks, senders),
                          Apply(acc, BindsOf(RowsAt(c + blocks, first)), d), BindsOf(RowsAt(c + blocks, first)))
  {
    SubmitRebinds(StoreAt(c, senders), acc, first, senders, c, blocks);
    RowsConcat(c, blocks, first);
    ApplyKeepsMatch(StoreAt(c, senders), StoreAt(c + blocks, senders), acc, BindsOf(RowsAt(c + blocks, first)), d);
  }

  /** Everything a submit computes, in terms of the chain. */
  lemma SubmitParts(first: nat, senders: set<Address>, h: History, blocks: seq<Block>, g: Batch, arts: seq<Artifact>,
                    acc: Accounts)
    requires ValidChain(h.chain + blocks) && SubmitAllowed(h, senders, blocks) && h.floor <= first + |h.chain|
    requires (g, arts) == ParseBlocks(blocks, StoreAt(h.chain, senders), TrackedAt(h.chain, senders))
    requires AccountsMatch(StoreAt(h.chain, senders), acc, BindsOf(RowsAt(h.chain, first)))
    ensures |arts| == |blocks|
    ensures CommitStore(StoreAt(h.chain, senders), g) == StoreAt(h.chain + blocks, senders)
    ensures CountIncrement(g) == |StoreAt(h.chain + blocks, senders)| - |StoreAt(h.chain, senders)|
    ensures AccountsMatch(StoreAt(h.chain + blocks, senders),
                          Apply(acc, BindsOf(RowsAt(h.chain + blocks, first)), g.gDelta),
                            BindsOf(RowsAt(h.chain + blocks, first)))
    ensures FlushTables(TablesOf(first, Artifacts(h.chain, senders), h.floor), first + |h.chain|, arts)
            == TablesOf(first, Artifacts(h.chain + blocks, senders), AfterSubmit(h, first, blocks).floor)
  {
    hide StoreAt, TrackedAt, BoundAt, ParseBlocks, Artifacts, TablesOf, RowsAt, BindsOf, CommitStore, CountIncrement;
    hide Apply, FlushTables, AccountsMatch, ValidChain, MeasuresChange, RepresentsMaps, SpentBySome, Max, MinKeepHeight;
    BatchCommitRefinesFold(h.chain, blocks, senders);
    ParseBlocksRepresent(h.chain, blocks, senders);
    ParseBlocksArtifacts(h.chain, blocks, senders);
    FlushTablesOf(first, Artifacts(h.chain, senders), arts, h.floor);
    SubmitAccounts(acc, first, senders, h.chain, blocks, g.gDelta);
  }

  /** Submitting the next blocks of a valid chain keeps the invariant. */
  lemma SubmitKeepsInv(s: State, first: nat, senders: set<Address>, h: History, blocks: seq<Block>)
    requires Inv(s, first, senders, h)
    requires SubmitAllowed(h, senders, blocks) && ValidChain(h.chain + blocks)
    ensures Inv(SubmitBatch(s, senders, first + |h.chain|, blocks), first, senders, AfterSubmit(h, first, blocks))
  {
    hide StoreAt, TrackedAt, BoundAt, ParseBlocks, Artifacts, TablesOf, RowsAt, BindsOf, CommitStore, CountIncrement;
    hide Apply, FlushTables, AccountsMatch, ValidChain, Heights, InsertAll, ParseBlock;
    TrackedFromRows(h.chain, first, senders);
    var parsed := ParseBlocks(blocks, s.store, s.rows.Keys + senders);
    SubmitParts(first, senders, h, blocks, parsed.0, parsed.1, s.accounts);
    RowsConcat(h.chain, blocks, first);
    HeightsConcat(first, |h.chain|, |blocks|);
  }

  lemma HeightsConcat(first: nat, n: nat, m: nat)
    ensures Heights(first, n) + Heights(first + n, m) == Heights(first, n + m)
  {
  }

  // ---- rollback ----

  function AfterRollback(h: History, first: nat, f: nat): History
    requires first <= f <= first + |h.chain|
  {
    History(h.chain[..f - first], Min(h.floor, f), h.high)
  }

  /** Each undo step of the accounts moves them one block back. */
  lemma {:induction false} UndoAccountsMatch(c: seq<Block>, first: nat, senders: set<Address>, acc: Accounts,
                                             t: map<nat, map<Address, int>>, binds: Bindings, f: nat)
    requires ValidChain(c) && first <= f <= first + |c|
    requires AccountsMatch(StoreAt(c, senders), acc, binds)
    requires forall i :: 0 <= i < |c| ==> LookDeltas(t, first + i) == Artifacts(c, senders)[i].deltas
    ensures AccountsMatch(StoreAt(c[..f - first], senders),
                          UndoAccountsDown(acc, t, binds, first + |c| - 1, f), binds)
    decreases |c|
  {
    hide AccountsMatch, Apply, TrackedAt, NextStore, Kept, InBlock, ValidChain, Negate, Change, MeasuresChange;
    if f == first + |c| {
      assert c[..f - first] == c;
    } else {
      var n := |c| - 1;
      var p := c[..n];
      ValidPrefix(c, n);
      var d := LookDeltas(t, first + n);
      assert Artifacts(c, senders)[n] == LastArtifact(c, senders);
      ChangeMeasures(StoreAt(p, senders), StoreAt(c, senders));
      NegateMeasures(d, StoreAt(p, senders), StoreAt(c, senders));
      ApplyKeepsMatch(StoreAt(c, senders), StoreAt(p, senders), acc, binds, Negate(d));
      ArtifactsPrefix(c, senders, n);
      UndoAccountsMatch(p, first, senders, Apply(acc, binds, Negate(d)), t, binds, f);
      assert p[..f - first] == c[..f - first];
    }
  }

  /** With the undo rows of the heights from m on at hand and none below, undoing down to f <= m
      stops at m. */
  lemma {:induction false} UndoStoreStops(c: seq<Block>, first: nat, senders: set<Address>, store: Utxos, t: Tables,
                                          f: nat, m: nat)
    requires first <= f <= m <= first + |c|
    requires forall i :: 0 <= i < |c| && m <= first + i ==>
                           LookUtxos(t.undoNew, first + i) == Artifacts(c, senders)[i].undoNew
                           && LookUtxos(t.undoSpent, first + i) == Artifacts(c, senders)[i].undoSpent
    requires forall h :: f <= h < m ==> h !in t.undoNew && h !in t.undoSpent
    ensures UndoStoreDown(store, t, first + |c| - 1, f) == RollbackStore(store, c, senders, m - first)
    decreases |c|
  {
    if m == first + |c| {
      UndoNothing(store, t, m - 1, f);
    } else {
      var n := |c| - 1;
      assert Artifacts(c, senders)[n] == LastArtifact(c, senders);
      ArtifactsPrefix(c, senders, n);
      UndoStoreStops(c[..n], first, senders, UndoStore(store, LastArtifact(c, senders)), t, f, m);
    }
  }

  lemma {:induction false} UndoNothing(store: Utxos, t: Tables, top: int, f: nat)
    requires forall h :: f <= h <= top ==> h !in t.undoNew && h !in t.undoSpent
    ensures UndoStoreDown(store, t, top, f) == store
    decreases top - f
  {
    if top >= f {
      var none: Utxos := map[];
      assert (store - none.Keys) + none == store;
      UndoNothing(store, t, top - 1, f);
    }
  }

  lemma UndoRowsAt(first: nat, arts: seq<Artifact>, floor: nat, i: nat)
    requires i < |arts|
    ensures
      var t := TablesOf(first, arts, floor);
      && LookDeltas(t.deltas, first + i) == arts[i].deltas
      && (first + i >= floor ==> LookUtxos(t.undoNew, first + i) == arts[i].undoNew)
      && (first + i >= floor ==> LookUtxos(t.undoSpent, first + i) == arts[i].undoSpent)
      && (first + i < floor ==> first + i !in t.undoNew && first + i !in t.undoSpent)
  {
  }

  lemma UndoDownIsRollback(first: nat, senders: set<Address>, c: seq<Block>, floor: nat, f: nat)
    requires first <= f < first + |c| && floor <= first + |c|
    ensures UndoStoreDown(StoreAt(c, senders), TablesOf(first, Artifacts(c, senders), floor), first + |c| - 1, f)
            == RollbackStore(StoreAt(c, senders), c, senders, Max(f, floor) - first)
  {
    hide TablesOf, StoreAt, Artifacts, LookUtxos, RollbackStore, UndoStoreDown;
    var arts := Artifacts(c, senders);
    var t := TablesOf(first, arts, floor);
    var m := Max(f, floor);
    forall i | 0 <= i < |c| && m <= first + i
      ensures LookUtxos(t.undoNew, first + i) == arts[i].undoNew &&
              LookUtxos(t.undoSpent, first + i) == arts[i].undoSpent
    {
      UndoRowsAt(first, arts, floor, i);
    }
    forall x | f <= x < m ensures x !in t.undoNew && x !in t.undoSpent {
      UndoRowsAt(first, arts, floor, x - first);
    }
    UndoStoreStops(c, first, senders, StoreAt(c, senders), t, f, m);
  }

  /** MAIN (store). What a rollback from f does to the store, whatever undo rows are left: it ends at
      the higher of f and the lowest height with undo rows, plus the in-block residue above that. */
  lemma RollbackStoreExactly(s: State, first: nat, senders: set<Address>, h: History, f: nat)
    requires Inv(s, first, senders, h) && first <= f < first + |h.chain|
    ensures
      var m := Max(f, h.floor) - first;
      RollbackFrom(s, f).store == StoreAt(h.chain[..m], senders) + Residue(h.chain, senders, m)
  {
    hide StoreAt, TrackedAt, BoundAt, Artifacts, TablesOf, RowsAt, BindsOf, AccountsMatch, ValidChain, Heights;
    hide Residue, RollbackStore, UndoStoreDown, UndoAccountsDown, RowsBelow, TablesBelow, RowsUpTo;
    UndoDownIsRollback(first, senders, h.chain, h.floor, f);
    RollbackGivesResidue(h.chain, senders, Max(f, h.floor) - first);
  }

  lemma RollbackAccounts(s: State, first: nat, senders: set<Address>, h: History, f: nat)
    requires Inv(s, first, senders, h) && first <= f < first + |h.chain|
    ensures
      var s' := RollbackFrom(s, f);
      && s'.rows == RowsAt(h.chain[..f - first], first)
      && AccountsMatch(StoreAt(h.chain[..f - first], senders), s'.accounts, BindsOf(s'.rows))
  {
    hide StoreAt, TrackedAt, BoundAt, Artifacts, TablesOf, RowsAt, BindsOf, AccountsMatch, ValidChain;
    hide UndoStoreDown, UndoAccountsDown, RowsBelow, TablesBelow, LookDeltas;
    var c := h.chain;
    var top := first + |c| - 1;
    RowsFacts(c, first);
    assert RowsUpTo(s.rows, top) == s.rows;
    forall i | 0 <= i < |c| ensures LookDeltas(s.tables.deltas, first + i) == Artifacts(c, senders)[i].deltas {
      UndoRowsAt(first, Artifacts(c, senders), h.floor, i);
    }
    UndoAccountsMatch(c, first, senders, s.accounts, s.tables.deltas, BindsOf(s.rows), f);
    RowsTruncate(c, first, f);
    UnbindAccounts(c, first, senders, UndoAccountsDown(s.accounts, s.tables.deltas, BindsOf(s.rows), top, f), f);
  }

  /** Deleting the bindings of the undone blocks: their addresses hold nothing any more. */
  lemma UnbindAccounts(c: seq<Block>, first: nat, senders: set<Address>, acc: Accounts, f: nat)
    requires first <= f <= first + |c| && BoundAt(c) !! senders
    requires AccountsMatch(StoreAt(c[..f - first], senders), acc, BindsOf(RowsAt(c, first)))
    ensures AccountsMatch(StoreAt(c[..f - first], senders), acc, BindsOf(RowsAt(c[..f - first], first)))
  {
    var p := c[..f - first];
    RowsFacts(c, first);
    RowsFacts(p, first);
    RowsTruncate(c, first, f);
    StoreAllTracked(p, senders);
    UntrackedHoldNothing(StoreAt(p, senders), acc.balances, TrackedAt(p, senders));
    RebindAccounts(StoreAt(p, senders), acc, BindsOf(RowsAt(c, first)), BindsOf(RowsAt(p, first)));
  }

  lemma RollbackTables(first: nat, senders: set<Address>, c: seq<Block>, floor: nat, f: nat)
    requires first <= f <= first + |c|
    ensures TablesBelow(TablesOf(first, Artifacts(c, senders), floor), f)
            == TablesOf(first, Artifacts(c[..f - first], senders), Min(floor, f))
  {
    var arts := Artifacts(c, senders);
    ArtifactsPrefix(c, senders, f - first);
    ColumnsPrefix(arts, f - first);
    BelowTable(first, DeltasOf(arts), 0, f);
    BelowTable(first, UndoNewOf(arts), floor, f);
    BelowTable(first, UndoSpentOf(arts), floor, f);
  }

  predicate RollbackAllowed(h: History, first: nat, senders: set<Address>, f: nat) {
    && first < f < first + |h.chain|
    && h.floor <= f
    && NoInBlockSpends(h.chain, senders, f - first)
  }

  /** A rollback that finds its undo rows and undoes no in-block spend keeps the invariant. */
  lemma RollbackKeepsInv(s: State, first: nat, senders: set<Address>, h: History, f: nat)
    requires Inv(s, first, senders, h) && RollbackAllowed(h, first, senders, f)
    ensures Inv(RollbackFrom(s, f), first, senders, AfterRollback(h, first, f))
  {
    hide StoreAt, TrackedAt, BoundAt, Artifacts, TablesOf, RowsAt, BindsOf, AccountsMatch, ValidChain;
    hide Residue, NoInBlockSpends, UndoStoreDown, UndoAccountsDown, RowsBelow, TablesBelow, RowsUpTo;
    var k := f - first;
    RollbackStoreExactly(s, first, senders, h, f);
    ResidueIsNew(h.chain, senders, k);
    UnionNothing(StoreAt(h.chain[..k], senders));
    RollbackAccounts(s, first, senders, h, f);
    RollbackTables(first, senders, h.chain, h.floor, f);
    ValidPrefix(h.chain, k);
    BoundPrefix(h.chain, k);
    assert RollbackFrom(s, f).committed == Heights(first, k);
  }

  /** What the balance deltas of heights low to high - 1 add up to for an address. */
  ghost function Moved(t: map<nat, map<Address, int>>, low: nat, high: nat, a: Address): int
    decreases high
  {
    if high <= low then 0 else Moved(t, low, high - 1, a) + Get(LookDeltas(t, high - 1), a)
  }

  lemma {:induction false} MovedIsChange(c: seq<Block>, first: nat, senders: set<Address>, floor: nat, k: nat, m: nat,
                                         a: Address)
    requires k <= m <= |c|
    ensures Moved(TablesOf(first, Artifacts(c, senders), floor).deltas, first + k, first + m, a)
            == AddrSum(StoreAt(c[..m], senders), a) - AddrSum(StoreAt(c[..k], senders), a)
    decreases m
  {
    hide StoreAt, TablesOf, Artifacts, AddrSum, LookDeltas;
    if k < m {
      MovedIsChange(c, first, senders, floor, k, m - 1, a);
      UndoRowsAt(first, Artifacts(c, senders), floor, m - 1);
      DeltaRowMeasures(c, senders, m - 1, a);
    }
  }

  lemma DeltaRowMeasures(c: seq<Block>, senders: set<Address>, i: nat, a: Address)
    requires i < |c|
    ensures Get(Artifacts(c, senders)[i].deltas, a) ==
            AddrSum(StoreAt(c[..i + 1], senders), a) - AddrSum(StoreAt(c[..i], senders), a)
  {
    hide AddrSum, TrackedAt, NextStore, Change;
    ArtifactsPrefix(c, senders, i + 1);
    var p := c[..i + 1];
    assert p[..i] == c[..i];
    assert Artifacts(p, senders)[i] == LastArtifact(p, senders);
    ChangeMeasures(StoreAt(c[..i], senders), StoreAt(p, senders));
  }

  /** After a rollback, with or without its undo rows, the balances are those of the stored outputs if and only
      if for every address the undone heights without rows moved exactly what the leftover in-block spends of
      the others are worth. */
  lemma RollbackConservesIff(s: State, first: nat, senders: set<Address>, h: History, f: nat, m: nat)
    requires Inv(s, first, senders, h) && first <= f < first + |h.chain| && first + m == Max(f, h.floor)
    ensures
      var s' := RollbackFrom(s, f);
      BalancesMatch(s'.store, s'.accounts.balances)
      <==> forall a :: Moved(s.tables.deltas, f, first + m, a) + AddrSum(Residue(h.chain, senders, m), a) == 0
  {
    hide StoreAt, TrackedAt, BoundAt, Artifacts, TablesOf, RowsAt, BindsOf, ValidChain, Heights, Moved, AddrSum;
    hide Residue, UndoStoreDown, UndoAccountsDown, RowsBelow, TablesBelow, RowsUpTo, HeightsBelow, BalancesMatch,
         TotalsMatch, StakersMatch;
    var c := h.chain;
    RollbackStoreExactly(s, first, senders, h, f);
    RollbackAccounts(s, first, senders, h, f);
    RollbackGivesResidue(c, senders, m);
    var upper, extra, bal := StoreAt(c[..m], senders), Residue(c, senders, m), RollbackFrom(s, f).accounts.balances;
    forall a ensures Moved(s.tables.deltas, f, first + m, a) ==
      AddrSum(upper, a) - AddrSum(StoreAt(c[..f - first], senders), a) {
      MovedIsChange(c, first, senders, h.floor, f - first, m, a);
    }
    MatchesOtherIff(StoreAt(c[..f - first], senders), upper, extra, bal);
  }

  lemma MatchesOtherIff(lower: Utxos, upper: Utxos, extra: Utxos, bal: map<Address, int>)
    requires BalancesMatch(lower, bal) && upper.Keys !! extra.Keys
    ensures BalancesMatch(upper + extra, bal)
            <==> forall a :: AddrSum(upper, a) - AddrSum(lower, a) + AddrSum(extra, a) == 0
  {
    hide AddrSum;
    forall a ensures AddrSum(upper + extra, a) == AddrSum(upper, a) + AddrSum(extra, a) {
      AddrSumUnion(upper, extra, a);
    }
    forall a ensures Get(bal, a) == AddrSum(lower, a) { }
  }

  /** A rollback that finds its undo rows conserves if and only if every tracked output that an undone block
      both created and spent is worth nothing. */
  lemma CoveredRollbackConservesIff(s: State, first: nat, senders: set<Address>, h: History, f: nat)
    requires Inv(s, first, senders, h) && first <= f < first + |h.chain| && h.floor <= f
    ensures
      var s' := RollbackFrom(s, f);
      BalancesMatch(s'.store, s'.accounts.balances) <==> Worthless(Residue(h.chain, senders, f - first))
  {
    hide StoreAt, TrackedAt, BoundAt, Artifacts, TablesOf, RowsAt, BindsOf, ValidChain, Heights;
    hide Residue, RollbackFrom, BalancesMatch, TotalsMatch, StakersMatch, Worthless, AddrSum;
    RollbackConservesIff(s, first, senders, h, f, f - first);
    ResidueAddressed(h.chain, senders, f - first);
    WorthlessIff(Residue(h.chain, senders, f - first));
  }

  lemma WorthlessIff(u: Utxos)
    requires forall k :: k in u ==> u[k].address.Some?
    ensures Worthless(u) <==> forall a :: AddrSum(u, a) == 0
  {
    hide AddrSum;
    forall a ensures AddrSum(u, a) == 0 <==> forall k :: k in u && u[k].address == Some(a) ==> u[k].satoshi == 0 {
      WorthNothingIff(u, a);
    }
    if !Worthless(u) {
      var k :| k in u && u[k].satoshi != 0;
      assert AddrSum(u, u[k].address.value) != 0;
    }
  }

  ghost predicate Worthless(u: Utxos) {
    forall k :: k in u ==> u[k].satoshi == 0
  }

  lemma {:induction false} ResidueAddressed(c: seq<Block>, senders: set<Address>, f: nat)
    ensures forall k :: k in Residue(c, senders, f) ==> Residue(c, senders, f)[k].address.Some?
    decreases |c|
  {
    if |c| > f {
      ResidueAddressed(c[..|c| - 1], senders, f);
    }
  }

  lemma WorthNothingIff(u: Utxos, a: Address)
    ensures AddrSum(u, a) == 0 <==> forall k :: k in u && u[k].address == Some(a) ==> u[k].satoshi == 0
  {
    var w := Worth(u, a);
    SumNonNegative(w);
    assert forall k :: k in w <==> k in u && u[k].address == Some(a);
  }

  lemma BoundPrefix(c: seq<Block>, k: nat)
    requires k <= |c|
    ensures BoundAt(c[..k]) <= BoundAt(c)
  {
    assert c == c[..k] + c[k..];
    BoundAtConcat(c[..k], c[k..]);
  }

  // ---- runs ----

  datatype Step = Submit(blocks: seq<Block>) | RollBack(from: nat)

  ghost predicate StepAllowed(h: History, first: nat, senders: set<Address>, step: Step) {
    match step
    case Submit(blocks) => SubmitAllowed(h, senders, blocks) && ValidChain(h.chain + blocks)
    case RollBack(f) => Refuses(h, first, f) || RollbackAllowed(h, first, senders, f)
  }

  /** The guard, in terms of the history. */
  predicate Refuses(h: History, first: nat, f: nat) {
    h.chain != [] && first + |h.chain| - 1 - f > RETENTION
  }

  ghost function AfterStep(h: History, first: nat, senders: set<Address>, step: Step): History
    requires StepAllowed(h, first, senders, step)
  {
    match step
    case Submit(blocks) => AfterSubmit(h, first, blocks)
    case RollBack(f) => if Refuses(h, first, f) then h else AfterRollback(h, first, f)
  }

  /** One round of the indexer. A refused rollback changes nothing. */
  ghost function Exec(s: State, first: nat, senders: set<Address>, h: History, step: Step): State
    requires CursorsMatch(s, first, |h.chain|) && StepAllowed(h, first, senders, step)
  {
    match step
    case Submit(blocks) => SubmitBatch(s, senders, first + |h.chain|, blocks)
    case RollBack(f) => if RollbackRefused(s, f) then s else RollbackFrom(s, f)
  }

  lemma ExecKeepsInv(s: State, first: nat, senders: set<Address>, h: History, step: Step)
    requires Inv(s, first, senders, h) && StepAllowed(h, first, senders, step)
    ensures Inv(Exec(s, first, senders, h, step), first, senders, AfterStep(h, first, senders, step))
  {
    hide StoreAt, TrackedAt, BoundAt, Artifacts, TablesOf, RowsAt, BindsOf, AccountsMatch, ValidChain, Heights;
    hide SubmitBatch, RollbackFrom, NoInBlockSpends;
    match step
    case Submit(blocks) => SubmitKeepsInv(s, first, senders, h, blocks);
    case RollBack(f) =>
      if !Refuses(h, first, f) {
        RollbackKeepsInv(s, first, senders, h, f);
      }
  }

  /** The run allows every one of its steps. */
  ghost predicate RunAllowed(h: History, first: nat, senders: set<Address>, steps: seq<Step>)
    decreases |steps|
  {
    steps == [] || (StepAllowed(h, first, senders, steps[0])
                    && RunAllowed(AfterStep(h, first, senders, steps[0]), first, senders, steps[1..]))
  }

  ghost function HistoryAfter(h: History, first: nat, senders: set<Address>, steps: seq<Step>): History
    requires RunAllowed(h, first, senders, steps)
    decreases |steps|
  {
    if steps == [] then h else HistoryAfter(AfterStep(h, first, senders, steps[0]), first, senders, steps[1..])
  }

  /** The state relation of a run. */
  ghost predicate Reaches(s: State, first: nat, senders: set<Address>, h: History, steps: seq<Step>, s': State)
    requires RunAllowed(h, first, senders, steps)
    decreases |steps|
  {
    if steps == [] then s == s' else
      && CursorsMatch(s, first, |h.chain|)
      && Reaches(Exec(s, first, senders, h, steps[0]), first, senders, AfterStep(h, first, senders, steps[0]),
                 steps[1..], s')
  }

  lemma {:induction false} RunKeepsInv(s: State, first: nat, senders: set<Address>, h: History, steps: seq<Step>,
                                       s': State)
    requires Inv(s, first, senders, h) && RunAllowed(h, first, senders, steps)
    requires Reaches(s, first, senders, h, steps, s')
    ensures Inv(s', first, senders, HistoryAfter(h, first, senders, steps))
    decreases |steps|
  {
    hide Inv;
    if steps != [] {
      ExecKeepsInv(s, first, senders, h, steps[0]);
      RunKeepsInv(Exec(s, first, senders, h, steps[0]), first, senders, AfterStep(h, first, senders, steps[0]),
                  steps[1..], s');
    }
  }

  /** MAIN (conservation). From the empty state, after every run of submits and rollbacks in which each
      rollback finds its undo rows and undoes no in-block tracked spend: every balance is the value of
      the address's live tracked outputs and absent when zero, every stake total and staker score is the
      sum of the balances bound to it, and the store is the per-block fold of the chain that is left. */
  lemma EveryRunConserves(first: nat, senders: set<Address>, steps: seq<Step>, s: State)
    requires RunAllowed(History([], 0, 0), first, senders, steps)
    requires Reaches(INITIAL, first, senders, History([], 0, 0), steps, s)
    ensures
      var c := HistoryAfter(History([], 0, 0), first, senders, steps).chain;
      && s.store == StoreAt(c, senders)
      && BalancesMatch(s.store, s.accounts.balances)
      && TotalsMatch(s.accounts.balances, s.accounts.totals, BindsOf(s.rows))
      && StakersMatch(s.accounts.balances, s.accounts.stakers, BindsOf(s.rows))
      && s.rows == RowsAt(c, first)
  {
    hide BalancesMatch, TotalsMatch, StakersMatch, StoreAt, BindsOf, RowsAt, CursorsMatch;
    InitialInv(first, senders);
    RunKeepsInv(INITIAL, first, senders, History([], 0, 0), steps, s);
  }

  // ---- undo coverage ----

  /** Undo rows never have to be missing from RETENTION below the highest height ever submitted. */
  lemma {:induction false} FloorBelowHighWater(h: History, first: nat, senders: set<Address>, steps: seq<Step>)
    requires RunAllowed(h, first, senders, steps) && h.floor <= MinKeepHeight(h.high)
    ensures HistoryAfter(h, first, senders, steps).floor <= MinKeepHeight(HistoryAfter(h, first, senders, steps).high)
    decreases |steps|
  {
    if steps != [] {
      FloorBelowHighWater(AfterStep(h, first, senders, steps[0]), first, senders, steps[1..]);
    }
  }

  /** In the runs of EveryRunConserves, the undo rows of every indexed height from the floor on are those of its
      own block. */
  lemma AllowedRunsKeepRightRows(first: nat, senders: set<Address>, steps: seq<Step>, s: State, x: nat)
    requires RunAllowed(History([], 0, 0), first, senders, steps)
    requires Reaches(INITIAL, first, senders, History([], 0, 0), steps, s)
    ensures
      var h := HistoryAfter(History([], 0, 0), first, senders, steps);
      && (x in s.tables.undoNew <==> first <= x < first + |h.chain| && h.floor <= x)
      && h.floor <= MinKeepHeight(h.high)
      && (first <= x < first + |h.chain| && x >= MinKeepHeight(h.high) ==>
            && LookUtxos(s.tables.undoNew, x) == Artifacts(h.chain, senders)[x - first].undoNew
            && LookUtxos(s.tables.undoSpent, x) == Artifacts(h.chain, senders)[x - first].undoSpent)
  {
    hide StoreAt, BoundAt, ValidChain, BindsOf, RowsAt, CursorsMatch, Artifacts, AccountsMatch, TablesOf, LookUtxos;
    hide HistoryAfter, RunAllowed, Reaches;
    InitialInv(first, senders);
    RunKeepsInv(INITIAL, first, senders, History([], 0, 0), steps, s);
    FloorBelowHighWater(History([], 0, 0), first, senders, steps);
    var h := HistoryAfter(History([], 0, 0), first, senders, steps);
    UndoRowsIff(first, Artifacts(h.chain, senders), h.floor, x);
    if first <= x < first + |h.chain| {
      UndoRowsAt(first, Artifacts(h.chain, senders), h.floor, x - first);
    }
  }

  lemma UndoRowsIff(first: nat, arts: seq<Artifact>, floor: nat, x: nat)
    ensures x in TablesOf(first, arts, floor).undoNew <==> first <= x < first + |arts| && floor <= x
  {
  }

  // ---- the UTXO counter and the cursors ----

  predicate CounterRight(s: State) {
    s.utxoTotal == |s.store|
  }

  /** A submit moves the UTXO counter exactly as it changes the number of stored outputs. */
  lemma SubmitKeepsCounterDistance(s: State, first: nat, senders: set<Address>, h: History, blocks: seq<Block>)
    requires Inv(s, first, senders, h)
    requires SubmitAllowed(h, senders, blocks) && ValidChain(h.chain + blocks)
    ensures
      var s' := SubmitBatch(s, senders, first + |h.chain|, blocks);
      s'.utxoTotal - |s'.store| == s.utxoTotal - |s.store|
  {
    hide TablesOf, Artifacts, AccountsMatch, StoreAt, RowsAt, CommitStore, CountIncrement, Apply, FlushTables,
         InsertAll;
    TrackedFromRows(h.chain, first, senders);
    BatchCommitRefinesFold(h.chain, blocks, senders);
  }

  /** A rollback never touches the counter: a right counter stays right if and only if the undo rows that
      are applied delete as many outputs as they restore. */
  lemma RollbackKeepsCounterIff(s: State, first: nat, senders: set<Address>, h: History, f: nat, m: nat)
    requires Inv(s, first, senders, h) && first <= f < first + |h.chain| && CounterRight(s)
    requires first + m == Max(f, h.floor)
    ensures CounterRight(RollbackFrom(s, f)) <==> NetUndo(h.chain, senders, m) == 0
  {
    hide StoreAt, TrackedAt, BoundAt, Artifacts, TablesOf, RowsAt, BindsOf, AccountsMatch, ValidChain, Heights,
         NetUndo, RollbackFrom;
    RolledBackSize(s, first, senders, h, f, m);
  }

  /** One block that funds a tracked address, submitted and undone: the store is empty, the counter says one. */
  lemma CounterGoesWrong(a: Address, k: Outpoint, d: TxoData)
    requires d.address == Some(a)
    ensures
      var s := SubmitBatch(INITIAL, {a}, 1, [Block({}, map[k := d], map[])]);
      && s.balanceCursor == Some(1) && s.utxoCursor == Some(1) && CounterRight(s)
      && !CounterRight(RollbackFrom(s, 1))
  {
    hide SubmitBatch, RollbackFrom, BoundAt, ValidChain, AccountsMatch, StoreAt, Artifacts, TablesOf, RowsAt, BindsOf,
         NetUndo;
    var c := [Block({}, map[k := d], map[])];
    FundingAllowed(a, k, d);
    InitialInv(1, {a});
    SubmitKeepsInv(INITIAL, 1, {a}, History([], 0, 0), c);
    SubmitKeepsCounterDistance(INITIAL, 1, {a}, History([], 0, 0), c);
    FundingUndo(a, k, d);
    RollbackKeepsCounterIff(SubmitBatch(INITIAL, {a}, 1, c), 1, {a}, History(c, 0, 1), 1, 0);
  }

  lemma FundingAllowed(a: Address, k: Outpoint, d: TxoData)
    ensures
      var c := [Block({}, map[k := d], map[])];
      && SubmitAllowed(History([], 0, 0), {a}, c) && ValidChain([] + c)
      && AfterSubmit(History([], 0, 0), 1, c) == History(c, 0, 1)
  {
    var c := [Block({}, map[k := d], map[])];
    assert [] + c == c && c[..0] == [] && BoundAt(c[..0]) == {};
  }

  lemma FundingUndo(a: Address, k: Outpoint, d: TxoData)
    requires d.address == Some(a)
    ensures NetUndo([Block({}, map[k := d], map[])], {a}, 0) == -1
  {
    hide Change;
    var b := Block({}, map[k := d], map[]);
    var c := [b];
    assert c[..0] == [];
    assert Kept(b, TrackedAt(c, {a})) == map[k := d];
    assert Only(StoreAt(c[..0], {a}), b.spent) + InBlock(b, TrackedAt(c[..0], {a})) == map[];
  }

  lemma RolledBackSize(s: State, first: nat, senders: set<Address>, h: History, f: nat, m: nat)
    requires Inv(s, first, senders, h) && first <= f < first + |h.chain| && first + m == Max(f, h.floor)
    ensures
      var s' := RollbackFrom(s, f);
      s'.utxoTotal == s.utxoTotal && |s'.store| == |s.store| + NetUndo(h.chain, senders, m)
  {
    hide StoreAt, TrackedAt, BoundAt, Artifacts, TablesOf, RowsAt, BindsOf, AccountsMatch, ValidChain;
    hide UndoStoreDown, UndoAccountsDown, RowsBelow, TablesBelow, RowsUpTo, NetUndo, Residue, HeightsBelow, Heights;
    RollbackStoreExactly(s, first, senders, h, f);
    RollbackSize(h.chain, senders, m);
    SameSize(RollbackFrom(s, f).store, StoreAt(h.chain[..m], senders) + Residue(h.chain, senders, m));
  }

  lemma SameSize(u: Utxos, v: Utxos)
    requires u == v
    ensures |u| == |v|
  {
  }

  /** After a rollback from an indexed height the three progress markers agree if and only if some block
      below that height is still indexed; undoing every block leaves the markers contradictory. */
  lemma RollbackCursorsAgreeIff(s: State, first: nat, senders: set<Address>, h: History, f: nat)
    requires Inv(s, first, senders, h) && first <= f < first + |h.chain|
    ensures CursorsAgree(RollbackFrom(s, f)) <==> f > first
  {
    hide StoreAt, TrackedAt, BoundAt, Artifacts, TablesOf, RowsAt, BindsOf, AccountsMatch, ValidChain;
    hide UndoStoreDown, UndoAccountsDown, RowsBelow, TablesBelow, RowsUpTo;
    var s' := RollbackFrom(s, f);
    assert s'.committed == Heights(first, f - first);
    if f > first {
      assert f - 1 in s'.committed;
    }
  }
}
