/** The persistent state of the indexer and its two transitions as functions of values:
    submitting a batch of blocks, and rolling back from a height. */
module IndexerState {
  import opened Maps
  import opened Ledger
  import opened BatchModel
  import opened Balances

  /** Undo rows older than this many blocks below the newest submitted height are dropped. */
  const RETENTION: nat := 100

  datatype BindRow = BindRow(binding: Binding, height: nat)

  type Rows = map<Address, BindRow>

  /** Balance keys, per-indexer stake totals and staker score sets. */
  datatype Accounts = Accounts(balances: map<Address, int>, totals: map<IndexerId, int>, stakers: map<Binding, int>)

  /** The per-height tables a rollback reads. */
  datatype Tables = Tables(deltas: map<nat, map<Address, int>>, undoNew: map<nat, Utxos>, undoSpent: map<nat, Utxos>)

  datatype State = State(
    store: Utxos,
    utxoTotal: int,
    accounts: Accounts,
    rows: Rows,
    tables: Tables,
    utxoCursor: Option<nat>,
    balanceCursor: Option<nat>,
    committed: set<nat>)

  const INITIAL: State :=
    State(map[], 0, Accounts(map[], map[], map[]), map[], Tables(map[], map[], map[]), None, None, {})

  function BindsOf(rows: Rows): Bindings {
    map a | a in rows :: rows[a].binding
  }

  lemma BoundKeys(rows: Rows)
    ensures BindsOf(rows).Keys == rows.Keys
  {
  }

  // ---- the cache of bindings ----

  /** The cache with the table's bindings of heights low < h <= high written over it. */
  function LoadRange(bound: Bindings, rows: Rows, low: nat, high: nat): Bindings {
    bound + map a | a in rows && low < rows[a].height <= high :: rows[a].binding
  }

  /** Loading up to a height: incrementally, or from scratch when the height went back. */
  function Reloaded(bound: Bindings, rows: Rows, loaded: nat, height: nat): Bindings {
    if height < loaded then LoadRange(map[], rows, 0, height) else LoadRange(bound, rows, loaded, height)
  }

  predicate HeightsWithin(rows: Rows, top: nat) {
    forall a :: a in rows ==> 0 < rows[a].height <= top
  }

  /** The height goes back, or the cache equals the table, or it is that of a process just started. */
  predicate Reloadable(bound: Bindings, rows: Rows, loaded: nat, height: nat) {
    height < loaded || bound == BindsOf(rows) || (loaded == 0 && bound == map[])
  }

  /** Loading below the loaded height gives the table whatever was cached, and so does filling the cache of a
      process just started; a cache that equals the table stays as it is. */
  lemma ReloadGivesTable(bound: Bindings, rows: Rows, loaded: nat, height: nat)
    requires HeightsWithin(rows, height) && Reloadable(bound, rows, loaded, height)
    ensures Reloaded(bound, rows, loaded, height) == BindsOf(rows)
  {
  }

  // ---- retention ----

  function MinKeepHeight(latest: nat): nat {
    if latest <= RETENTION then 0 else latest - RETENTION
  }

  predicate ShouldPersistUndo(latest: nat, height: nat) {
    height <= latest && latest - height <= RETENTION
  }

  /** The persist test and the cleanup bound are two spellings of one rule. */
  lemma PersistIffKept(latest: nat, height: nat)
    requires height <= latest
    ensures ShouldPersistUndo(latest, height) <==> height >= MinKeepHeight(latest)
    ensures ShouldPersistUndo(latest, height) <==> latest <= height + 100
  {
  }

  // ---- submitting a batch ----

  /** Bindings are inserted with "on conflict do nothing": the first row for an address stays. */
  function InsertRows(rows: Rows, binds: Bindings, height: nat): Rows {
    (map a | a in binds :: BindRow(binds[a], height)) + rows
  }

  function InsertAll(rows: Rows, start: nat, blocks: seq<Block>): Rows {
    if blocks == [] then rows else
      var n := |blocks| - 1;
      InsertRows(InsertAll(rows, start, blocks[..n]), blocks[n].binds, start + n)
  }

  /** The n heights from start on. */
  function Heights(start: nat, n: nat): (r: set<nat>)
    ensures forall h :: h in r <==> start <= h < start + n
  {
    if n == 0 then {} else Heights(start, n - 1) + {start + n - 1}
  }

  /** Replace the entries of heights start, start + 1, ... */
  function Put<V>(t: map<nat, V>, start: nat, xs: seq<V>): map<nat, V> {
    t + map h | h in Heights(start, |xs|) :: xs[h - start]
  }

  /** Write the undo rows of the recent heights of the batch, then delete the stale ones. */
  function FlushUndo(t: map<nat, Utxos>, start: nat, xs: seq<Utxos>): map<nat, Utxos>
    requires xs != []
  {
    var end := start + |xs| - 1;
    var t' := t + map h | h in Heights(start, |xs|) && ShouldPersistUndo(end, h) :: xs[h - start];
    map h | h in t' && h >= MinKeepHeight(end) :: t'[h]
  }

  function DeltasOf(arts: seq<Artifact>): (r: seq<map<Address, int>>)
    ensures |r| == |arts|
  {
    seq(|arts|, i requires 0 <= i < |arts| => arts[i].deltas)
  }

  function UndoNewOf(arts: seq<Artifact>): (r: seq<Utxos>)
    ensures |r| == |arts|
  {
    seq(|arts|, i requires 0 <= i < |arts| => arts[i].undoNew)
  }

  function UndoSpentOf(arts: seq<Artifact>): (r: seq<Utxos>)
    ensures |r| == |arts|
  {
    seq(|arts|, i requires 0 <= i < |arts| => arts[i].undoSpent)
  }

  function FlushTables(t: Tables, start: nat, arts: seq<Artifact>): Tables
    requires arts != []
  {
    Tables(Put(t.deltas, start, DeltasOf(arts)),
           FlushUndo(t.undoNew, start, UndoNewOf(arts)),
           FlushUndo(t.undoSpent, start, UndoSpentOf(arts)))
  }

  /** Apply address deltas to balances, totals and scores. */
  ghost function Apply(a: Accounts, binds: Bindings, d: map<Address, int>): Accounts {
    Accounts(AddDeltas(a.balances, d), AddTotals(a.totals, binds, d), AddStakers(a.stakers, binds, d))
  }

  /** The whole submit flow for blocks at heights start, start + 1, ... */
  ghost function SubmitBatch(s: State, senders: set<Address>, start: nat, blocks: seq<Block>): State
    requires blocks != []
  {
    var (g, arts) := ParseBlocks(blocks, s.store, s.rows.Keys + senders);
    var end := start + |blocks| - 1;
    var rows := InsertAll(s.rows, start, blocks);
    State(CommitStore(s.store, g),
          s.utxoTotal + CountIncrement(g),
          Apply(s.accounts, BindsOf(rows), g.gDelta),
          rows,
          FlushTables(s.tables, start, arts),
          Some(end),
          Some(end),
          s.committed + Heights(start, |blocks|))
  }

  lemma SubmitRows(s: State, senders: set<Address>, start: nat, blocks: seq<Block>)
    requires blocks != []
    ensures SubmitBatch(s, senders, start, blocks).rows == InsertAll(s.rows, start, blocks)
    ensures SubmitBatch(s, senders, start, blocks).committed == s.committed + Heights(start, |blocks|)
  {
    hide ParseBlocks, FlushTables, Apply, CommitStore, CountIncrement, BindsOf, Heights, InsertAll;
  }

  lemma SubmitFields(s: State, senders: set<Address>, start: nat, blocks: seq<Block>, g: Batch, arts: seq<Artifact>)
    requires blocks != [] && (g, arts) == ParseBlocks(blocks, s.store, s.rows.Keys + senders)
    ensures |arts| == |blocks|
    ensures SubmitBatch(s, senders, start, blocks) ==
            State(CommitStore(s.store, g), s.utxoTotal + CountIncrement(g),
                  Apply(s.accounts, BindsOf(InsertAll(s.rows, start, blocks)), g.gDelta),
                    InsertAll(s.rows, start, blocks),
                  FlushTables(s.tables, start, arts), Some(start + |arts| - 1), Some(start + |arts| - 1),
                  s.committed + Heights(start, |arts|))
  {
    hide ParseBlocks, FlushTables, Apply, CommitStore, CountIncrement, BindsOf, Heights, InsertAll;
  }

  /** The part of a submit that concerns the key-value stores and the progress markers. */
  ghost function StoresWritten(s: State, g: Batch, binds: Bindings, start: nat, end: nat, n: nat): State {
    s.(store := CommitStore(s.store, g), utxoTotal := s.utxoTotal + CountIncrement(g),
       accounts := Apply(s.accounts, binds, g.gDelta), utxoCursor := Some(end), balanceCursor := Some(end),
       committed := s.committed + Heights(start, n))
  }

  lemma SameState(s: State, t: State)
    requires s.store == t.store && s.utxoTotal == t.utxoTotal && s.accounts == t.accounts && s.rows == t.rows
    requires s.tables == t.tables && s.utxoCursor == t.utxoCursor && s.balanceCursor == t.balanceCursor
    requires s.committed == t.committed
    ensures s == t
  {
  }

  // ---- rolling back ----

  function LookUtxos(t: map<nat, Utxos>, h: nat): Utxos {
    if h in t then t[h] else map[]
  }

  function LookDeltas(t: map<nat, map<Address, int>>, h: nat): map<Address, int> {
    if h in t then t[h] else map[]
  }

  /** Undo the heights top, top - 1, ..., f in the store, with whatever undo rows exist. */
  function UndoStoreDown(store: Utxos, t: Tables, top: int, f: nat): Utxos
    decreases top - f
  {
    if top < f then store else
      UndoStoreDown((store - LookUtxos(t.undoNew, top).Keys) + LookUtxos(t.undoSpent, top), t, top - 1, f)
  }

  ghost function UndoAccountsDown(a: Accounts, t: map<nat, map<Address, int>>, binds: Bindings, top: int,
                                  f: nat): Accounts
    decreases top - f
  {
    if top < f then a else
      UndoAccountsDown(Apply(a, binds, Negate(LookDeltas(t, top))), t, binds, top - 1, f)
  }

  function Below<V>(t: map<nat, V>, f: nat): map<nat, V> {
    map h | h in t && h < f :: t[h]
  }

  function HeightsBelow(heights: set<nat>, f: nat): set<nat> {
    set h | h in heights && h < f
  }

  function TablesBelow(t: Tables, f: nat): Tables {
    Tables(Below(t.deltas, f), Below(t.undoNew, f), Below(t.undoSpent, f))
  }

  function RowsBelow(rows: Rows, f: nat): Rows {
    map a | a in rows && rows[a].height < f :: rows[a]
  }

  /** The bindings a rollback starting with balance cursor `top` knows. */
  function RowsUpTo(rows: Rows, top: nat): Rows {
    map a | a in rows && rows[a].height <= top :: rows[a]
  }

  /** The rollback is refused when it reaches further below the UTXO cursor than undo rows are kept. */
  predicate RollbackRefused(s: State, f: nat) {
    s.utxoCursor.Some? && s.utxoCursor.value >= f && s.utxoCursor.value - f > RETENTION
  }

  function RollbackTo(f: nat): nat {
    if f > 0 then f - 1 else 0
  }

  /** A rollback from height f that is not refused and has something to undo. */
  ghost function RollbackFrom(s: State, f: nat): State
    requires s.utxoCursor.Some? && s.balanceCursor.Some? && s.balanceCursor.value >= f
  {
    var top := s.balanceCursor.value;
    s.(store := UndoStoreDown(s.store, s.tables, s.utxoCursor.value, f),
       accounts := UndoAccountsDown(s.accounts, s.tables.deltas, BindsOf(RowsUpTo(s.rows, top)), top, f),
       rows := RowsBelow(s.rows, f),
       tables := TablesBelow(s.tables, f),
       utxoCursor := Some(RollbackTo(f)),
       balanceCursor := Some(RollbackTo(f)),
       committed := HeightsBelow(s.committed, f))
  }

  /** No progress marker reaches height f, and f is not 0. */
  ghost predicate NothingToUndo(s: State, f: nat) {
    && f > 0
    && (s.utxoCursor.Some? ==> s.utxoCursor.value < f) && (s.balanceCursor.Some? ==> s.balanceCursor.value < f)
    && forall h :: h in s.committed ==> h < f
  }

  /** A rollback from height f whatever the progress markers say: each side is undone from its own marker. */
  ghost function RollbackStep(s: State, f: nat): State {
    if NothingToUndo(s, f) || RollbackRefused(s, f) then s
    else UndoStoreSide(UndoBalanceSide(s, f), f).(rows := RowsBelow(s.rows, f), tables := TablesBelow(s.tables, f),
                                                  committed := HeightsBelow(s.committed, f))
  }

  ghost function UndoBalanceSide(s: State, f: nat): State {
    if s.balanceCursor.Some? && s.balanceCursor.value >= f then
      var top := s.balanceCursor.value;
      s.(accounts := UndoAccountsDown(s.accounts, s.tables.deltas, BindsOf(RowsUpTo(s.rows, top)), top, f),
         balanceCursor := Some(RollbackTo(f)))
    else s
  }

  ghost function UndoStoreSide(s: State, f: nat): State {
    if s.utxoCursor.Some? then
      s.(store := UndoStoreDown(s.store, s.tables, s.utxoCursor.value, f), utxoCursor := Some(RollbackTo(f)))
    else s
  }

  lemma StepIsRollbackFrom(s: State, f: nat)
    requires s.utxoCursor.Some? && s.balanceCursor.Some? && s.balanceCursor.value >= f && !RollbackRefused(s, f)
    ensures RollbackStep(s, f) == RollbackFrom(s, f)
  {
    hide UndoStoreDown, UndoAccountsDown, RowsBelow, TablesBelow, RowsUpTo, BindsOf, HeightsBelow;
  }

  /** The greatest committed height. */
  ghost function Latest(heights: set<nat>): Option<nat> {
    if heights == {} then None else
      GreatestExists(heights);
      var m :| m in heights && forall h :: h in heights ==> h <= m;
      Some(m)
  }

  lemma GreatestExists(heights: set<nat>)
    requires heights != {}
    ensures exists m :: m in heights && forall h :: h in heights ==> h <= m
  {
    var m := Greatest(heights);
  }

  lemma {:induction false} Greatest(heights: set<nat>) returns (m: nat)
    requires heights != {}
    ensures m in heights && forall h :: h in heights ==> h <= m
    decreases |heights|
  {
    m :| m in heights;
    var rest := heights - {m};
    if rest != {} {
      var other := Greatest(rest);
      m := if other > m then other else m;
    }
    forall h | h in heights ensures h <= m {
      assert h in rest || h !in rest;
    }
  }

  // ---- one round of the main loop ----

  /** An optional rollback, then the next blocks if there are any. */
  ghost function AfterRound(s: State, senders: set<Address>, from: Option<nat>, next: nat, blocks: seq<Block>): State {
    var s1 := if from.Some? then RollbackStep(s, from.value) else s;
    if blocks == [] then s1 else SubmitBatch(s1, senders, next, blocks)
  }

  /** The consistency check before every round: the newest committed height and the two cursors are
      all missing or all equal. */
  ghost predicate CursorsAgree(s: State) {
    || (s.committed == {} && s.utxoCursor.None? && s.balanceCursor.None?)
    || (exists h :: h in s.committed && (forall x :: x in s.committed ==> x <= h)
                    && s.utxoCursor == Some(h) && s.balanceCursor == Some(h))
  }
}
