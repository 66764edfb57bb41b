/** The loops over rows, keys and bindings of a submit, one iteration at a time. */
module TableSteps {
  import opened Maps
  import opened Ledger
  import opened BatchModel
  import opened Balances
  import opened IndexerState

  function InsertSome(r0: Rows, binds: Bindings, done: set<Address>, height: nat): Rows {
    InsertRows(r0, Only(binds, done), height)
  }

  lemma InsertStart(r0: Rows, binds: Bindings, height: nat)
    ensures InsertSome(r0, binds, {}, height) == r0
  {
  }

  lemma InsertStep(r0: Rows, binds: Bindings, done: set<Address>, height: nat, a: Address)
    requires a in binds && a !in done
    ensures
      var r := InsertSome(r0, binds, done, height);
      InsertSome(r0, binds, done + {a}, height) == if a in r then r else r[a := BindRow(binds[a], height)]
  {
  }

  lemma InsertEnd(r0: Rows, binds: Bindings, height: nat)
    ensures InsertSome(r0, binds, binds.Keys, height) == InsertRows(r0, binds, height)
  {
    assert Only(binds, binds.Keys) == binds;
  }

  /** The undo table after the rows of the first i heights of the batch are written. */
  function WriteUndo(t: map<nat, Utxos>, start: nat, xs: seq<Utxos>, end: nat, i: nat): map<nat, Utxos>
    requires i <= |xs|
  {
    t + map h | h in Heights(start, i) && ShouldPersistUndo(end, h) :: xs[h - start]
  }

  lemma FlushStart(d: map<nat, map<Address, int>>, n: map<nat, Utxos>, s: map<nat, Utxos>, start: nat,
                   ds: seq<map<Address, int>>, ns: seq<Utxos>, ss: seq<Utxos>)
    ensures Put(d, start, ds[..0]) == d
    ensures forall end :: WriteUndo(n, start, ns, end, 0) == n && WriteUndo(s, start, ss, end, 0) == s
  {
  }

  lemma PutStep<V>(t: map<nat, V>, start: nat, xs: seq<V>, i: nat)
    requires i < |xs|
    ensures Put(t, start, xs[..i + 1]) == Put(t, start, xs[..i])[start + i := xs[i]]
  {
  }

  lemma WriteUndoStep(t: map<nat, Utxos>, start: nat, xs: seq<Utxos>, end: nat, i: nat)
    requires i < |xs|
    ensures WriteUndo(t, start, xs, end, i + 1)
            == if ShouldPersistUndo(end, start + i) then WriteUndo(t, start, xs, end, i)[start + i := xs[i]]
               else WriteUndo(t, start, xs, end, i)
  {
  }

  lemma ColumnAt(arts: seq<Artifact>, i: nat)
    requires i < |arts|
    ensures DeltasOf(arts)[i] == arts[i].deltas && UndoNewOf(arts)[i] == arts[i].undoNew &&
            UndoSpentOf(arts)[i] == arts[i].undoSpent
  {
  }

  lemma FlushEnd(t: map<nat, Utxos>, start: nat, xs: seq<Utxos>, r: map<nat, Utxos>)
    requires xs != []
    requires
      var end := start + |xs| - 1;
      var w := WriteUndo(t, start, xs, end, |xs|);
      r == map h | h in w && h >= MinKeepHeight(end) :: w[h]
    ensures r == FlushUndo(t, start, xs)
  {
  }

  function Cut(n: int, m: nat): nat
    requires n >= 0
  {
    if n < m then n else m
  }

  function Elements(keys: seq<Outpoint>): set<Outpoint> {
    set k | k in keys
  }

  /** The cache of stake addresses after the bindings of some blocks; later entries overwrite. */
  function CacheAll(bound: Bindings, blocks: seq<Block>): Bindings {
    if blocks == [] then bound else
      var n := |blocks| - 1;
      CacheAll(bound, blocks[..n]) + blocks[n].binds
  }

  lemma NothingCached(bound: Bindings)
    ensures CacheAll(bound, []) == bound && WaitsFor([], [])
  {
  }

  lemma CacheStep(bound: Bindings, blocks: seq<Block>, i: nat)
    requires i < |blocks|
    ensures CacheAll(bound, blocks[..i + 1]) == CacheAll(bound, blocks[..i]) + blocks[i].binds
  {
    assert blocks[..i + 1][..i] == blocks[..i];
  }

  /** The bindings waiting to be stored are those of the blocks, one map per block. */
  predicate WaitsFor(waiting: seq<Bindings>, blocks: seq<Block>) {
    |waiting| == |blocks| && forall i :: 0 <= i < |blocks| ==> waiting[i] == blocks[i].binds
  }

  lemma WaitStep(waiting: seq<Bindings>, blocks: seq<Block>, i: nat)
    requires i < |blocks| && WaitsFor(waiting, blocks[..i])
    ensures WaitsFor(waiting + [blocks[i].binds], blocks[..i + 1])
  {
  }

  lemma {:induction false} CacheTracks(bound: Bindings, blocks: seq<Block>)
    ensures CacheAll(bound, blocks).Keys == bound.Keys + BoundAt(blocks)
    decreases |blocks|
  {
    if blocks != [] {
      CacheTracks(bound, blocks[..|blocks| - 1]);
    }
  }

  /** A row is an old one or carries the binding of one of the blocks. */
  ghost predicate FromRowsOrBlocks(a: Address, row: BindRow, rows: Rows, blocks: seq<Block>) {
    || (a in rows && row == rows[a])
    || exists i :: 0 <= i < |blocks| && a in blocks[i].binds && row.binding == blocks[i].binds[a]
  }

  lemma {:induction false} RowOrigin(rows: Rows, start: nat, blocks: seq<Block>, a: Address)
    requires a in InsertAll(rows, start, blocks)
    ensures FromRowsOrBlocks(a, InsertAll(rows, start, blocks)[a], rows, blocks)
    decreases |blocks|
  {
    if blocks != [] {
      var n := |blocks| - 1;
      if a in InsertAll(rows, start, blocks[..n]) {
        RowOrigin(rows, start, blocks[..n], a);
        assert forall i :: 0 <= i < n ==> blocks[i] == blocks[..n][i];
      } else {
        assert a in blocks[n].binds;
      }
    }
  }

  /** When a stake address always carries the same binding, the cache (last write wins) and the table
      (first write wins) end up the same. */
  lemma {:induction false} CacheMatchesRows(rows: Rows, start: nat, blocks: seq<Block>)
    requires ConsistentBinds(blocks)
    requires forall i, a :: 0 <= i < |blocks| && a in blocks[i].binds && a in rows ==>
                            rows[a].binding == blocks[i].binds[a]
    ensures CacheAll(BindsOf(rows), blocks) == BindsOf(InsertAll(rows, start, blocks))
    decreases |blocks|
  {
    hide BindsOf, InsertRows, FromRowsOrBlocks;
    if blocks != [] {
      var n := |blocks| - 1;
      CacheMatchesRows(rows, start, blocks[..n]);
      var r := InsertAll(rows, start, blocks[..n]);
      forall a | a in r && a in blocks[n].binds ensures r[a].binding == blocks[n].binds[a] {
        RowOrigin(rows, start, blocks[..n], a);
        SameBinding(rows, blocks, a, r[a]);
      }
      BindsOfInsert(r, blocks[n].binds, start + n);
    }
  }

  lemma SameBinding(rows: Rows, blocks: seq<Block>, a: Address, row: BindRow)
    requires blocks != [] && ConsistentBinds(blocks) && a in blocks[|blocks| - 1].binds
    requires forall i, a :: 0 <= i < |blocks| && a in blocks[i].binds && a in rows ==>
                            rows[a].binding == blocks[i].binds[a]
    requires FromRowsOrBlocks(a, row, rows, blocks[..|blocks| - 1])
    ensures row.binding == blocks[|blocks| - 1].binds[a]
  {
    var n := |blocks| - 1;
    if !(a in rows && row == rows[a]) {
      var i :| 0 <= i < n && a in blocks[..n][i].binds && row.binding == blocks[..n][i].binds[a];
      assert blocks[i].binds[a] == blocks[n].binds[a];
    }
  }

  lemma BindsOfInsert(r: Rows, binds: Bindings, height: nat)
    requires forall a :: a in r && a in binds ==> r[a].binding == binds[a]
    ensures BindsOf(InsertRows(r, binds, height)) == BindsOf(r) + binds
  {
  }

  lemma OnlyMore(d: map<Address, int>, done: map<Address, int>, todo: set<Address>, a: Address)
    requires a in d && a !in todo && done == Only(d, d.Keys - (todo + {a}))
    ensures a !in done && done[a := d[a]] == Only(d, d.Keys - todo)
  {
  }

  lemma OnlyAll(d: map<Address, int>)
    ensures Only(d, d.Keys - {}) == d
  {
  }

  /** The map with the entries of `m` for the keys in `done` written over it. */
  function WriteSome<K, V>(s: map<K, V>, m: map<K, V>, done: set<K>): map<K, V> {
    s + Only(m, done)
  }

  lemma WriteStep<K, V>(s: map<K, V>, m: map<K, V>, done: set<K>, k: K)
    requires k in m && k !in done
    ensures WriteSome(s, m, done + {k}) == WriteSome(s, m, done)[k := m[k]]
  {
  }

  lemma WriteStart<K, V>(s: map<K, V>, m: map<K, V>)
    ensures WriteSome(s, m, {}) == s && WriteSome(s, m, m.Keys) == s + m
  {
    assert Only(m, m.Keys) == m;
  }
}
