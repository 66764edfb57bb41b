/** The indexer as it runs: maps mutated in place by loops over Go maps (whose order is arbitrary),
    one submit per batch, and the rollback loops. Every method is proved equal to the value model. */
module Indexer {
  import opened Maps
  import opened Ledger
  import opened BatchModel
  import opened Balances
  import opened IndexerState
  import opened ParseSteps
  import opened AccountSteps
  import opened TableSteps
  import opened RoundSteps

  /** The maps of one block while it is parsed. */
  class ProcessBlock {
    var spentKeys: set<Outpoint>
    var spentData: Utxos
    var newData: Utxos
    var deltas: map<Address, int>

    constructor (b: Block)
      ensures View() == FirstParse(b)
    {
      spentKeys, spentData, newData, deltas := b.spent, map[], b.outs, map[];
    }

    ghost function View(): Parsed
      reads this
    {
      Parsed(spentKeys, spentData, newData, deltas)
    }
  }

  class Indexer {
    // batch-global maps
    var gNew: Utxos
    var gSpent: Utxos
    var gDel: set<Outpoint>
    var gDelta: map<Address, int>
    // artifacts staged by the blocks of the batch, and their bindings
    var staged: seq<Artifact>
    var waiting: seq<map<Address, Binding>>
    // the manager's cache of stake addresses
    var bound: map<Address, Binding>
    var loadedHeight: nat
    const senders: set<Address>
    // persistent state
    var store: Utxos
    var utxoTotal: int
    var balances: map<Address, int>
    var totals: map<IndexerId, int>
    var stakers: map<Binding, int>
    var rows: Rows
    var deltaRows: map<nat, map<Address, int>>
    var undoNew: map<nat, Utxos>
    var undoSpent: map<nat, Utxos>
    var utxoCursor: Option<nat>
    var balanceCursor: Option<nat>
    var committed: set<nat>

    constructor (senders: set<Address>)
      ensures Persistent() == INITIAL && Globals() == EMPTY_BATCH && staged == [] && waiting == []
      ensures bound == map[] && loadedHeight == 0 && this.senders == senders
      ensures Ready()
    {
      gNew, gSpent, gDel, gDelta := map[], map[], {}, map[];
      staged, waiting, bound, loadedHeight := [], [], map[], 0;
      this.senders := senders;
      store, utxoTotal, balances, totals, stakers := map[], 0, map[], map[], map[];
      rows, deltaRows, undoNew, undoSpent := map[], map[], map[], map[];
      utxoCursor, balanceCursor, committed := None, None, {};
    }

    ghost function Globals(): Batch
      reads this
    {
      Batch(gNew, gSpent, gDel, gDelta)
    }

    ghost function Persistent(): State
      reads this
    {
      State(store, utxoTotal, Accounts(balances, totals, stakers), rows, Tables(deltaRows, undoNew, undoSpent),
            utxoCursor, balanceCursor, committed)
    }

    function Tracked(): set<Address>
      reads this
    {
      bound.Keys + senders
    }

    // ---- parsing a block ----

    method AddTrackedAddressDelta(b: ProcessBlock, data: TxoData, delta: int)
      modifies this`gDelta, b`deltas
      ensures
        if IsTracked(data, Tracked())
        then gDelta == Bump(old(gDelta), data.address.value, delta) &&
             b.deltas == Bump(old(b.deltas), data.address.value, delta)
        else gDelta == old(gDelta) && b.deltas == old(b.deltas)
    {
      if delta == 0 || data.address.None? { return; }
      var a := data.address.value;
      if a !in bound && a !in senders { return; }
      gDelta := gDelta[a := Get(gDelta, a) + delta];
      if gDelta[a] == 0 { gDelta := gDelta - {a}; }
      b.deltas := b.deltas[a := Get(b.deltas, a) + delta];
      if b.deltas[a] == 0 { b.deltas := b.deltas - {a}; }
    }

    predicate ShouldTrack(d: TxoData)
      reads this
      ensures ShouldTrack(d) <==> IsTracked(d, Tracked())
    {
      d.address.Some? && (d.address.value in bound || d.address.value in senders)
    }

    /** Resolve every outpoint the block spends: in the block itself, in the batch, or in the store. */
    method ParseGetSpentStakeUtxoData(b: ProcessBlock)
      requires NoZero(gDelta) && NoZero(b.deltas) && b.spentData == map[]
      modifies this`gNew, this`gSpent, this`gDel, this`gDelta, b
      ensures b.View() == SpendParsed(old(b.View()), old(Globals()), store, Tracked())
      ensures Globals() == SpendBatch(old(b.View()), old(Globals()), store, Tracked())
      ensures NoZero(gDelta) && NoZero(b.deltas)
    {
      hide TrackedOnly, Only, Accumulate, MemoryAfter, LookAfter, SpendParsed, SpendBatch, NoZero;
      ghost var p, g, tracked := b.View(), Globals(), Tracked();
      var lookups := ResolveAllInMemory(b);
      MemoryEnd(p, g, tracked);
      ResolveAllInStore(b, lookups);
      SpendClosedForm(p, g, store, tracked);
    }

    method ResolveAllInMemory(b: ProcessBlock) returns (lookups: set<Outpoint>)
      requires NoZero(gDelta) && NoZero(b.deltas) && b.spentData == map[]
      modifies this`gNew, this`gDelta, b`spentData, b`newData, b`deltas
      ensures Memory(b.spentData, b.newData, b.deltas, gNew, gDelta, lookups)
              == MemoryAfter(old(b.View()), old(Globals()), Tracked(), b.spentKeys)
    {
      hide TrackedOnly, Only, Accumulate, Bump, MemoryAfter, MemoryStep, IsTracked, NoZero;
      ghost var p, g, tracked := b.View(), Globals(), Tracked();
      var todo := b.spentKeys;
      lookups := {};
      ghost var done: set<Outpoint> := {};
      MemoryStart(p, g, tracked);
      while todo != {}
        invariant done == p.spentKeys - todo && todo <= p.spentKeys
        invariant Memory(b.spentData, b.newData, b.deltas, gNew, gDelta, lookups) == MemoryAfter(p, g, tracked, done)
        decreases |todo|
      {
        var k :| k in todo;
        todo := todo - {k};
        var known := ResolveInMemory(b, k);
        if !known { lookups := lookups + {k}; }
        MemoryStepAny(p, g, tracked, done, k);
        done := done + {k};
      }
      assert done == p.spentKeys;
    }

    method ResolveAllInStore(b: ProcessBlock, lookups: set<Outpoint>)
      requires NoZero(gDelta) && NoZero(b.deltas)
      modifies this`gSpent, this`gDel, this`gDelta, b`spentData, b`deltas
      ensures Looked(b.spentData, b.deltas, gSpent, gDel, gDelta)
              == LookAfter(old(Looked(b.spentData, b.deltas, gSpent, gDel, gDelta)), store, Tracked(), lookups)
    {
      hide TrackedOnly, Only, Accumulate, Bump, LookAfter, LookStep, IsTracked, NoZero;
      ghost var tracked := Tracked();
      ghost var m := Looked(b.spentData, b.deltas, gSpent, gDel, gDelta);
      LookStart(m, store, tracked);
      var todo := lookups;
      ghost var done: set<Outpoint> := {};
      while todo != {}
        invariant done == lookups - todo && todo <= lookups
        invariant Looked(b.spentData, b.deltas, gSpent, gDel, gDelta) == LookAfter(m, store, tracked, done)
        decreases |todo|
      {
        var k :| k in todo;
        todo := todo - {k};
        ResolveInStore(b, k);
        LookStepAny(m, store, tracked, done, k);
        done := done + {k};
      }
      assert done == lookups;
    }

    /** One outpoint of the first loop: known to the block or to the batch, or left for the store. */
    method ResolveInMemory(b: ProcessBlock, k: Outpoint) returns (known: bool)
      modifies this`gNew, this`gDelta, b`spentData, b`newData, b`deltas
      ensures known == (k in old(b.newData) || k in old(gNew))
      ensures forall l :: Memory(b.spentData, b.newData, b.deltas, gNew, gDelta, if known then l else l + {k})
                          == MemoryStep(Memory(old(b.spentData), old(b.newData), old(b.deltas), old(gNew),
                                               old(gDelta), l), k, Tracked())
    {
      hide Bump;
      if k in b.newData {
        var d := b.newData[k];
        b.newData := b.newData - {k};
        if ShouldTrack(d) {
          b.spentData := b.spentData[k := d];
        }
        return true;
      }
      if k in gNew {
        var d := gNew[k];
        gNew := gNew - {k};
        if ShouldTrack(d) {
          b.spentData := b.spentData[k := d];
          AddTrackedAddressDelta(b, d, -1 * d.satoshi);
        }
        return true;
      }
      return false;
    }

    /** One outpoint of the second loop: read it from the store. */
    method ResolveInStore(b: ProcessBlock, k: Outpoint)
      modifies this`gSpent, this`gDel, this`gDelta, b`spentData, b`deltas
      ensures Looked(b.spentData, b.deltas, gSpent, gDel, gDelta)
              == LookStep(Looked(old(b.spentData), old(b.deltas), old(gSpent), old(gDel), old(gDelta)), k, store,
                          Tracked())
    {
      hide Bump;
      if k in store && ShouldTrack(store[k]) {
        var d := store[k];
        b.spentData := b.spentData[k := d];
        gSpent := gSpent[k := d];
        gDel := gDel + {k};
        AddTrackedAddressDelta(b, d, -1 * d.satoshi);
      }
    }

    /** Publish the block's tracked outputs to the batch, and drop everything untracked. */
    method UpdateStakeUtxoInMap(b: ProcessBlock)
      requires NoZero(gDelta) && NoZero(b.deltas)
      modifies this`gNew, this`gDelta, b
      ensures b.View() == FinishParsed(old(b.View()), Tracked())
      ensures Globals() == FinishBatch(old(b.View()), old(Globals()), Tracked())
      ensures NoZero(gDelta)
    {
      hide TrackedOnly, Only, Accumulate, PublishAfter, NoZero;
      ghost var p, tracked := b.View(), Tracked();
      var filteredNew := PublishAll(b);
      FinishClosedForm(Published(map[], p.deltas, old(gNew), old(gDelta)), p, tracked);
      b.newData := filteredNew;
      b.spentData := map k | k in b.spentData && ShouldTrack(b.spentData[k]) :: b.spentData[k];
      FilterIsTrackedOnly(p.spentData, b.spentData, tracked);
    }

    method PublishAll(b: ProcessBlock) returns (filteredNew: Utxos)
      requires NoZero(gDelta) && NoZero(b.deltas)
      modifies this`gNew, this`gDelta, b`deltas
      ensures Published(filteredNew, b.deltas, gNew, gDelta)
              == PublishAfter(Published(map[], old(b.deltas), old(gNew), old(gDelta)), b.newData, Tracked(),
                              b.newData.Keys)
    {
      hide TrackedOnly, Only, Accumulate, Bump, PublishAfter, PublishStep, IsTracked, NoZero;
      ghost var tracked := Tracked();
      filteredNew := map[];
      ghost var m := Published(filteredNew, b.deltas, gNew, gDelta);
      PublishStart(m, b.newData, tracked);
      var todo := b.newData.Keys;
      ghost var done: set<Outpoint> := {};
      while todo != {}
        invariant done == b.newData.Keys - todo && todo <= b.newData.Keys
        invariant Published(filteredNew, b.deltas, gNew, gDelta) == PublishAfter(m, b.newData, tracked, done)
        decreases |todo|
      {
        var k :| k in todo;
        todo := todo - {k};
        filteredNew := Publish(b, k, b.newData[k], filteredNew);
        PublishStepAny(m, b.newData, tracked, done, k);
        done := done + {k};
      }
      assert done == b.newData.Keys;
    }

    method Publish(b: ProcessBlock, k: Outpoint, d: TxoData, filtered: Utxos) returns (filtered': Utxos)
      modifies this`gNew, this`gDelta, b`deltas
      ensures Published(filtered', b.deltas, gNew, gDelta)
              == PublishStep(Published(filtered, old(b.deltas), old(gNew), old(gDelta)), k, d, Tracked())
    {
      hide Bump;
      filtered' := filtered;
      if ShouldTrack(d) {
        filtered' := filtered[k := d];
        gNew := gNew[k := d];
        AddTrackedAddressDelta(b, d, d.satoshi);
      }
    }

    /** One block: resolve its inputs, learn its bindings, publish its outputs, stage its artifact. */
    method ParseSerial(block: Block)
      requires NoZero(gDelta)
      modifies this`gNew, this`gSpent, this`gDel, this`gDelta, this`bound, this`staged, this`waiting
      ensures Globals() == ParseBlock(old(Globals()), block, store, old(Tracked())).0 && NoZero(gDelta)
      ensures staged == old(staged) + [ParseBlock(old(Globals()), block, store, old(Tracked())).1]
      ensures waiting == old(waiting) + [block.binds]
      ensures bound == old(bound) + block.binds
    {
      hide SpendParsed, SpendBatch, FinishParsed, FinishBatch;
      var b := new ProcessBlock(block);
      ParseGetSpentStakeUtxoData(b);
      bound := bound + block.binds;
      waiting := waiting + [block.binds];
      assert Tracked() == old(Tracked()) + block.binds.Keys;
      UpdateStakeUtxoInMap(b);
      staged := staged + [Artifact(b.deltas, b.newData, b.spentData)];
    }

    /** Parse consecutive blocks into the batch. */
    method ParseLongestChain(blocks: seq<Block>)
      requires Globals() == EMPTY_BATCH && staged == [] && waiting == []
      modifies this`gNew, this`gSpent, this`gDel, this`gDelta, this`bound, this`staged, this`waiting
      ensures (Globals(), staged) == ParseBlocks(blocks, store, old(Tracked()))
      ensures WaitsFor(waiting, blocks)
      ensures bound == CacheAll(old(bound), blocks)
    {
      hide ParseBlock, WaitsFor, CacheAll;
      var i := 0;
      assert blocks[..0] == [];
      NothingCached(bound);
      while i < |blocks|
        invariant 0 <= i <= |blocks|
        invariant (Globals(), staged) == ParseBlocks(blocks[..i], store, old(Tracked())) && NoZero(gDelta)
        invariant WaitsFor(waiting, blocks[..i])
        invariant bound == CacheAll(old(bound), blocks[..i])
      {
        CacheTracks(old(bound), blocks[..i]);
        assert Tracked() == old(Tracked()) + BoundAt(blocks[..i]);
        WaitStep(waiting, blocks, i);
        CacheStep(old(bound), blocks, i);
        ParseSerial(blocks[i]);
        assert blocks[..i + 1][..i] == blocks[..i];
        i := i + 1;
      }
      assert blocks[..i] == blocks;
    }

    // ---- submitting the batch ----

    /** Apply address deltas to balances, totals and staker scores; `binds` maps stake addresses. */
    method ApplyDeltas(d: map<Address, int>, binds: Bindings)
      modifies this`balances, this`totals, this`stakers
      ensures Accounts(balances, totals, stakers) == Apply(old(Accounts(balances, totals, stakers)), binds, d)
    {
      hide AddDeltas, AddTotals, AddStakers, TallyAfter, TallyStep, BookTotals, Prune, AddAll, AddGroups;
      ghost var bal, tot, z := balances, totals, stakers;
      var sums: map<IndexerId, int> := map[];
      var zero: set<Address> := {};
      var todo := d.Keys;
      ghost var done: map<Address, int> := map[];
      TallyStart(bal, z, binds);
      while todo != {}
        invariant todo <= d.Keys && totals == tot
        invariant done == Only(d, d.Keys - todo)
        invariant Tally(balances, stakers, sums, zero) == TallyAfter(bal, z, binds, done)
        decreases |todo|
      {
        var a :| a in todo;
        todo := todo - {a};
        sums, zero := IncrementOne(a, d[a], binds, sums, zero);
        TallyStepAny(bal, z, binds, done, a, d[a]);
        OnlyMore(d, done, todo, a);
        done := done[a := d[a]];
      }
      OnlyAll(d);
      BookAll(sums);
      balances := balances - zero;
      ApplyClosedForm(bal, tot, z, binds, d);
    }

    method IncrementOne(a: Address, v: int, binds: Bindings, sums: map<IndexerId, int>, zero: set<Address>)
      returns (sums': map<IndexerId, int>, zero': set<Address>)
      modifies this`balances, this`stakers
      ensures Tally(balances, stakers, sums', zero') ==
              TallyStep(old(Tally(balances, stakers, sums, zero)), a, v, binds)
    {
      sums', zero' := sums, zero;
      if v == 0 { return; }
      balances := Add(balances, a, v);
      if balances[a] == 0 { zero' := zero' + {a}; }
      if a in binds {
        stakers := Add(stakers, binds[a], v);
        sums' := Add(sums', binds[a].indexer, v);
      }
    }

    method BookAll(sums: map<IndexerId, int>)
      modifies this`totals, this`stakers
      ensures totals == BookTotals(old(totals), sums, sums.Keys)
      ensures stakers == Prune(old(stakers), sums.Keys)
    {
      hide BookTotals, Prune;
      ghost var tot, z := totals, stakers;
      var todo := sums.Keys;
      ghost var done: set<IndexerId> := {};
      BookStart(tot, sums, z);
      while todo != {}
        invariant todo <= sums.Keys && done == sums.Keys - todo
        invariant totals == BookTotals(tot, sums, done) && stakers == Prune(z, done)
        decreases |todo|
      {
        var i :| i in todo;
        todo := todo - {i};
        totals := Add(totals, i, sums[i]);
        stakers := Prune(stakers, {i});
        BookStepAny(tot, sums, z, done, i);
        done := done + {i};
      }
      assert done == sums.Keys;
    }

    /** Persist delta rows and recent undo rows of the staged blocks, then delete the stale undo rows. */
    method FlushIndexerBlockArtifacts(start: nat)
      requires staged != []
      modifies this`deltaRows, this`undoNew, this`undoSpent
      ensures Tables(deltaRows, undoNew, undoSpent)
              == FlushTables(old(Tables(deltaRows, undoNew, undoSpent)), start, staged)
    {
      hide Put, WriteUndo, FlushUndo, DeltasOf, UndoNewOf, UndoSpentOf;
      var end := start + |staged| - 1;
      ghost var d0, n0, s0 := deltaRows, undoNew, undoSpent;
      ghost var ds, ns, ss := DeltasOf(staged), UndoNewOf(staged), UndoSpentOf(staged);
      FlushStart(d0, n0, s0, start, ds, ns, ss);
      var i := 0;
      while i < |staged|
        invariant 0 <= i <= |staged|
        invariant deltaRows == Put(d0, start, ds[..i])
        invariant undoNew == WriteUndo(n0, start, ns, end, i) && undoSpent == WriteUndo(s0, start, ss, end, i)
      {
        ColumnAt(staged, i);
        PutStep(d0, start, ds, i);
        WriteUndoStep(n0, start, ns, end, i);
        WriteUndoStep(s0, start, ss, end, i);
        deltaRows := deltaRows[start + i := staged[i].deltas];
        if ShouldPersistUndo(end, start + i) {
          undoNew := undoNew[start + i := staged[i].undoNew];
          undoSpent := undoSpent[start + i := staged[i].undoSpent];
        }
        i := i + 1;
      }
      assert ds[..i] == ds;
      undoNew := map h | h in undoNew && h >= MinKeepHeight(end) :: undoNew[h];
      undoSpent := map h | h in undoSpent && h >= MinKeepHeight(end) :: undoSpent[h];
      FlushEnd(n0, start, ns, undoNew);
      FlushEnd(s0, start, ss, undoSpent);
    }

    /** Insert the bindings of one block; an existing row for a stake address stays. */
    method InsertStakeBindings(binds: Bindings, height: nat)
      modifies this`rows
      ensures rows == InsertRows(old(rows), binds, height)
    {
      hide InsertSome;
      var todo := binds.Keys;
      ghost var r0 := rows;
      ghost var done: set<Address> := {};
      InsertStart(r0, binds, height);
      while todo != {}
        invariant todo <= binds.Keys && done == binds.Keys - todo
        invariant rows == InsertSome(r0, binds, done, height)
        decreases |todo|
      {
        var a :| a in todo;
        todo := todo - {a};
        InsertStep(r0, binds, done, height, a);
        if a !in rows {
          rows := rows[a := BindRow(binds[a], height)];
        }
        done := done + {a};
      }
      assert done == binds.Keys;
      InsertEnd(r0, binds, height);
    }

    method PersistBindings(start: nat, ghost blocks: seq<Block>)
      requires WaitsFor(waiting, blocks)
      modifies this`rows
      ensures rows == InsertAll(old(rows), start, blocks)
    {
      hide InsertRows;
      var i := 0;
      while i < |waiting|
        invariant 0 <= i <= |waiting|
        invariant rows == InsertAll(old(rows), start, blocks[..i])
      {
        InsertStakeBindings(waiting[i], start + i);
        assert blocks[..i + 1][..i] == blocks[..i];
        i := i + 1;
      }
      assert blocks[..i] == blocks;
    }

    /** Write every new output whose key is absent. */
    method UpdateUtxoInPikaAdd()
      modifies this`store
      ensures store == gNew + old(store)
    {
      var todo := gNew.Keys;
      ghost var s0 := store;
      while todo != {}
        invariant todo <= gNew.Keys
        invariant store == Only(gNew, gNew.Keys - todo) + s0
        decreases |todo|
      {
        var k :| k in todo;
        todo := todo - {k};
        if k !in store {
          store := store[k := gNew[k]];
        }
        assert Only(gNew, gNew.Keys - todo) + s0 == store;
      }
      assert Only(gNew, gNew.Keys - todo) == gNew;
    }

    /** Delete the marked keys in slices of bounded size. */
    method UpdateUtxoInPikaDel(sliceLen: nat)
      requires sliceLen > 0
      modifies this`store
      ensures store == old(store) - gDel
    {
      if |gDel| == 0 {
        assert store - gDel == store;
        return;
      }
      var keys := [];
      var todo := gDel;
      while todo != {}
        invariant todo <= gDel
        invariant forall k :: k in keys <==> k in gDel - todo
        decreases |todo|
      {
        var k :| k in todo;
        todo := todo - {k};
        keys := keys + [k];
      }
      ghost var s0 := store;
      var idx := 0;
      while idx * sliceLen < |keys|
        invariant idx >= 0
        invariant store == s0 - Elements(keys[..Cut(idx * sliceLen, |keys|)])
        decreases |keys| - idx * sliceLen
      {
        var from := idx * sliceLen;
        var n := 0;
        while n < sliceLen && from + n < |keys|
          invariant 0 <= n <= sliceLen && from + n <= |keys|
          invariant store == s0 - Elements(keys[..from + n])
        {
          assert Elements(keys[..from + n + 1]) == Elements(keys[..from + n]) + {keys[from + n]} by {
            assert keys[..from + n + 1] == keys[..from + n] + [keys[from + n]];
          }
          store := store - {keys[from + n]};
          n := n + 1;
        }
        assert (idx + 1) * sliceLen == from + sliceLen;
        idx := idx + 1;
      }
      assert keys[..|keys|] == keys;
      assert Elements(keys) == gDel;
    }

    const SLICE: nat := 2500000

    /** Between rounds: nothing is staged, and the cache is that of a running or of a just started process. */
    ghost predicate Ready()
      reads this
    {
      Idle() && RowsCommitted(rows, committed) && (Warm() || Cold())
    }

    ghost predicate Idle()
      reads this
    {
      Globals() == EMPTY_BATCH && staged == [] && waiting == []
    }

    /** The cache holds exactly the stored bindings, and no committed height is above what has been loaded. */
    ghost predicate Warm()
      reads this
    {
      bound == BindsOf(rows) && AtMost(committed, loadedHeight)
    }

    ghost predicate Cold()
      reads this
    {
      bound == map[] && loadedHeight == 0
    }

    /** A new process over the stores of the old one, whatever that one had in memory. */
    method Restart()
      requires RowsCommitted(rows, committed)
      modifies this`gNew, this`gSpent, this`gDel, this`gDelta, this`staged, this`waiting, this`bound, this`loadedHeight
      ensures Ready() && Persistent() == old(Persistent())
    {
      hide RowsCommitted, AtMost, BindsOf;
      ghost var before := Persistent();
      CleanUtxoMap();
      bound, loadedHeight := map[], 0;
      SameState(Persistent(), before);
    }

    /** Load the stored bindings up to a height into the cache, from scratch when the height went back. */
    method LoadStakeBindingsToHeight(height: nat)
      modifies this`bound, this`loadedHeight
      ensures bound == Reloaded(old(bound), rows, old(loadedHeight), height) && loadedHeight == height
    {
      hide LoadRange;
      if height < loadedHeight {
        loadedHeight, bound := 0, map[];
      }
      CacheRange(loadedHeight, height);
      loadedHeight := height;
    }

    method CacheRange(low: nat, high: nat)
      modifies this`bound
      ensures bound == LoadRange(old(bound), rows, low, high)
    {
      hide LoadSome, LoadRange, RangeOf;
      var todo := RangeOf(rows, low, high);
      ghost var done: set<Address> := {};
      LoadStart(bound, rows, low, high);
      while todo != {}
        invariant done + todo == RangeOf(rows, low, high) && done !! todo
        invariant bound == LoadSome(old(bound), rows, done)
        decreases |todo|
      {
        var a :| a in todo;
        LoadStep(old(bound), rows, done, a);
        bound := bound[a := rows[a].binding];
        todo := todo - {a};
        done := done + {a};
      }
    }

    /** Submit the parsed batch: artifacts, bindings, outputs, balances, progress, then clear the batch. */
    method SubmitBlocks(start: nat, ghost blocks: seq<Block>)
      requires blocks != [] && (Globals(), staged) == ParseBlocks(blocks, store, rows.Keys + senders)
      requires WaitsFor(waiting, blocks)
      requires bound == BindsOf(InsertAll(rows, start, blocks))
      requires RowsCommitted(rows, committed) && Above(start, committed) && NoGenesisBinds(start, blocks)
      modifies this
      ensures Persistent() == SubmitBatch(old(Persistent()), senders, start, blocks)
      ensures Ready() && Warm() && loadedHeight == start + |blocks| - 1
    {
      hide ParseBlocks, InsertAll, BindsOf, SubmitBatch, HeightsWithin, RowsCommitted, Above, AtMost, NoGenesisBinds,
           Heights;
      ghost var before := Persistent();
      InsertedHeights(rows, committed, start, blocks);
      WriteBatch(start, blocks);
      SubmitRows(before, senders, start, blocks);
      CleanUtxoMap();
    }

    method WriteBatch(start: nat, ghost blocks: seq<Block>)
      requires blocks != [] && (Globals(), staged) == ParseBlocks(blocks, store, rows.Keys + senders)
      requires WaitsFor(waiting, blocks)
      requires bound == BindsOf(InsertAll(rows, start, blocks))
      requires HeightsWithin(InsertAll(rows, start, blocks), start + |blocks| - 1)
      modifies this`deltaRows, this`undoNew, this`undoSpent, this`rows, this`store, this`utxoCursor, this`utxoTotal
      modifies this`balances, this`totals, this`stakers, this`balanceCursor, this`committed, this`bound,
        this`loadedHeight
      ensures Persistent() == SubmitBatch(old(Persistent()), senders, start, blocks)
      ensures bound == old(bound) && loadedHeight == start + |blocks| - 1
    {
      hide ParseBlocks, InsertAll, FlushTables, Apply, BindsOf, Heights, CommitStore, CountIncrement, SubmitBatch,
           HeightsWithin;
      ghost var before, g, arts := Persistent(), Globals(), staged;
      SubmitFields(before, senders, start, blocks, g, arts);
      WriteTables(start, blocks);
      WriteStores(start, start + |staged| - 1);
    }

    /** The Postgres side, and the reload of the cache. */
    method WriteTables(start: nat, ghost blocks: seq<Block>)
      requires blocks != [] && |staged| == |blocks| && WaitsFor(waiting, blocks)
      requires bound == BindsOf(InsertAll(rows, start, blocks))
      requires HeightsWithin(InsertAll(rows, start, blocks), start + |blocks| - 1)
      modifies this`deltaRows, this`undoNew, this`undoSpent, this`rows, this`bound, this`loadedHeight
      ensures Persistent() == old(Persistent()).(tables := FlushTables(old(Persistent()).tables, start, staged),
                                                 rows := InsertAll(old(rows), start, blocks))
      ensures bound == old(bound) && loadedHeight == start + |blocks| - 1
    {
      hide InsertAll, FlushTables, BindsOf, HeightsWithin, Reloaded, WaitsFor;
      ghost var before := Persistent();
      FlushIndexerBlockArtifacts(start);
      PersistBindings(start, blocks);
      ReloadGivesTable(bound, rows, loadedHeight, start + |staged| - 1);
      LoadStakeBindingsToHeight(start + |staged| - 1);
      SameState(Persistent(), before.(tables := FlushTables(before.tables, start, staged),
                                      rows := InsertAll(before.rows, start, blocks)));
    }

    /** The key-value side, and the progress markers. */
    method WriteStores(start: nat, end: nat)
      modifies this`store, this`utxoCursor, this`utxoTotal, this`balances, this`totals, this`stakers
      modifies this`balanceCursor, this`committed
      ensures Persistent() == StoresWritten(old(Persistent()), Globals(), bound, start, end, |staged|)
    {
      hide Apply, Heights, CommitStore, CountIncrement;
      ghost var before := Persistent();
      CommitUtxoWritesAndCursor(end);
      ApplyDeltas(gDelta, bound);
      balanceCursor := Some(end);
      committed := committed + Heights(start, |staged|);
      SameState(Persistent(), StoresWritten(before, Globals(), bound, start, end, |staged|));
    }

    method CommitUtxoWritesAndCursor(end: nat)
      modifies this`store, this`utxoCursor, this`utxoTotal
      ensures store == CommitStore(old(store), Globals()) && utxoCursor == Some(end)
      ensures utxoTotal == old(utxoTotal) + CountIncrement(Globals())
    {
      UpdateUtxoInPikaAdd();
      UpdateUtxoInPikaDel(SLICE);
      utxoCursor := Some(end);
      utxoTotal := utxoTotal + (|gNew| - |gSpent|);
    }

    method CleanUtxoMap()
      modifies this`gNew, this`gSpent, this`gDel, this`gDelta, this`staged, this`waiting
      ensures Globals() == EMPTY_BATCH && staged == [] && waiting == []
    {
      gNew, gSpent, gDel, gDelta := map[], map[], {}, map[];
      staged, waiting := [], [];
    }

    /** Parse the blocks from height start on, then submit them. A stake address determines its binding. */
    method IndexBlocks(start: nat, blocks: seq<Block>)
      requires Ready() && Warm() && blocks != [] && Above(start, committed) && NoGenesisBinds(start, blocks) &&
               ConsistentBinds(blocks)
      requires forall i, a :: 0 <= i < |blocks| && a in blocks[i].binds && a in rows ==>
                              rows[a].binding == blocks[i].binds[a]
      modifies this
      ensures Persistent() == SubmitBatch(old(Persistent()), senders, start, blocks)
      ensures Ready() && Warm()
    {
      hide ParseBlocks, InsertAll, SubmitBatch, CacheAll, BindsOf, ConsistentBinds, RowsCommitted, Above, AtMost,
           NoGenesisBinds;
      CacheMatchesRows(rows, start, blocks);
      BoundKeys(rows);
      assert Tracked() == rows.Keys + senders;
      ghost var before := Persistent();
      ParseLongestChain(blocks);
      SameState(Persistent(), before);
      SubmitBlocks(start, blocks);
    }

    // ---- rolling back ----

    /** Undo one height in the store: delete what it created, then restore what it spent. */
    method RollbackUtxoOneBlock(height: nat)
      modifies this`store
      ensures store == (old(store) - LookUtxos(undoNew, height).Keys) + LookUtxos(undoSpent, height)
    {
      DeleteKeys(LookUtxos(undoNew, height).Keys);
      SetKeys(LookUtxos(undoSpent, height));
    }

    method DeleteKeys(keys: set<Outpoint>)
      modifies this`store
      ensures store == old(store) - keys
    {
      var todo := keys;
      ghost var s0 := store;
      while todo != {}
        invariant todo <= keys && store == s0 - (keys - todo)
        decreases |todo|
      {
        var k :| k in todo;
        todo := todo - {k};
        store := store - {k};
        assert s0 - (keys - todo) == store;
      }
      assert keys - todo == keys;
    }

    method SetKeys(m: Utxos)
      modifies this`store
      ensures store == old(store) + m
    {
      hide WriteSome;
      var todo := m.Keys;
      ghost var s0 := store;
      ghost var done: set<Outpoint> := {};
      WriteStart(s0, m);
      while todo != {}
        invariant todo <= m.Keys && done == m.Keys - todo && store == WriteSome(s0, m, done)
        decreases |todo|
      {
        var k :| k in todo;
        todo := todo - {k};
        store := store[k := m[k]];
        WriteStep(s0, m, done, k);
        done := done + {k};
      }
      assert done == m.Keys;
    }

    /** Undo the balance deltas of every height from the balance cursor down to `from`. */
    method RollbackRealtimeBalanceFromHeight(from: nat)
      modifies this`balances, this`totals, this`stakers, this`balanceCursor
      ensures old(balanceCursor).None? || old(balanceCursor).value < from ==>
                Accounts(balances, totals, stakers) == old(Accounts(balances, totals, stakers)) &&
                  balanceCursor == old(balanceCursor)
      ensures old(balanceCursor).Some? && old(balanceCursor).value >= from ==>
                && balanceCursor == Some(RollbackTo(from))
                && Accounts(balances, totals, stakers)
                   == UndoAccountsDown(old(Accounts(balances, totals, stakers)), deltaRows,
                                       BindsOf(RowsUpTo(rows, old(balanceCursor).value)), old(balanceCursor).value,
                                         from)
    {
      hide Apply, BindsOf, RowsUpTo;
      if balanceCursor.None? { return; }
      var current := balanceCursor.value;
      if current < from { return; }
      var binds := BindsOf(RowsUpTo(rows, current));
      ghost var goal := UndoAccountsDown(Accounts(balances, totals, stakers), deltaRows, binds, current, from);
      var h: int := current;
      while h >= from
        invariant from - 1 <= h <= current
        invariant UndoAccountsDown(Accounts(balances, totals, stakers), deltaRows, binds, h, from) == goal
        invariant balanceCursor == old(balanceCursor)
      {
        ApplyDeltas(Negate(LookDeltas(deltaRows, h)), binds);
        h := h - 1;
      }
      balanceCursor := Some(RollbackTo(from));
    }

    method GetLatestCommittedHeight() returns (latest: Option<nat>)
      ensures latest.None? <==> committed == {}
      ensures latest.Some? ==> latest.value in committed && forall x :: x in committed ==> x <= latest.value
    {
      latest := None;
      var todo := committed;
      while todo != {}
        invariant todo <= committed
        invariant latest.None? <==> committed - todo == {}
        invariant latest.Some? ==> latest.value in committed
        invariant latest.Some? ==> forall x :: x in committed && x !in todo ==> x <= latest.value
        decreases |todo|
      {
        var x :| x in todo;
        todo := todo - {x};
        if latest.None? || latest.value < x { latest := Some(x); }
        assert x in committed - todo;
      }
    }

    /** Roll back every block from height `from` on, whatever the progress markers say. Refused, changing
        nothing, when the range reaches further than undo rows are kept. */
    method RollbackIndexerFromHeight(from: nat) returns (ok: bool)
      modifies this`store, this`balances, this`totals, this`stakers, this`rows, this`deltaRows, this`undoNew,
        this`undoSpent
      modifies this`utxoCursor, this`balanceCursor, this`committed
      ensures ok == !RollbackRefused(old(Persistent()), from)
      ensures ok <==> (old(utxoCursor).Some? ==> old(utxoCursor).value <= from + 100)
      ensures Persistent() == RollbackStep(old(Persistent()), from)
    {
      hide UndoAccountsDown, UndoStoreDown, RowsUpTo, BindsOf, RowsBelow, TablesBelow, HeightsBelow;
      var latest := GetLatestCommittedHeight();
      var maxHeight := Higher(Higher(Higher(0, utxoCursor), balanceCursor), latest);
      if maxHeight < from { return true; }
      if utxoCursor.Some? && utxoCursor.value >= from && utxoCursor.value - from > RETENTION { return false; }
      RollbackRealtimeBalanceFromHeight(from);
      UndoStore(maxHeight, from);
      TruncateTables(from);
      return true;
    }

    /** Undo the store from height `top` down to `from`, skipping heights above its own marker. */
    method UndoStore(top: nat, from: nat)
      requires utxoCursor.Some? ==> utxoCursor.value <= top
      modifies this`store, this`utxoCursor
      ensures old(utxoCursor).None? ==> store == old(store) && utxoCursor == None
      ensures old(utxoCursor).Some? ==>
                && store == UndoStoreDown(old(store), Tables(deltaRows, undoNew, undoSpent), old(utxoCursor).value,
                                          from)
                && utxoCursor == Some(RollbackTo(from))
    {
      hide LookUtxos;
      ghost var s0, t := store, Tables(deltaRows, undoNew, undoSpent);
      var h: int := top;
      while h >= from
        invariant h <= top && utxoCursor == old(utxoCursor)
        invariant utxoCursor.Some? ==>
                    UndoStoreDown(store, t, if h < utxoCursor.value then h else utxoCursor.value, from)
                    == UndoStoreDown(s0, t, utxoCursor.value, from)
        invariant utxoCursor.None? ==> store == s0
      {
        if utxoCursor.Some? && h <= utxoCursor.value {
          RollbackUtxoOneBlock(h);
        }
        h := h - 1;
      }
      if utxoCursor.Some? { utxoCursor := Some(RollbackTo(from)); }
    }

    /** Delete the table rows from height `from` on. */
    method TruncateTables(from: nat)
      modifies this`rows, this`deltaRows, this`undoNew, this`undoSpent, this`committed
      ensures rows == RowsBelow(old(rows), from) && committed == HeightsBelow(old(committed), from)
      ensures Tables(deltaRows, undoNew, undoSpent) ==
              TablesBelow(Tables(old(deltaRows), old(undoNew), old(undoSpent)), from)
    {
      hide Below, RowsBelow;
      rows := RowsBelow(rows, from);
      deltaRows, undoNew, undoSpent := Below(deltaRows, from), Below(undoNew, from), Below(undoSpent, from);
      committed := HeightsBelow(committed, from);
    }

    /** Compare the last `lookback` committed blocks (0 means 100), not below floorHeight, with the node, and
        roll back from the lowest height where they differ. When the progress markers agree, a lookback of at
        most RETENTION + 1 is never refused. */
    method RollbackCheckWithFloor(lookback: nat, floorHeight: nat, node: map<nat, string>, db: map<nat, string>)
      returns (found: Option<nat>, ok: bool)
      modifies this`store, this`balances, this`totals, this`stakers, this`rows, this`deltaRows, this`undoNew,
        this`undoSpent
      modifies this`utxoCursor, this`balanceCursor, this`committed
      ensures found == LowestDifference(Latest(old(committed)), lookback, floorHeight, node, db)
      ensures IsFirstDifference(old(committed), lookback, floorHeight, node, db, found)
      ensures found.Some? ==> ok == !RollbackRefused(old(Persistent()), found.value)
      ensures Persistent() == if found.Some? then RollbackStep(old(Persistent()), found.value) else old(Persistent())
      ensures found.None? || (CursorsAgree(old(Persistent())) && lookback <= RETENTION + 1) ==> ok
    {
      hide RollbackStep, LowestFrom, IsFirstDifference;
      found, ok := None, true;
      LowestIsFirstDifference(committed, lookback, floorHeight, node, db);
      var latest := GetLatestCommittedHeight();
      LatestIs(committed, latest);
      if latest.None? { return; }
      ghost var goal := LowestDifference(latest, lookback, floorHeight, node, db);
      var h := CheckStart(latest.value, lookback, floorHeight);
      while h <= latest.value
        invariant goal == LowestFrom(h, latest.value, node, db) && h >= CheckStart(latest.value, lookback, floorHeight)
        invariant Persistent() == old(Persistent())
      {
        LowestFromStep(h, latest.value, node, db);
        if Differs(node, db, h) {
          found := Some(h);
          if CursorsAgree(Persistent()) && lookback <= RETENTION + 1 {
            NotRefused(Persistent(), latest.value, h);
          }
          ok := RollbackIndexerFromHeight(h);
          return;
        }
        h := h + 1;
      }
      LowestFromStep(h, latest.value, node, db);
    }

    /** The height check before every round: all three markers missing, or all equal. Returns the next height. */
    method EnsureIndexerDataConsistency() returns (next: Option<nat>)
      ensures next.Some? <==> CursorsAgree(Persistent())
      ensures next.Some? ==> next.value == if committed == {} then 0 else Latest(committed).value + 1
    {
      var latest := GetLatestCommittedHeight();
      LatestIs(committed, latest);
      if latest.Some? {
        AgreedMarkersIff(Persistent(), latest.value);
      }
      if latest.None? && utxoCursor.None? && balanceCursor.None? {
        return Some(0);
      }
      if latest.None? || utxoCursor.None? || balanceCursor.None? || utxoCursor != latest || balanceCursor != latest {
        return None;
      }
      return Some(latest.value + 1);
    }

    /** One round of the main loop: check the markers, roll back what the node no longer has, reload the
        cache, and index what the node offers from the next height on. Rounds can follow each other, with restarts
        of the process in between. A stake address determines its binding. */
    method Round(lookback: nat, startHeight: nat, node: map<nat, string>, db: map<nat, string>,
                 offer: nat -> seq<Block>,
                 ghost derive: Address -> Binding)
      returns (outcome: RoundOutcome)
      requires Ready() && RowsDerived(rows, derive)
      requires NoGenesisBinds(0, offer(0)) && forall n :: BlocksDerived(offer(n), derive)
      modifies this
      ensures outcome.Inconsistent? <==> !CursorsAgree(old(Persistent()))
      ensures outcome.Refused? ==> lookback > RETENTION + 1
      ensures !outcome.Done? ==> Persistent() == old(Persistent())
      ensures outcome.Done? ==>
                && outcome.from == LowestDifference(Latest(old(committed)), lookback, startHeight, node, db)
                && outcome.next == NextHeight(old(committed), outcome.from, startHeight)
                && IsFirstDifference(old(committed), lookback, startHeight, node, db, outcome.from)
                && IsNext(old(committed), outcome.from, startHeight, outcome.next)
                && Persistent() == AfterRound(old(Persistent()), senders, outcome.from, outcome.next,
                                              offer(outcome.next))
      ensures Ready() && RowsDerived(rows, derive)
    {
      hide RolledBack, SubmitBatch, BindsOf, RowsDerived, BlocksDerived, CursorsAgree, LowestDifference, NextHeight;
      hide RowsCommitted, HeightsWithin, Above, AtMost, NoGenesisBinds, IsFirstDifference, IsNext;
      ghost var before := Persistent();
      LowestIsFirstDifference(committed, lookback, startHeight, node, db);
      outcome := CheckAndRollBack(lookback, startHeight, node, db, derive);
      if outcome.Done? {
        OfferWithoutGenesis(outcome.next, offer(0), offer(outcome.next));
        ReloadAndIndex(outcome.next, offer(outcome.next), derive);
        RoundIsRolledBack(before, senders, outcome.from, outcome.next, offer(outcome.next));
        NextHeightIsNext(before.committed, outcome.from, startHeight);
      }
    }

    /** The first half of a round: everything is ready for the reload up to the next height. */
    method CheckAndRollBack(lookback: nat, startHeight: nat, node: map<nat, string>, db: map<nat, string>,
                            ghost derive: Address -> Binding)
      returns (outcome: RoundOutcome)
      requires Ready() && RowsDerived(rows, derive)
      modifies this`store, this`balances, this`totals, this`stakers, this`rows, this`deltaRows, this`undoNew
      modifies this`undoSpent, this`utxoCursor, this`balanceCursor, this`committed
      ensures outcome.Inconsistent? <==> !CursorsAgree(old(Persistent()))
      ensures outcome.Refused? ==> lookback > RETENTION + 1
      ensures !outcome.Done? ==> Persistent() == old(Persistent())
      ensures outcome.Done? ==>
                && outcome.from == LowestDifference(Latest(old(committed)), lookback, startHeight, node, db)
                && outcome.next == NextHeight(old(committed), outcome.from, startHeight)
                && Persistent() == RolledBack(old(Persistent()), outcome.from)
                && RowsCommitted(rows, committed) && RowsDerived(rows, derive)
                && HeightsWithin(rows, Before(outcome.next)) && Above(outcome.next, committed)
                && Reloadable(bound, rows, loadedHeight, Before(outcome.next))
    {
      hide RollbackStep, BindsOf, RowsDerived, CursorsAgree, LowestDifference;
      hide RowsCommitted, HeightsWithin, Above, AtMost;
      ghost var before := Persistent();
      var consistent := EnsureIndexerDataConsistency();
      if consistent.None? {
        return Inconsistent;
      }
      var next := AtLeast(consistent.value, startHeight);
      var from, ok := RollbackCheckWithFloor(lookback, startHeight, node, db);
      if !ok {
        StepRefused(before, from.value);
        return Refused;
      }
      if from.Some? {
        next := AtLeast(from.value, startHeight);
      }
      DifferenceInRange(before.committed, lookback, startHeight, node, db);
      ReadyToReload(before, bound, loadedHeight, from, startHeight, derive);
      return Done(from, next);
    }

    /** Reload the cache up to the height before the next one, then index what is offered. */
    method ReloadAndIndex(next: nat, blocks: seq<Block>, ghost derive: Address -> Binding)
      requires Idle() && RowsCommitted(rows, committed) && RowsDerived(rows, derive)
      requires HeightsWithin(rows, Before(next)) && Above(next, committed)
      requires Reloadable(bound, rows, loadedHeight, Before(next))
      requires NoGenesisBinds(next, blocks) && BlocksDerived(blocks, derive)
      modifies this
      ensures Persistent() == if blocks ==
              [] then old(Persistent()) else SubmitBatch(old(Persistent()), senders, next, blocks)
      ensures Ready() && RowsDerived(rows, derive)
    {
      hide SubmitBatch, BindsOf, Reloaded, RowsDerived, BlocksDerived, ConsistentBinds;
      hide RowsCommitted, HeightsWithin, Above, AtMost, NoGenesisBinds;
      ReloadGivesTable(bound, rows, loadedHeight, Before(next));
      LoadStakeBindingsToHeight(Before(next));
      ReadyAgain(committed, next);
      if blocks != [] {
        DerivedIsConsistent(rows, blocks, derive);
        DerivedStays(rows, next, blocks, derive);
        SubmitRows(Persistent(), senders, next, blocks);
        IndexBlocks(next, blocks);
      }
    }
  }

  /** What a round did: rolled back from a height or not, then indexed what is offered from `next` on. */
  datatype RoundOutcome = Inconsistent | Refused | Done(from: Option<nat>, next: nat)

  function Higher(m: nat, cursor: Option<nat>): nat {
    if cursor.Some? && cursor.value > m then cursor.value else m
  }
}
