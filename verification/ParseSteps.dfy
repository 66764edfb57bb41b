/** The loops over a block's spent outpoints and new outputs, one iteration at a time, and why any
    iteration order ends in the closed form of module BatchModel. */
module ParseSteps {
  import opened Maps
  import opened Ledger
  import opened BatchModel

  /** The variables the in-memory loop over the spent outpoints changes. */
  datatype Memory = Memory(spentData: Utxos, newData: Utxos, deltas: map<Address, int>,
                           gNew: Utxos, gDelta: map<Address, int>, lookups: set<Outpoint>)

  /** One iteration. */
  function MemoryStep(m: Memory, k: Outpoint, tracked: set<Address>): Memory {
    if k in m.newData then
      var d := m.newData[k];
      m.(newData := m.newData - {k},
         spentData := if IsTracked(d, tracked) then m.spentData[k := d] else m.spentData)
    else if k in m.gNew then
      var d := m.gNew[k];
      if IsTracked(d, tracked) then
        m.(gNew := m.gNew - {k}, spentData := m.spentData[k := d],
           deltas := Bump(m.deltas, d.address.value, -1 * d.satoshi),
           gDelta := Bump(m.gDelta, d.address.value, -1 * d.satoshi))
      else
        m.(gNew := m.gNew - {k})
    else
      m.(lookups := m.lookups + {k})
  }

  /** After the iterations for the outpoints in `done`, in whatever order. */
  ghost function MemoryAfter(p: Parsed, g: Batch, tracked: set<Address>, done: set<Outpoint>): Memory {
    var inBatch := TrackedOnly(Only(g.gNew, done - p.newData.Keys), tracked);
    Memory(TrackedOnly(Only(p.newData, done), tracked) + inBatch,
           p.newData - done,
           Accumulate(p.deltas, inBatch, -1),
           g.gNew - (done - p.newData.Keys),
           Accumulate(g.gDelta, inBatch, -1),
           done - p.newData.Keys - g.gNew.Keys)
  }

  lemma SelectMore(u: Utxos, s: set<Outpoint>, k: Outpoint, tracked: set<Address>)
    requires k !in s
    ensures TrackedOnly(Only(u, s + {k}), tracked)
            == if k in u && IsTracked(u[k], tracked)
               then TrackedOnly(Only(u, s), tracked)[k := u[k]] else TrackedOnly(Only(u, s), tracked)
    ensures k !in TrackedOnly(Only(u, s), tracked)
  {
    if k in u && IsTracked(u[k], tracked) {
      assert TrackedOnly(Only(u, s + {k}), tracked) == TrackedOnly(Only(u, s), tracked)[k := u[k]];
    } else {
      assert TrackedOnly(Only(u, s + {k}), tracked) == TrackedOnly(Only(u, s), tracked);
    }
  }

  lemma UpdateLeft<K, V>(x: map<K, V>, y: map<K, V>, k: K, v: V)
    requires k !in y
    ensures x[k := v] + y == (x + y)[k := v]
  {
  }

  lemma UpdateRight<K, V>(x: map<K, V>, y: map<K, V>, k: K, v: V)
    ensures x + y[k := v] == (x + y)[k := v]
  {
  }

  lemma MemoryStepInBlock(p: Parsed, g: Batch, tracked: set<Address>, done: set<Outpoint>, k: Outpoint)
    requires k !in done && k in p.newData
    ensures MemoryStep(MemoryAfter(p, g, tracked, done), k, tracked) == MemoryAfter(p, g, tracked, done + {k})
  {
    hide TrackedOnly, Only, Accumulate, Bump, IsTracked;
    var fromBatch := done - p.newData.Keys;
    assert (done + {k}) - p.newData.Keys == fromBatch;
    assert p.newData - done - {k} == p.newData - (done + {k});
    SelectMore(p.newData, done, k, tracked);
    var x, y := TrackedOnly(Only(p.newData, done), tracked), TrackedOnly(Only(g.gNew, fromBatch), tracked);
    SelectedKeys(g.gNew, fromBatch, tracked);
    if IsTracked(p.newData[k], tracked) {
      UpdateLeft(x, y, k, p.newData[k]);
    }
  }

  lemma SelectedKeys(u: Utxos, s: set<Outpoint>, tracked: set<Address>)
    ensures TrackedOnly(Only(u, s), tracked).Keys <= s
  {
  }

  lemma MemoryStepInBatch(p: Parsed, g: Batch, tracked: set<Address>, done: set<Outpoint>, k: Outpoint)
    requires k !in done && k !in p.newData && k in g.gNew
    ensures MemoryStep(MemoryAfter(p, g, tracked, done), k, tracked) == MemoryAfter(p, g, tracked, done + {k})
  {
    hide TrackedOnly, Only, Accumulate, Bump;
    var fromBatch := done - p.newData.Keys;
    assert (done + {k}) - p.newData.Keys == fromBatch + {k};
    assert p.newData - (done + {k}) == p.newData - done;
    assert g.gNew - fromBatch - {k} == g.gNew - (fromBatch + {k});
    assert (done + {k}) - p.newData.Keys - g.gNew.Keys == done - p.newData.Keys - g.gNew.Keys;
    SelectMore(p.newData, done, k, tracked);
    SelectMore(g.gNew, fromBatch, k, tracked);
    var x, y := TrackedOnly(Only(p.newData, done), tracked), TrackedOnly(Only(g.gNew, fromBatch), tracked);
    if IsTracked(g.gNew[k], tracked) {
      UpdateRight(x, y, k, g.gNew[k]);
      AccumulateInsert(p.deltas, y, k, g.gNew[k], -1);
      AccumulateInsert(g.gDelta, y, k, g.gNew[k], -1);
    }
  }

  lemma MemoryStepUnknown(p: Parsed, g: Batch, tracked: set<Address>, done: set<Outpoint>, k: Outpoint)
    requires k !in done && k !in p.newData && k !in g.gNew
    ensures MemoryStep(MemoryAfter(p, g, tracked, done), k, tracked) == MemoryAfter(p, g, tracked, done + {k})
  {
    hide TrackedOnly, Only, Accumulate, Bump;
    var fromBatch := done - p.newData.Keys;
    assert (done + {k}) - p.newData.Keys == fromBatch + {k};
    assert p.newData - (done + {k}) == p.newData - done;
    assert g.gNew - (fromBatch + {k}) == g.gNew - fromBatch;
    assert (done + {k}) - p.newData.Keys - g.gNew.Keys == (done - p.newData.Keys - g.gNew.Keys) + {k};
    SelectMore(p.newData, done, k, tracked);
    SelectMore(g.gNew, fromBatch, k, tracked);
  }

  /** The iteration order does not matter: one more outpoint in any state reached by `done`. */
  lemma MemoryStepAny(p: Parsed, g: Batch, tracked: set<Address>, done: set<Outpoint>, k: Outpoint)
    requires k !in done
    ensures MemoryStep(MemoryAfter(p, g, tracked, done), k, tracked) == MemoryAfter(p, g, tracked, done + {k})
  {
    hide MemoryStep, MemoryAfter;
    if k in p.newData {
      MemoryStepInBlock(p, g, tracked, done, k);
    } else if k in g.gNew {
      MemoryStepInBatch(p, g, tracked, done, k);
    } else {
      MemoryStepUnknown(p, g, tracked, done, k);
    }
  }

  lemma MemoryStart(p: Parsed, g: Batch, tracked: set<Address>)
    requires NoZero(p.deltas) && NoZero(g.gDelta) && p.spentData == map[]
    ensures MemoryAfter(p, g, tracked, {}) == Memory(map[], p.newData, p.deltas, g.gNew, g.gDelta, {})
  {
    hide Accumulate;
    AccumulateEmpty(p.deltas, -1);
    AccumulateEmpty(g.gDelta, -1);
    assert TrackedOnly(Only(p.newData, {}), tracked) == map[];
    assert TrackedOnly(Only(g.gNew, {} - p.newData.Keys), tracked) == map[];
    assert p.newData - {} == p.newData;
    assert g.gNew - ({} - p.newData.Keys) == g.gNew;
  }

  // ---- lookups in the store ----

  datatype Looked = Looked(spentData: Utxos, deltas: map<Address, int>, gSpent: Utxos, gDel: set<Outpoint>,
                           gDelta: map<Address, int>)

  function LookStep(m: Looked, k: Outpoint, store: Utxos, tracked: set<Address>): Looked {
    if k in store && IsTracked(store[k], tracked) then
      var d := store[k];
      Looked(m.spentData[k := d], Bump(m.deltas, d.address.value, -1 * d.satoshi), m.gSpent[k := d], m.gDel + {k},
             Bump(m.gDelta, d.address.value, -1 * d.satoshi))
    else m
  }

  ghost function LookAfter(m: Looked, store: Utxos, tracked: set<Address>, done: set<Outpoint>): Looked {
    var found := TrackedOnly(Only(store, done), tracked);
    Looked(m.spentData + found, Accumulate(m.deltas, found, -1), m.gSpent + found, m.gDel + found.Keys,
           Accumulate(m.gDelta, found, -1))
  }

  lemma LookStepAny(m: Looked, store: Utxos, tracked: set<Address>, done: set<Outpoint>, k: Outpoint)
    requires k !in done
    ensures LookStep(LookAfter(m, store, tracked, done), k, store, tracked) == LookAfter(m, store, tracked, done + {k})
  {
    hide TrackedOnly, Only, Accumulate, Bump;
    SelectMore(store, done, k, tracked);
    if k in store && IsTracked(store[k], tracked) {
      var found := TrackedOnly(Only(store, done), tracked);
      UpdateRight(m.spentData, found, k, store[k]);
      UpdateRight(m.gSpent, found, k, store[k]);
      AccumulateInsert(m.deltas, found, k, store[k], -1);
      AccumulateInsert(m.gDelta, found, k, store[k], -1);
      assert m.gDel + found[k := store[k]].Keys == m.gDel + found.Keys + {k};
    }
  }

  lemma LookStart(m: Looked, store: Utxos, tracked: set<Address>)
    requires NoZero(m.deltas) && NoZero(m.gDelta)
    ensures LookAfter(m, store, tracked, {}) == m
  {
    hide Accumulate;
    AccumulateEmpty(m.deltas, -1);
    AccumulateEmpty(m.gDelta, -1);
    assert TrackedOnly(Only(store, {}), tracked) == map[];
    assert m.spentData + map[] == m.spentData && m.gSpent + map[] == m.gSpent;
  }

  // ---- publishing the new outputs ----

  datatype Published = Published(filtered: Utxos, deltas: map<Address, int>, gNew: Utxos, gDelta: map<Address, int>)

  function PublishStep(m: Published, k: Outpoint, d: TxoData, tracked: set<Address>): Published {
    if IsTracked(d, tracked) then
      Published(m.filtered[k := d], Bump(m.deltas, d.address.value, d.satoshi), m.gNew[k := d],
                Bump(m.gDelta, d.address.value, d.satoshi))
    else m
  }

  ghost function PublishAfter(m: Published, news: Utxos, tracked: set<Address>, done: set<Outpoint>): Published {
    var kept := TrackedOnly(Only(news, done), tracked);
    Published(m.filtered + kept, Accumulate(m.deltas, kept, 1), m.gNew + kept, Accumulate(m.gDelta, kept, 1))
  }

  lemma PublishStepAny(m: Published, news: Utxos, tracked: set<Address>, done: set<Outpoint>, k: Outpoint)
    requires k !in done && k in news
    ensures PublishStep(PublishAfter(m, news, tracked, done), k, news[k], tracked) ==
            PublishAfter(m, news, tracked, done + {k})
  {
    hide TrackedOnly, Only, Accumulate, Bump;
    SelectMore(news, done, k, tracked);
    if IsTracked(news[k], tracked) {
      var kept := TrackedOnly(Only(news, done), tracked);
      UpdateRight(m.filtered, kept, k, news[k]);
      UpdateRight(m.gNew, kept, k, news[k]);
      AccumulateInsert(m.deltas, kept, k, news[k], 1);
      AccumulateInsert(m.gDelta, kept, k, news[k], 1);
    }
  }

  lemma PublishStart(m: Published, news: Utxos, tracked: set<Address>)
    requires NoZero(m.deltas) && NoZero(m.gDelta)
    ensures PublishAfter(m, news, tracked, {}) == m
  {
    hide Accumulate;
    AccumulateEmpty(m.deltas, 1);
    AccumulateEmpty(m.gDelta, 1);
    assert TrackedOnly(Only(news, {}), tracked) == map[];
    assert m.filtered + map[] == m.filtered && m.gNew + map[] == m.gNew;
  }

  // ---- the closed forms at the end of the loops ----

  lemma MemoryEnd(p: Parsed, g: Batch, tracked: set<Address>)
    requires p.spentData == map[]
    ensures
      var m := MemoryAfter(p, g, tracked, p.spentKeys);
      && m.newData == p.newData - p.spentKeys && m.gNew == g.gNew - (p.spentKeys - p.newData.Keys)
      && m.lookups == p.spentKeys - p.newData.Keys - g.gNew.Keys
      && NoZero(m.deltas) && NoZero(m.gDelta)
  {
    hide Accumulate;
    var inBatch := TrackedOnly(Only(g.gNew, p.spentKeys - p.newData.Keys), tracked);
    AccumulateGet(p.deltas, inBatch, -1);
    AccumulateGet(g.gDelta, inBatch, -1);
  }

  /** Both loops together compute the first phase of BatchModel. */
  lemma SpendClosedForm(p: Parsed, g: Batch, store: Utxos, tracked: set<Address>)
    requires p.spentData == map[]
    ensures
      var m := MemoryAfter(p, g, tracked, p.spentKeys);
      var l := LookAfter(Looked(m.spentData, m.deltas, g.gSpent, g.gDel, m.gDelta), store, tracked, m.lookups);
      && SpendParsed(p, g, store, tracked) == Parsed(p.spentKeys, l.spentData, m.newData, l.deltas)
      && SpendBatch(p, g, store, tracked) == Batch(m.gNew, l.gSpent, l.gDel, l.gDelta)
      && NoZero(l.deltas) && NoZero(l.gDelta)
  {
    hide Accumulate, TrackedOnly, Only;
    var inBlock, inBatch := SpentInBlock(p, tracked), SpentInBatch(p, g, tracked);
    var inStore := SpentInStore(p, g, store, tracked);
    NothingPlus(inBlock);
    AccumulateGet(Accumulate(p.deltas, inBatch, -1), inStore, -1);
    AccumulateGet(Accumulate(g.gDelta, inBatch, -1), inStore, -1);
  }

  lemma NothingPlus(u: Utxos)
    ensures map[] + u == u
  {
  }

  lemma FinishClosedForm(m: Published, p: Parsed, tracked: set<Address>)
    requires m.filtered == map[]
    ensures
      var l := PublishAfter(m, p.newData, tracked, p.newData.Keys);
      && l.filtered == TrackedOnly(p.newData, tracked)
      && l.deltas == Accumulate(m.deltas, TrackedOnly(p.newData, tracked), 1)
      && l.gNew == m.gNew + TrackedOnly(p.newData, tracked)
      && l.gDelta == Accumulate(m.gDelta, TrackedOnly(p.newData, tracked), 1)
      && NoZero(l.gDelta)
  {
    hide Accumulate;
    assert Only(p.newData, p.newData.Keys) == p.newData;
    NothingPlus(TrackedOnly(p.newData, tracked));
    AccumulateGet(m.gDelta, TrackedOnly(p.newData, tracked), 1);
  }

  lemma FilterIsTrackedOnly(u: Utxos, f: Utxos, tracked: set<Address>)
    requires forall k :: k in f <==> k in u && IsTracked(u[k], tracked)
    requires forall k :: k in f ==> f[k] == u[k]
    ensures f == TrackedOnly(u, tracked)
  {
  }
}
