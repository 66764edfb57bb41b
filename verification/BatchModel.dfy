/** What one block does to the batch-global maps, phase by phase, as functions of values.
    The imperative phases in module Indexer are proved equal to these. */
module BatchModel {
  import opened Maps
  import opened Ledger

  /** The process-wide maps that collect a batch until it is submitted. */
  datatype Batch = Batch(gNew: Utxos, gSpent: Utxos, gDel: set<Outpoint>, gDelta: map<Address, int>)

  const EMPTY_BATCH: Batch := Batch(map[], map[], {}, map[])

  /** The maps that belong to one block while it is parsed. */
  datatype Parsed = Parsed(spentKeys: set<Outpoint>, spentData: Utxos, newData: Utxos, deltas: map<Address, int>)

  /** What is kept of a finished block: its balance deltas and its two undo maps. */
  datatype Artifact = Artifact(deltas: map<Address, int>, undoNew: Utxos, undoSpent: Utxos)

  function FirstParse(b: Block): Parsed {
    Parsed(b.spent, map[], b.outs, map[])
  }

  // ---- per-address accumulation ----

  function Addresses(u: Utxos): set<Address> {
    set k | k in u && u[k].address.Some? :: u[k].address.value
  }

  /** Adds v to the entry of a; an entry that becomes zero disappears. */
  function Bump(d: map<Address, int>, a: Address, v: int): map<Address, int> {
    if v == 0 then d else if Get(d, a) + v == 0 then d - {a} else d[a := Get(d, a) + v]
  }

  lemma BumpGet(d: map<Address, int>, a: Address, v: int)
    ensures forall x :: Get(Bump(d, a, v), x) == Get(d, x) + if x == a then v else 0
    ensures NoZero(d) ==> NoZero(Bump(d, a, v))
  {
  }

  /** d with the value of every output in u added (sign 1) or taken away (sign -1). */
  ghost function Accumulate(d: map<Address, int>, u: Utxos, sign: int): map<Address, int> {
    map a | a in d.Keys + Addresses(u) && Get(d, a) + sign * AddrSum(u, a) != 0 :: Get(d, a) + sign * AddrSum(u, a)
  }

  lemma AccumulateGet(d: map<Address, int>, u: Utxos, sign: int)
    ensures NoZero(Accumulate(d, u, sign))
    ensures forall a :: Get(Accumulate(d, u, sign), a) == Get(d, a) + sign * AddrSum(u, a)
  {
    forall a ensures Get(Accumulate(d, u, sign), a) == Get(d, a) + sign * AddrSum(u, a) {
      AddrSumNonNegative(u, a);
    }
  }

  lemma GetExtensional<K(!new)>(m: map<K, int>, n: map<K, int>)
    requires NoZero(m) && NoZero(n)
    requires forall k :: Get(m, k) == Get(n, k)
    ensures m == n
  {
    forall k ensures k in m <==> k in n {
      assert Get(m, k) == Get(n, k);
    }
    forall k | k in m ensures m[k] == n[k] {
      assert Get(m, k) == Get(n, k);
    }
  }

  lemma AccumulateEmpty(d: map<Address, int>, sign: int)
    requires NoZero(d)
    ensures Accumulate(d, map[], sign) == d
  {
    var empty: Utxos := map[];
    AccumulateGet(d, empty, sign);
    forall a ensures Get(Accumulate(d, empty, sign), a) == Get(d, a) {
      AddrSumNonNegative(empty, a);
    }
    GetExtensional(Accumulate(d, empty, sign), d);
  }

  /** One more output: the accumulated map is bumped at that output's address. */
  lemma AccumulateInsert(d: map<Address, int>, u: Utxos, k: Outpoint, t: TxoData, sign: int)
    requires k !in u && t.address.Some? && (sign == 1 || sign == -1)
    ensures Accumulate(d, u[k := t], sign) == Bump(Accumulate(d, u, sign), t.address.value, sign * t.satoshi)
  {
    var m := Accumulate(d, u[k := t], sign);
    var n := Bump(Accumulate(d, u, sign), t.address.value, sign * t.satoshi);
    AccumulateGet(d, u[k := t], sign);
    AccumulateGet(d, u, sign);
    BumpGet(Accumulate(d, u, sign), t.address.value, sign * t.satoshi);
    forall a ensures Get(m, a) == Get(n, a) {
      AddrSumInsert(u, k, t, a);
      assert sign * AddrSum(u[k := t], a) == sign * AddrSum(u, a) + sign * Share(t, a);
    }
    GetExtensional(m, n);
  }

  // ---- phase 1: resolve what the block spends ----

  /** Tracked spent outputs that the block itself created. */
  function SpentInBlock(p: Parsed, tracked: set<Address>): Utxos {
    TrackedOnly(Only(p.newData, p.spentKeys), tracked)
  }

  /** Tracked spent outputs created earlier in the batch. */
  function SpentInBatch(p: Parsed, g: Batch, tracked: set<Address>): Utxos {
    TrackedOnly(Only(g.gNew, p.spentKeys - p.newData.Keys), tracked)
  }

  /** Tracked spent outputs that only the persistent store knows. */
  function SpentInStore(p: Parsed, g: Batch, store: Utxos, tracked: set<Address>): Utxos {
    TrackedOnly(Only(store, p.spentKeys - p.newData.Keys - g.gNew.Keys), tracked)
  }

  ghost function SpendParsed(p: Parsed, g: Batch, store: Utxos, tracked: set<Address>): Parsed {
    var inBatch, inStore := SpentInBatch(p, g, tracked), SpentInStore(p, g, store, tracked);
    Parsed(p.spentKeys,
           p.spentData + SpentInBlock(p, tracked) + inBatch + inStore,
           p.newData - p.spentKeys,
           Accumulate(Accumulate(p.deltas, inBatch, -1), inStore, -1))
  }

  ghost function SpendBatch(p: Parsed, g: Batch, store: Utxos, tracked: set<Address>): Batch {
    var inBatch, inStore := SpentInBatch(p, g, tracked), SpentInStore(p, g, store, tracked);
    Batch(g.gNew - (p.spentKeys - p.newData.Keys),
          g.gSpent + inStore,
          g.gDel + inStore.Keys,
          Accumulate(Accumulate(g.gDelta, inBatch, -1), inStore, -1))
  }

  // ---- phase 2: publish what the block creates, with the tracked set grown meanwhile ----

  ghost function FinishParsed(p: Parsed, tracked: set<Address>): Parsed {
    Parsed(p.spentKeys,
           TrackedOnly(p.spentData, tracked),
           TrackedOnly(p.newData, tracked),
           Accumulate(p.deltas, TrackedOnly(p.newData, tracked), 1))
  }

  ghost function FinishBatch(p: Parsed, g: Batch, tracked: set<Address>): Batch {
    g.(gNew := g.gNew + TrackedOnly(p.newData, tracked),
       gDelta := Accumulate(g.gDelta, TrackedOnly(p.newData, tracked), 1))
  }

  // ---- both phases for a block ----

  ghost function ParseBlock(g: Batch, b: Block, store: Utxos, tracked: set<Address>): (Batch, Artifact) {
    var p := FirstParse(b);
    var p1 := SpendParsed(p, g, store, tracked);
    var g1 := SpendBatch(p, g, store, tracked);
    var tracked' := tracked + b.binds.Keys;
    var p2 := FinishParsed(p1, tracked');
    (FinishBatch(p1, g1, tracked'), Artifact(p2.deltas, p2.newData, p2.spentData))
  }

  /** Parsing a list of blocks into one batch. */
  ghost function ParseBlocks(blocks: seq<Block>, store: Utxos, tracked: set<Address>): (r: (Batch, seq<Artifact>))
    ensures |r.1| == |blocks|
  {
    if blocks == [] then (EMPTY_BATCH, []) else
      var n := |blocks| - 1;
      var (g, arts) := ParseBlocks(blocks[..n], store, tracked);
      var (g', art) := ParseBlock(g, blocks[n], store, tracked + BoundAt(blocks[..n]));
      (g', arts + [art])
  }

  /** The store after the batch: every new output is written only if its key is absent,
      then every key marked for deletion is removed. */
  function CommitStore(store: Utxos, g: Batch): Utxos {
    (g.gNew + store) - g.gDel
  }

  /** The amount by which the UTXO counter is incremented. */
  function CountIncrement(g: Batch): int {
    |g.gNew| - |g.gSpent|
  }
}
