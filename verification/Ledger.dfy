/** Blocks as the indexer sees them, and the reference semantics: a plain per-block fold
    over the chain. Nothing here knows about batches, caches, undo rows or commits. */
module Ledger {
  import opened Maps

  datatype Outpoint = Outpoint(txid: string, vout: nat)
  datatype Address = Address(text: string)
  datatype IndexerId = IndexerId(text: string)

  /** A stored output. `address` is what the address decoder returns for its script;
      None when the script has no address. */
  datatype TxoData = TxoData(blockHeight: nat, txIdx: nat, satoshi: nat, address: Option<Address>)

  type Utxos = map<Outpoint, TxoData>

  datatype Binding = Binding(indexer: IndexerId, user: Address)

  /** One parsed block: the outpoints its non-coinbase inputs consume, the spendable outputs
      it creates, and the stake bindings its protocol transactions add. */
  datatype Block = Block(spent: set<Outpoint>, outs: Utxos, binds: map<Address, Binding>)

  predicate IsTracked(d: TxoData, tracked: set<Address>) {
    d.address.Some? && d.address.value in tracked
  }

  function TrackedOnly(u: Utxos, tracked: set<Address>): Utxos {
    map k | k in u && IsTracked(u[k], tracked) :: u[k]
  }

  predicate AllTracked(u: Utxos, tracked: set<Address>) {
    forall k :: k in u ==> IsTracked(u[k], tracked)
  }

  // ---- value held by an address ----

  function Worth(u: Utxos, a: Address): map<Outpoint, int> {
    map k | k in u && u[k].address == Some(a) :: u[k].satoshi
  }

  ghost function AddrSum(u: Utxos, a: Address): int {
    Sum(Worth(u, a))
  }

  function Share(d: TxoData, a: Address): int {
    if d.address == Some(a) then d.satoshi else 0
  }

  lemma AddrSumInsert(u: Utxos, k: Outpoint, d: TxoData, a: Address)
    requires k !in u
    ensures AddrSum(u[k := d], a) == AddrSum(u, a) + Share(d, a)
  {
    if d.address == Some(a) {
      assert Worth(u[k := d], a) == Worth(u, a)[k := d.satoshi];
      SumUpdate(Worth(u, a), k, d.satoshi);
    } else {
      assert Worth(u[k := d], a) == Worth(u, a);
    }
  }

  lemma AddrSumUnion(u: Utxos, v: Utxos, a: Address)
    requires u.Keys !! v.Keys
    ensures AddrSum(u + v, a) == AddrSum(u, a) + AddrSum(v, a)
  {
    assert Worth(u + v, a) == Worth(u, a) + Worth(v, a);
    SumUnion(Worth(u, a), Worth(v, a));
  }

  lemma AddrSumSplit(u: Utxos, s: set<Outpoint>, a: Address)
    ensures AddrSum(u, a) == AddrSum(Only(u, s), a) + AddrSum(u - s, a)
  {
    AddrSumUnion(Only(u, s), u - s, a);
    assert Only(u, s) + (u - s) == u;
  }

  lemma AddrSumNonNegative(u: Utxos, a: Address)
    ensures AddrSum(u, a) >= 0
    ensures (forall k :: k in u ==> u[k].address != Some(a)) ==> AddrSum(u, a) == 0
  {
    SumNonNegative(Worth(u, a));
  }

  // ---- the reference fold ----

  /** Outputs of the block that survive it and belong to a tracked address. */
  function Kept(b: Block, tracked: set<Address>): Utxos {
    map k | k in b.outs && k !in b.spent && IsTracked(b.outs[k], tracked) :: b.outs[k]
  }

  /** Tracked outputs the block both creates and spends. */
  function InBlock(b: Block, tracked: set<Address>): Utxos {
    map k | k in b.outs && k in b.spent && IsTracked(b.outs[k], tracked) :: b.outs[k]
  }

  function NextStore(store: Utxos, b: Block, tracked: set<Address>): Utxos {
    (store - b.spent) + Kept(b, tracked)
  }

  function BoundAt(c: seq<Block>): set<Address> {
    if c == [] then {} else BoundAt(c[..|c| - 1]) + c[|c| - 1].binds.Keys
  }

  function TrackedAt(c: seq<Block>, senders: set<Address>): set<Address> {
    BoundAt(c) + senders
  }

  /** The tracked UTXO set after the whole chain. An output counts when its address is tracked
      once the bindings of its own block are known. */
  function StoreAt(c: seq<Block>, senders: set<Address>): Utxos {
    if c == [] then map[] else
      NextStore(StoreAt(c[..|c| - 1], senders), c[|c| - 1], TrackedAt(c, senders))
  }

  // ---- chain validity ----

  /** Bitcoin's rule between an earlier and a later block: no outpoint is created twice,
      none is spent twice, and none is created after it was spent. */
  predicate Follows(b: Block, later: Block) {
    && b.outs.Keys !! later.outs.Keys
    && b.spent !! later.spent
    && b.spent !! later.outs.Keys
  }

  ghost predicate ValidChain(c: seq<Block>) {
    forall i, j :: 0 <= i < j < |c| ==> Follows(c[i], c[j])
  }

  /** The stake address determines indexer and user: it is derived from them by hashing. */
  ghost predicate ConsistentBinds(c: seq<Block>) {
    forall i, j, a :: 0 <= i < |c| && 0 <= j < |c| && a in c[i].binds && a in c[j].binds ==>
                        c[i].binds[a] == c[j].binds[a]
  }

  lemma ValidPrefix(c: seq<Block>, n: nat)
    requires ValidChain(c) && n <= |c|
    ensures ValidChain(c[..n])
  {
  }

  /** The addresses tracked once block i is finished. */
  function TrackedThrough(c: seq<Block>, senders: set<Address>, i: nat): set<Address>
    requires i < |c|
  {
    TrackedAt(c[..i + 1], senders)
  }

  /** A direct description of membership that mentions no fold. */
  ghost predicate LiveTracked(c: seq<Block>, senders: set<Address>, k: Outpoint, i: nat) {
    && i < |c|
    && k in c[i].outs
    && IsTracked(c[i].outs[k], TrackedThrough(c, senders, i))
    && forall j :: 0 <= j < |c| ==> k !in c[j].spent
  }

  /** On a valid chain the store holds exactly the outputs whose address was tracked by the end
      of the block that created them and that no block ever spent, with their own data. */
  lemma {:induction false} StoreIsLiveTracked(c: seq<Block>, senders: set<Address>, k: Outpoint)
    requires ValidChain(c)
    ensures k in StoreAt(c, senders) <==> exists i: nat :: LiveTracked(c, senders, k, i)
    ensures forall i: nat :: LiveTracked(c, senders, k, i) ==> StoreAt(c, senders)[k] == c[i].outs[k]
  {
    if c != [] {
      var n := |c| - 1;
      var p := c[..n];
      ValidPrefix(c, n);
      StoreIsLiveTracked(p, senders, k);
      hide ValidChain, LiveTracked, StoreAt;
      StoreLast(c, senders);
      forall i: nat
        ensures i < n ==> (LiveTracked(c, senders, k, i) <==> LiveTracked(p, senders, k, i) && k !in c[n].spent)
        ensures LiveTracked(c, senders, k, i) ==>
                  i <= n && k !in c[n].spent && (i < n ==> k !in c[n].outs && p[i] == c[i])
        ensures LiveTracked(p, senders, k, i) ==> i < n
      {
        LiveEarlier(c, senders, k, i);
      }
      LiveLast(c, senders, k);
    }
  }

  lemma StoreLast(c: seq<Block>, senders: set<Address>)
    requires c != []
    ensures StoreAt(c, senders) ==
            (StoreAt(c[..|c| - 1], senders) - c[|c| - 1].spent) + Kept(c[|c| - 1], TrackedAt(c, senders))
  {
  }

  /** An output of an earlier block is live after one more block if it was and that block does not spend it. */
  lemma LiveEarlier(c: seq<Block>, senders: set<Address>, k: Outpoint, i: nat)
    requires ValidChain(c) && c != []
    ensures var n, p := |c| - 1, c[..|c| - 1];
            && (i < n ==> (LiveTracked(c, senders, k, i) <==> LiveTracked(p, senders, k, i) && k !in c[n].spent))
            && (LiveTracked(c, senders, k, i) ==>
                i <= n && k !in c[n].spent && (i < n ==> k !in c[n].outs && p[i] == c[i]))
            && (LiveTracked(p, senders, k, i) ==> i < n)
  {
    var n, p := |c| - 1, c[..|c| - 1];
    if i < n {
      assert c[..i + 1] == p[..i + 1];
      assert Follows(c[i], c[n]);
    }
  }

  /** An output of the last block is live exactly when it is kept. */
  lemma LiveLast(c: seq<Block>, senders: set<Address>, k: Outpoint)
    requires ValidChain(c) && c != []
    ensures var n := |c| - 1;
            && (LiveTracked(c, senders, k, n) <==> k in Kept(c[n], TrackedAt(c, senders)))
            && (k in Kept(c[n], TrackedAt(c, senders)) ==>
                k in c[n].outs && Kept(c[n], TrackedAt(c, senders))[k] == c[n].outs[k])
  {
    var n := |c| - 1;
    assert c[..n + 1] == c;
    if k in Kept(c[n], TrackedAt(c, senders)) {
      NotSpentBefore(c, k, n);
    }
  }

  lemma NotSpentBefore(c: seq<Block>, k: Outpoint, n: nat)
    requires ValidChain(c) && n < |c| && k in c[n].outs
    ensures forall j :: 0 <= j < n ==> k !in c[j].spent
  {
    forall j | 0 <= j < n ensures k !in c[j].spent {
      assert Follows(c[j], c[n]);
    }
  }

  /** What the next block of a valid chain may touch, relative to the current store. */
  lemma {:induction false} FreshAgainstStore(c: seq<Block>, b: Block, senders: set<Address>)
    requires ValidChain(c + [b])
    ensures ValidChain(c)
    ensures StoreAt(c, senders).Keys !! b.outs.Keys
  {
    var d := c + [b];
    assert d[..|c|] == c;
    ValidPrefix(d, |c|);
    forall k | k in StoreAt(c, senders) ensures k !in b.outs {
      StoreIsLiveTracked(c, senders, k);
      var i: nat :| LiveTracked(c, senders, k, i);
      assert Follows(d[i], d[|c|]);
    }
  }

  /** Every stored output belongs to an address tracked now; tracking only grows along a chain. */
  lemma {:induction false} StoreAllTracked(c: seq<Block>, senders: set<Address>)
    ensures AllTracked(StoreAt(c, senders), TrackedAt(c, senders))
  {
    if c != [] {
      StoreAllTracked(c[..|c| - 1], senders);
    }
  }

  lemma StoreExtend(c: seq<Block>, b: Block, senders: set<Address>)
    ensures BoundAt(c + [b]) == BoundAt(c) + b.binds.Keys
    ensures TrackedAt(c + [b], senders) == TrackedAt(c, senders) + b.binds.Keys
    ensures StoreAt(c + [b], senders) == NextStore(StoreAt(c, senders), b, TrackedAt(c + [b], senders))
  {
    assert (c + [b])[..|c|] == c;
  }
}
