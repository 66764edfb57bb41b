/** Undoing blocks from the top of the chain: the UTXO store, exactly. */
module Rollback {
  import opened Maps
  import opened Ledger
  import opened BatchModel
  import opened BatchRefinement

  /** Undo of one block: delete what it created, then restore what it spent. */
  function UndoStore(store: Utxos, art: Artifact): Utxos {
    (store - art.undoNew.Keys) + art.undoSpent
  }

  /** Undo the blocks at positions |c| - 1 down to f, with the artifacts that belong to them. */
  ghost function RollbackStore(store: Utxos, c: seq<Block>, senders: set<Address>, f: nat): Utxos
    decreases |c|
  {
    if |c| <= f then store else
      RollbackStore(UndoStore(store, LastArtifact(c, senders)), c[..|c| - 1], senders, f)
  }

  /** The tracked outputs that some block at position f or above both created and spent. */
  function Residue(c: seq<Block>, senders: set<Address>, f: nat): Utxos {
    if |c| <= f then map[] else
      var n := |c| - 1;
      Residue(c[..n], senders, f) + InBlock(c[n], TrackedAt(c[..n], senders))
  }

  /** No block at position f or above creates and spends a tracked output. */
  predicate NoInBlockSpends(c: seq<Block>, senders: set<Address>, f: nat) {
    if |c| <= f then true else
      var n := |c| - 1;
      NoInBlockSpends(c[..n], senders, f) && InBlock(c[n], TrackedAt(c[..n], senders)) == map[]
  }

  /** No block of c mentions any of these outpoints. */
  ghost predicate Untouched(keys: set<Outpoint>, c: seq<Block>) {
    forall i :: 0 <= i < |c| ==> keys !! c[i].outs.Keys && keys !! c[i].spent
  }

  lemma UndoOverlay<K, V>(p: map<K, V>, spent: set<K>, kept: map<K, V>, inBlock: map<K, V>, extra: map<K, V>)
    requires kept.Keys !! p.Keys && kept.Keys !! inBlock.Keys && extra.Keys !! kept.Keys
    requires extra.Keys !! p.Keys && extra.Keys !! inBlock.Keys && inBlock.Keys !! p.Keys
    ensures ((((p - spent) + kept) + extra) - kept.Keys) + (Only(p, spent) + inBlock) == p + (inBlock + extra)
  {
  }

  /** One undo step over a store that already carries leftovers of later blocks. */
  lemma UndoLastBlock(c: seq<Block>, senders: set<Address>, extra: Utxos)
    requires ValidChain(c) && c != []
    requires Untouched(extra.Keys, c) && extra.Keys !! StoreAt(c[..|c| - 1], senders).Keys
    ensures
      var p := c[..|c| - 1];
      var left := InBlock(c[|c| - 1], TrackedAt(p, senders)) + extra;
      && UndoStore(StoreAt(c, senders) + extra, LastArtifact(c, senders)) == StoreAt(p, senders) + left
      && Untouched(left.Keys, p) && left.Keys !! StoreAt(p, senders).Keys
  {
    var n := |c| - 1;
    var p, b := c[..n], c[n];
    assert c == p + [b];
    FreshAgainstStore(p, b, senders);
    var inBlock := InBlock(b, TrackedAt(p, senders));
    UndoOverlay(StoreAt(p, senders), b.spent, Kept(b, TrackedAt(c, senders)), inBlock, extra);
    forall i | 0 <= i < |p| ensures (inBlock + extra).Keys !! p[i].outs.Keys && (inBlock + extra).Keys !! p[i].spent {
      assert p[i] == c[i];
      assert Follows(c[i], c[n]);
    }
  }

  lemma {:induction false} StoreUntouched(c: seq<Block>, senders: set<Address>, keys: set<Outpoint>)
    requires Untouched(keys, c)
    ensures keys !! StoreAt(c, senders).Keys
    decreases |c|
  {
    if c != [] {
      StoreUntouched(c[..|c| - 1], senders, keys);
    }
  }

  lemma UnionAssociative<K, V>(x: map<K, V>, y: map<K, V>, z: map<K, V>)
    ensures (x + y) + z == x + (y + z)
  {
  }

  /** Undoing with leftovers `extra` of blocks above c. */
  lemma {:induction false} RollbackWithExtra(c: seq<Block>, senders: set<Address>, f: nat, extra: Utxos)
    requires ValidChain(c) && f <= |c|
    requires Untouched(extra.Keys, c) && extra.Keys !! StoreAt(c, senders).Keys
    ensures RollbackStore(StoreAt(c, senders) + extra, c, senders, f)
            == StoreAt(c[..f], senders) + (Residue(c, senders, f) + extra)
    decreases |c|
  {
    if |c| == f {
      assert c[..f] == c;
      var none: Utxos := map[];
      assert none + extra == extra;
    } else {
      var n := |c| - 1;
      var p := c[..n];
      var inBlock := InBlock(c[n], TrackedAt(p, senders));
      ValidPrefix(c, n);
      StoreUntouched(p, senders, extra.Keys);
      UndoLastBlock(c, senders, extra);
      RollbackWithExtra(p, senders, f, inBlock + extra);
      assert p[..f] == c[..f];
      UnionAssociative(Residue(p, senders, f), inBlock, extra);
    }
  }

  /** MAIN. Undoing a valid chain from its top down to position f gives exactly the store before f
      plus the tracked outputs that some undone block both created and spent. */
  lemma RollbackGivesResidue(c: seq<Block>, senders: set<Address>, f: nat)
    requires ValidChain(c) && f <= |c|
    ensures RollbackStore(StoreAt(c, senders), c, senders, f) == StoreAt(c[..f], senders) + Residue(c, senders, f)
    ensures Residue(c, senders, f).Keys !! StoreAt(c[..f], senders).Keys
  {
    RollbackWithExtra(c, senders, f, map[]);
    UnionNothing(StoreAt(c, senders));
    UnionNothing(Residue(c, senders, f));
    ResidueIsNew(c, senders, f);
  }

  lemma UnionNothing(m: Utxos)
    ensures m + map[] == m
  {
  }

  lemma InBlockIsNew(c: seq<Block>, tracked: set<Address>, f: nat)
    requires ValidChain(c) && f < |c|
    ensures Untouched(InBlock(c[|c| - 1], tracked).Keys, c[..f])
  {
    forall i | 0 <= i < f ensures Follows(c[i], c[|c| - 1]) {
    }
  }

  lemma {:induction false} ResidueIsNew(c: seq<Block>, senders: set<Address>, f: nat)
    requires ValidChain(c) && f <= |c|
    ensures Untouched(Residue(c, senders, f).Keys, c[..f])
    ensures Residue(c, senders, f).Keys !! StoreAt(c[..f], senders).Keys
    ensures Residue(c, senders, f) == map[] <==> NoInBlockSpends(c, senders, f)
    decreases |c|
  {
    hide StoreAt, TrackedAt, InBlock;
    if |c| > f {
      var n := |c| - 1;
      ValidPrefix(c, n);
      ResidueIsNew(c[..n], senders, f);
      assert c[..n][..f] == c[..f];
      InBlockIsNew(c, TrackedAt(c[..n], senders), f);
      UnionEmpty(Residue(c[..n], senders, f), InBlock(c[n], TrackedAt(c[..n], senders)));
    }
    StoreUntouched(c[..f], senders, Residue(c, senders, f).Keys);
  }

  lemma UnionEmpty<K, V>(m: map<K, V>, n: map<K, V>)
    ensures m + n == map[] <==> m == map[] && n == map[]
  {
    assert (m + n).Keys == m.Keys + n.Keys;
  }

  /** Rollback is an exact inverse if and only if no undone block creates and spends a tracked output. */
  lemma RollbackExactIff(c: seq<Block>, senders: set<Address>, f: nat)
    requires ValidChain(c) && f <= |c|
    ensures RollbackStore(StoreAt(c, senders), c, senders, f) == StoreAt(c[..f], senders)
            <==> NoInBlockSpends(c, senders, f)
  {
    RollbackGivesResidue(c, senders, f);
    ResidueIsNew(c, senders, f);
    DisjointUnionExact(StoreAt(c[..f], senders), Residue(c, senders, f));
  }

  lemma DisjointUnionExact<K, V>(m: map<K, V>, n: map<K, V>)
    requires m.Keys !! n.Keys
    ensures m + n == m <==> n == map[]
  {
    if n != map[] {
      var k :| k in n;
      assert k in m + n;
    }
  }

  /** Outputs the undo rows of the undone blocks restore, less those they delete. */
  ghost function NetUndo(c: seq<Block>, senders: set<Address>, f: nat): int
    decreases |c|
  {
    if |c| <= f then 0 else
      |LastArtifact(c, senders).undoSpent| - |LastArtifact(c, senders).undoNew| + NetUndo(c[..|c| - 1], senders, f)
  }

  lemma {:induction false} SizesAddUp(c: seq<Block>, senders: set<Address>, f: nat)
    requires ValidChain(c) && f <= |c|
    ensures |StoreAt(c[..f], senders)| + |Residue(c, senders, f)| == |StoreAt(c, senders)| + NetUndo(c, senders, f)
    decreases |c|
  {
    hide StoreAt, TrackedAt, LastArtifact, ValidChain, InBlock;
    if |c| == f {
      assert c[..f] == c;
    } else {
      var p := c[..|c| - 1];
      assert p[..f] == c[..f];
      ValidPrefix(c, |c| - 1);
      SizesAddUp(p, senders, f);
      LastBlockSize(c, senders);
      InBlockApart(c, senders, f);
      UnionSize(Residue(p, senders, f), InBlock(c[|c| - 1], TrackedAt(p, senders)));
    }
  }

  /** Undoing changes the number of stored outputs by what the undo rows say. */
  lemma RollbackSize(c: seq<Block>, senders: set<Address>, f: nat)
    requires ValidChain(c) && f <= |c|
    ensures |StoreAt(c[..f], senders) + Residue(c, senders, f)| == |StoreAt(c, senders)| + NetUndo(c, senders, f)
  {
    hide StoreAt, ValidChain, Residue, NetUndo;
    SizesAddUp(c, senders, f);
    ResidueIsNew(c, senders, f);
    UnionSize(StoreAt(c[..f], senders), Residue(c, senders, f));
  }

  lemma UnionSize<K, V>(m: map<K, V>, n: map<K, V>)
    requires m.Keys !! n.Keys
    ensures |m + n| == |m| + |n|
  {
    assert (m + n).Keys == m.Keys + n.Keys;
    assert |m.Keys + n.Keys| == |m.Keys| + |n.Keys|;
  }

  lemma LastBlockSize(c: seq<Block>, senders: set<Address>)
    requires ValidChain(c) && c != []
    ensures var p, art := c[..|c| - 1], LastArtifact(c, senders);
            |StoreAt(c, senders)| + |art.undoSpent| ==
            |StoreAt(p, senders)| + |art.undoNew| + |InBlock(c[|c| - 1], TrackedAt(p, senders))|
  {
    hide StoreAt, TrackedAt, Change, InBlock, Kept;
    var n := |c| - 1;
    var p, b := c[..n], c[n];
    assert c == p + [b];
    FreshAgainstStore(p, b, senders);
    StoreLast(c, senders);
    var store, kept, inside := StoreAt(p, senders), Kept(b, TrackedAt(c, senders)), InBlock(b, TrackedAt(p, senders));
    assert kept.Keys <= b.outs.Keys &&
           inside.Keys <= b.outs.Keys by { OutsOnly(b, TrackedAt(c, senders)); OutsOnly(b, TrackedAt(p, senders)); }
    SplitSize(store, b.spent);
    UnionSize(store - b.spent, kept);
    UnionSize(Only(store, b.spent), inside);
  }

  lemma OutsOnly(b: Block, tracked: set<Address>)
    ensures Kept(b, tracked).Keys <= b.outs.Keys && InBlock(b, tracked).Keys <= b.outs.Keys
  {
  }

  lemma SplitSize<K, V>(m: map<K, V>, s: set<K>)
    ensures |m| == |m - s| + |Only(m, s)|
  {
    var kept, taken := (m - s).Keys, Only(m, s).Keys;
    assert m.Keys == kept + taken && kept !! taken;
    assert |kept + taken| == |kept| + |taken|;
  }

  lemma {:induction false} InBlockApart(c: seq<Block>, senders: set<Address>, f: nat)
    requires ValidChain(c) && f < |c|
    ensures Residue(c[..|c| - 1], senders, f).Keys !! InBlock(c[|c| - 1], TrackedAt(c[..|c| - 1], senders)).Keys
  {
    ResidueOrigin(c[..|c| - 1], senders, f);
    var earlier, last := Residue(c[..|c| - 1], senders, f), c[|c| - 1];
    forall k | k in earlier ensures k !in last.outs {
      var i :| 0 <= i < |c| - 1 && k in c[..|c| - 1][i].outs;
      assert Follows(c[i], last);
    }
  }

  lemma {:induction false} ResidueOrigin(c: seq<Block>, senders: set<Address>, f: nat)
    ensures forall k :: k in Residue(c, senders, f) ==> exists i :: 0 <= i < |c| && k in c[i].outs
    decreases |c|
  {
    if |c| > f {
      var n := |c| - 1;
      ResidueOrigin(c[..n], senders, f);
      forall k | k in Residue(c, senders, f) ensures exists i :: 0 <= i < |c| && k in c[i].outs {
        if k in Residue(c[..n], senders, f) {
          var i :| 0 <= i < n && k in c[..n][i].outs;
          assert k in c[i].outs;
        } else {
          assert k in c[n].outs;
        }
      }
    }
  }

  /** A concrete failure: a single block that funds a tracked address and spends the output again.
      Undoing it leaves the output in the store, although it was never there. */
  lemma InBlockSpendSurvivesRollback()
    ensures
      var a := Address("bc1p-stake");
      var k := Outpoint("t1", 0);
      var d := TxoData(1, 0, 5000, Some(a));
      var c := [Block({k}, map[k := d], map[])];
      && ValidChain(c)
      && StoreAt(c, {a}) == map[]
      && RollbackStore(StoreAt(c, {a}), c, {a}, 0) == map[k := d]
  {
    var a := Address("bc1p-stake");
    var k := Outpoint("t1", 0);
    var d := TxoData(1, 0, 5000, Some(a));
    var b := Block({k}, map[k := d], map[]);
    var c := [b];
    assert c[..0] == [];
    assert Kept(b, TrackedAt(c, {a})) == map[];
    assert InBlock(b, TrackedAt(c[..0], {a})) == map[k := d];
    RollbackGivesResidue(c, {a}, 0);
    assert Residue(c, {a}, 0) == map[k := d];
  }
}
