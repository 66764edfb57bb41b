/** The batched indexer refines the per-block fold: parsing any list of blocks against the
    batch-global maps and committing once gives the same store as applying the blocks one by one. */
module BatchRefinement {
  import opened Maps
  import opened Ledger
  import opened BatchModel

  /** How the batch maps over the committed store `base` represent the current store `cur`. */
  ghost predicate Represents(base: Utxos, g: Batch, cur: Utxos) {
    RepresentsMaps(base, g, cur) && MeasuresChange(g.gDelta, base, cur)
  }

  predicate RepresentsMaps(base: Utxos, g: Batch, cur: Utxos) {
    && g.gDel <= base.Keys
    && g.gSpent == Only(base, g.gDel)
    && g.gNew.Keys !! base.Keys
    && cur == (base - g.gDel) + g.gNew
  }

  /** The deltas are, address by address, the change in value held, with no zero entries. */
  ghost predicate MeasuresChange(deltas: map<Address, int>, before: Utxos, after: Utxos) {
    && NoZero(deltas)
    && forall a :: Get(deltas, a) == AddrSum(after, a) - AddrSum(before, a)
  }

  /** The change in value held, address by address. */
  ghost function Change(before: Utxos, after: Utxos): map<Address, int> {
    map a | a in Addresses(before) + Addresses(after) && AddrSum(after, a) != AddrSum(before, a) ::
      AddrSum(after, a) - AddrSum(before, a)
  }

  lemma ChangeMeasures(before: Utxos, after: Utxos)
    ensures MeasuresChange(Change(before, after), before, after)
  {
    forall a ensures Get(Change(before, after), a) == AddrSum(after, a) - AddrSum(before, a) {
      AddrSumNonNegative(before, a);
      AddrSumNonNegative(after, a);
    }
  }

  lemma MeasureIsChange(d: map<Address, int>, before: Utxos, after: Utxos)
    requires MeasuresChange(d, before, after)
    ensures d == Change(before, after)
  {
    ChangeMeasures(before, after);
    GetExtensional(d, Change(before, after));
  }

  /** What the rollback tables must hold for block b on top of store `cur`: `before` and `after` are the
      addresses tracked when the block starts and when it is finished. */
  ghost function BlockArtifact(cur: Utxos, b: Block, before: set<Address>, after: set<Address>): Artifact {
    Artifact(Change(cur, NextStore(cur, b, after)), Kept(b, after), Only(cur, b.spent) + InBlock(b, before))
  }

  /** The hypotheses one block of a valid chain meets. */
  predicate Admissible(base: Utxos, g: Batch, cur: Utxos, b: Block, tracked: set<Address>) {
    && AllTracked(cur, tracked)
    && b.outs.Keys !! base.Keys
    && b.outs.Keys !! cur.Keys
    && b.spent !! g.gDel
  }

  lemma SpentFromBatch(base: Utxos, g: Batch, cur: Utxos, b: Block, tracked: set<Address>)
    requires RepresentsMaps(base, g, cur) && Admissible(base, g, cur, b, tracked)
    ensures SpentInBatch(FirstParse(b), g, tracked) == Only(g.gNew, b.spent)
  {
    assert forall k :: k in g.gNew ==> k in cur && cur[k] == g.gNew[k];
  }

  lemma SpentFromStore(base: Utxos, g: Batch, cur: Utxos, b: Block, tracked: set<Address>)
    requires RepresentsMaps(base, g, cur) && Admissible(base, g, cur, b, tracked)
    ensures SpentInStore(FirstParse(b), g, base, tracked) == Only(base - g.gDel, b.spent)
  {
    assert forall k :: k in base - g.gDel ==> k in cur && cur[k] == base[k];
  }

  /** The three ways to resolve an input together find exactly what the current store holds. */
  lemma SpentResolution(base: Utxos, g: Batch, cur: Utxos, b: Block, tracked: set<Address>)
    requires RepresentsMaps(base, g, cur) && Admissible(base, g, cur, b, tracked)
    ensures SpentInBlock(FirstParse(b), tracked) == InBlock(b, tracked)
    ensures SpentInBatch(FirstParse(b), g, tracked) == Only(g.gNew, b.spent)
    ensures SpentInStore(FirstParse(b), g, base, tracked) == Only(base - g.gDel, b.spent)
    ensures g.gNew - (b.spent - b.outs.Keys) == g.gNew - b.spent
  {
    hide SpentInBatch, SpentInStore;
    SpentFromBatch(base, g, cur, b, tracked);
    SpentFromStore(base, g, cur, b, tracked);
  }

  /** The algebra behind one block, for arbitrary maps. */
  lemma OverlayStep<K, V>(base: map<K, V>, del: set<K>, new0: map<K, V>, cur: map<K, V>, spent: set<K>, kept: map<K, V>)
    requires del <= base.Keys && new0.Keys !! base.Keys && cur == (base - del) + new0
    requires kept.Keys !! base.Keys && kept.Keys !! cur.Keys
    ensures
      var gone := Only(base - del, spent);
      var del', new' := del + gone.Keys, (new0 - spent) + kept;
      && del' <= base.Keys && del' <= del + spent
      && Only(base, del) + gone == Only(base, del')
      && new'.Keys !! base.Keys
      && (cur - spent) + kept == (base - del') + new'
      && Only(new0, spent) + gone == Only(cur, spent)
  {
    OverlayDeleted(base, del, spent);
    OverlayStore(base, del, new0, cur, spent, kept);
    OverlaySpent(base, del, new0, cur, spent);
  }

  lemma OverlayDeleted<K, V>(base: map<K, V>, del: set<K>, spent: set<K>)
    requires del <= base.Keys
    ensures var gone := Only(base - del, spent);
            && del + gone.Keys <= base.Keys && del + gone.Keys <= del + spent
            && Only(base, del) + gone == Only(base, del + gone.Keys)
            && base - (del + gone.Keys) == (base - del) - spent
  {
  }

  lemma OverlayStore<K,
    V>(base: map<K, V>, del: set<K>, new0: map<K, V>, cur: map<K, V>, spent: set<K>, kept: map<K, V>)
    requires cur == (base - del) + new0
    ensures (cur - spent) + kept == ((base - del) - spent) + ((new0 - spent) + kept)
  {
  }

  lemma OverlaySpent<K, V>(base: map<K, V>, del: set<K>, new0: map<K, V>, cur: map<K, V>, spent: set<K>)
    requires new0.Keys !! base.Keys && cur == (base - del) + new0
    ensures Only(new0, spent) + Only(base - del, spent) == Only(cur, spent)
  {
  }

  /** The deltas after both phases, for arbitrary maps. */
  lemma DeltaStep(d: map<Address, int>, start: Utxos, cur: Utxos, x: Utxos, y: Utxos, b: Block, after: set<Address>)
    requires MeasuresChange(d, start, cur)
    requires x.Keys !! y.Keys && x + y == Only(cur, b.spent)
    requires b.outs.Keys !! cur.Keys
    ensures MeasuresChange(Accumulate(Accumulate(Accumulate(d, x, -1), y, -1), Kept(b, after), 1),
                           start, NextStore(cur, b, after))
  {
    var d1 := Accumulate(d, x, -1);
    var d2 := Accumulate(d1, y, -1);
    AccumulateGet(d, x, -1);
    AccumulateGet(d1, y, -1);
    AccumulateGet(d2, Kept(b, after), 1);
    forall a ensures Get(Accumulate(d2, Kept(b, after), 1), a) ==
      AddrSum(NextStore(cur, b, after), a) - AddrSum(start, a) {
      AddrSumUnion(x, y, a);
      NextStoreSum(cur, b, after, a);
    }
  }

  /** The value an address gains or loses in a block. */
  lemma NextStoreSum(cur: Utxos, b: Block, after: set<Address>, a: Address)
    requires b.outs.Keys !! cur.Keys
    ensures AddrSum(NextStore(cur, b, after), a)
            == AddrSum(cur, a) - AddrSum(Only(cur, b.spent), a) + AddrSum(Kept(b, after), a)
  {
    AddrSumSplit(cur, b.spent, a);
    AddrSumUnion(cur - b.spent, Kept(b, after), a);
  }

  /** The batch after one block, with the phases' lookups resolved. */
  lemma ParseBlockBatch(base: Utxos, g: Batch, cur: Utxos, b: Block, tracked: set<Address>)
    requires RepresentsMaps(base, g, cur) && Admissible(base, g, cur, b, tracked)
    ensures
      var kept, gone := Kept(b, tracked + b.binds.Keys), Only(base - g.gDel, b.spent);
      ParseBlock(g, b, base, tracked).0 ==
      Batch((g.gNew - b.spent) + kept, g.gSpent + gone, g.gDel + gone.Keys,
            Accumulate(Accumulate(Accumulate(g.gDelta, Only(g.gNew, b.spent), -1), gone, -1), kept, 1))
  {
    SpentResolution(base, g, cur, b, tracked);
    assert TrackedOnly(b.outs - b.spent, tracked + b.binds.Keys) == Kept(b, tracked + b.binds.Keys);
  }

  lemma ParseBlockArtifact(base: Utxos, g: Batch, cur: Utxos, b: Block, tracked: set<Address>)
    requires RepresentsMaps(base, g, cur) && Admissible(base, g, cur, b, tracked)
    ensures
      var kept, gone := Kept(b, tracked + b.binds.Keys), Only(base - g.gDel, b.spent);
      ParseBlock(g, b, base, tracked).1 ==
      Artifact(Accumulate(Accumulate(Accumulate(map[], Only(g.gNew, b.spent), -1), gone, -1), kept, 1),
               kept, Only(cur, b.spent) + InBlock(b, tracked))
  {
    SpentResolution(base, g, cur, b, tracked);
    var tracked' := tracked + b.binds.Keys;
    var x, gone := Only(g.gNew, b.spent), Only(base - g.gDel, b.spent);
    assert TrackedOnly(b.outs - b.spent, tracked') == Kept(b, tracked');
    OverlayStep(base, g.gDel, g.gNew, cur, b.spent, map[]);
    UndoSpentOrder(cur, b, x, gone, tracked, tracked');
  }

  lemma UndoSpentOrder(cur: Utxos, b: Block, x: Utxos, y: Utxos, tracked: set<Address>, tracked': set<Address>)
    requires x + y == Only(cur, b.spent) && b.outs.Keys !! cur.Keys
    requires AllTracked(cur, tracked) && tracked <= tracked'
    ensures TrackedOnly(map[] + InBlock(b, tracked) + x + y, tracked') == Only(cur, b.spent) + InBlock(b, tracked)
  {
    var none: Utxos := map[];
    var s := none + InBlock(b, tracked) + x + y;
    assert s == InBlock(b, tracked) + (x + y);
    assert s == Only(cur, b.spent) + InBlock(b, tracked);
  }

  /** One block keeps the representation and leaves the artifact that describes it. */
  lemma ParseBlockStep(base: Utxos, g: Batch, cur: Utxos, b: Block, tracked: set<Address>)
    requires Represents(base, g, cur) && Admissible(base, g, cur, b, tracked)
    ensures Represents(base, ParseBlock(g, b, base, tracked).0, NextStore(cur, b, tracked + b.binds.Keys))
    ensures ParseBlock(g, b, base, tracked).1 == BlockArtifact(cur, b, tracked, tracked + b.binds.Keys)
    ensures ParseBlock(g, b, base, tracked).0.gDel <= g.gDel + b.spent
  {
    var tracked' := tracked + b.binds.Keys;
    var kept, gone := Kept(b, tracked'), Only(base - g.gDel, b.spent);
    ParseBlockBatch(base, g, cur, b, tracked);
    ParseBlockArtifact(base, g, cur, b, tracked);
    OverlayStep(base, g.gDel, g.gNew, cur, b.spent, kept);
    DeltaStep(g.gDelta, base, cur, Only(g.gNew, b.spent), gone, b, tracked');
    DeltaStep(map[], cur, cur, Only(g.gNew, b.spent), gone, b, tracked');
    MeasureIsChange(ParseBlock(g, b, base, tracked).1.deltas, cur, NextStore(cur, b, tracked'));
  }

  // ---- whole batches over a valid chain ----

  predicate SpentBySome(s: set<Outpoint>, blocks: seq<Block>) {
    forall k :: k in s ==> exists i :: 0 <= i < |blocks| && k in blocks[i].spent
  }

  lemma {:induction false} BoundAtConcat(c: seq<Block>, d: seq<Block>)
    ensures BoundAt(c + d) == BoundAt(c) + BoundAt(d)
    decreases |d|
  {
    if d == [] {
      assert c + d == c;
    } else {
      var n := |d| - 1;
      assert (c + d)[..|c + d| - 1] == c + d[..n];
      BoundAtConcat(c, d[..n]);
    }
  }

  /** The artifact of the last block of chain c. */
  ghost function LastArtifact(c: seq<Block>, senders: set<Address>): Artifact
    requires c != []
  {
    var p := c[..|c| - 1];
    BlockArtifact(StoreAt(p, senders), c[|c| - 1], TrackedAt(p, senders), TrackedAt(c, senders))
  }

  /** The artifacts of a chain, one per block. */
  ghost function Artifacts(c: seq<Block>, senders: set<Address>): (arts: seq<Artifact>)
    ensures |arts| == |c|
  {
    if c == [] then [] else Artifacts(c[..|c| - 1], senders) + [LastArtifact(c, senders)]
  }

  lemma BlockAdmissible(c: seq<Block>, earlier: seq<Block>, b: Block, del: set<Outpoint>, senders: set<Address>)
    requires ValidChain(c + earlier + [b])
    requires SpentBySome(del, earlier)
    ensures AllTracked(StoreAt(c + earlier, senders), TrackedAt(c + earlier, senders))
    ensures b.outs.Keys !! StoreAt(c, senders).Keys
    ensures b.outs.Keys !! StoreAt(c + earlier, senders).Keys
    ensures b.spent !! del
  {
    var d := c + earlier;
    var e := d + [b];
    StoreAllTracked(d, senders);
    FreshAgainstStore(d, b, senders);
    SkipMiddle(c, earlier, b);
    FreshAgainstStore(c, b, senders);
    forall k | k in del ensures k !in b.spent {
      var i :| 0 <= i < |earlier| && k in earlier[i].spent;
      assert e[|c| + i] == earlier[i];
      assert Follows(e[|c| + i], e[|d|]);
    }
  }

  lemma SkipMiddle(c: seq<Block>, earlier: seq<Block>, b: Block)
    requires ValidChain(c + earlier + [b])
    ensures ValidChain(c + [b])
  {
    var e := c + earlier + [b];
    forall i, j | 0 <= i < j < |c + [b]| ensures Follows((c + [b])[i], (c + [b])[j]) {
      assert (c + [b])[i] == e[i];
      assert Follows(e[i], e[if j < |c| then j else |c + earlier|]);
    }
  }

  /** Parsing `blocks` on top of a store that holds StoreAt(c) represents StoreAt(c + blocks). */
  lemma {:induction false} ParseBlocksRepresent(c: seq<Block>, blocks: seq<Block>, senders: set<Address>)
    requires ValidChain(c + blocks)
    ensures
      var (g, arts) := ParseBlocks(blocks, StoreAt(c, senders), TrackedAt(c, senders));
      && Represents(StoreAt(c, senders), g, StoreAt(c + blocks, senders))
      && SpentBySome(g.gDel, blocks)
      && |arts| == |blocks|
    decreases |blocks|, 1
  {
    if blocks == [] {
      assert c + blocks == c;
    } else {
      ParseLastBlock(c, blocks, senders);
    }
  }

  /** The induction step: the last block of a batch. */
  lemma ParseLastBlock(c: seq<Block>, blocks: seq<Block>, senders: set<Address>)
    requires blocks != [] && ValidChain(c + blocks)
    ensures
      var n := |blocks| - 1;
      var base, d := StoreAt(c, senders), c + blocks[..n];
      var arts := ParseBlocks(blocks[..n], base, TrackedAt(c, senders)).1;
      var (g', arts') := ParseBlocks(blocks, base, TrackedAt(c, senders));
      && ValidChain(d)
      && |arts| == n && |arts'| == n + 1 && arts'[..n] == arts
      && Represents(base, g', StoreAt(c + blocks, senders))
      && SpentBySome(g'.gDel, blocks)
      && arts'[n] == LastArtifact(c + blocks, senders)
    decreases |blocks|, 0
  {
    hide StoreAt, Represents, BlockArtifact, ParseBlock;
    var n := |blocks| - 1;
    var earlier, b := blocks[..n], blocks[n];
    var d := c + earlier;
    var base, cur := StoreAt(c, senders), StoreAt(d, senders);
    assert c + blocks == d + [b];
    assert (d + [b])[..|d|] == d;
    ValidPrefix(d + [b], |d|);
    ParseBlocksRepresent(c, earlier, senders);
    var (g, arts) := ParseBlocks(earlier, base, TrackedAt(c, senders));
    BoundAtConcat(c, earlier);
    assert TrackedAt(d, senders) == TrackedAt(c, senders) + BoundAt(earlier);
    BlockAdmissible(c, earlier, b, g.gDel, senders);
    ParseBlockStep(base, g, cur, b, TrackedAt(d, senders));
    StoreExtend(d, b, senders);
    var (g', art) := ParseBlock(g, b, base, TrackedAt(d, senders));
    assert ParseBlocks(blocks, base, TrackedAt(c, senders)) == (g', arts + [art]);
    assert blocks == earlier + [b];
    SpentByMore(g.gDel, g'.gDel, earlier, b);
  }

  lemma SpentByMore(s: set<Outpoint>, t: set<Outpoint>, earlier: seq<Block>, b: Block)
    requires SpentBySome(s, earlier) && t <= s + b.spent
    ensures SpentBySome(t, earlier + [b])
  {
    var blocks := earlier + [b];
    forall k | k in t ensures exists i :: 0 <= i < |blocks| && k in blocks[i].spent {
      if k in s {
        var i :| 0 <= i < |earlier| && k in earlier[i].spent;
        assert k in blocks[i].spent;
      } else {
        assert k in blocks[|earlier|].spent;
      }
    }
  }

  lemma ArtifactOfLast(c: seq<Block>, blocks: seq<Block>, senders: set<Address>)
    requires blocks != [] && ValidChain(c + blocks)
    ensures
      var n := |blocks| - 1;
      var base, tracked := StoreAt(c, senders), TrackedAt(c, senders);
      ParseBlocks(blocks, base, tracked).1 ==
        ParseBlocks(blocks[..n], base, tracked).1 + [LastArtifact(c + blocks, senders)]
    ensures ValidChain(c + blocks[..|blocks| - 1])
  {
    ParseLastBlock(c, blocks, senders);
  }

  lemma ArtifactsLast(c: seq<Block>, blocks: seq<Block>, senders: set<Address>)
    requires blocks != []
    ensures Artifacts(c + blocks, senders) ==
            Artifacts(c + blocks[..|blocks| - 1], senders) + [LastArtifact(c + blocks, senders)]
  {
    assert (c + blocks)[..|c + blocks| - 1] == c + blocks[..|blocks| - 1];
  }

  /** The artifacts a batch stages are those of its own blocks. */
  lemma {:induction false} ParseBlocksArtifacts(c: seq<Block>, blocks: seq<Block>, senders: set<Address>)
    requires ValidChain(c + blocks)
    ensures Artifacts(c + blocks, senders)
            == Artifacts(c, senders) + ParseBlocks(blocks, StoreAt(c, senders), TrackedAt(c, senders)).1
    decreases |blocks|
  {
    if blocks == [] {
      assert c + blocks == c;
    } else {
      ArtifactOfLast(c, blocks, senders);
      ArtifactsLast(c, blocks, senders);
      ParseBlocksArtifacts(c, blocks[..|blocks| - 1], senders);
      ConcatAssociative(Artifacts(c, senders),
                        ParseBlocks(blocks[..|blocks| - 1], StoreAt(c, senders), TrackedAt(c, senders)).1,
                        [LastArtifact(c + blocks, senders)]);
    }
  }

  lemma ConcatAssociative<T>(x: seq<T>, y: seq<T>, z: seq<T>)
    ensures (x + y) + z == x + (y + z)
  {
  }

  /** MAIN. For every valid chain and every way to cut off a batch: committing the batch maps as
      "set if absent, then delete" yields the per-block fold, and the counter moves by exactly
      the change in store size. */
  lemma BatchCommitRefinesFold(c: seq<Block>, blocks: seq<Block>, senders: set<Address>)
    requires ValidChain(c + blocks)
    ensures
      var g := ParseBlocks(blocks, StoreAt(c, senders), TrackedAt(c, senders)).0;
      && CommitStore(StoreAt(c, senders), g) == StoreAt(c + blocks, senders)
      && CountIncrement(g) == |StoreAt(c + blocks, senders)| - |StoreAt(c, senders)|
  {
    ParseBlocksRepresent(c, blocks, senders);
    var g := ParseBlocks(blocks, StoreAt(c, senders), TrackedAt(c, senders)).0;
    OverlayCommit(StoreAt(c, senders), g, StoreAt(c + blocks, senders));
  }

  lemma OverlayCommit(base: Utxos, g: Batch, cur: Utxos)
    requires RepresentsMaps(base, g, cur)
    ensures CommitStore(base, g) == cur
    ensures CountIncrement(g) == |cur| - |base|
  {
    OverlayWrites(base, g.gDel, g.gNew);
    OverlayCount(base, g.gDel, g.gNew, cur);
    SelectedSize(base, g.gDel);
  }

  /** Writing only absent keys and then deleting is the same as deleting and then writing. */
  lemma OverlayWrites<K, V>(base: map<K, V>, del: set<K>, added: map<K, V>)
    requires del <= base.Keys && added.Keys !! base.Keys
    ensures (added + base) - del == (base - del) + added
  {
  }

  lemma SelectedSize<K, V>(base: map<K, V>, del: set<K>)
    requires del <= base.Keys
    ensures |Only(base, del)| == |del|
  {
    assert Only(base, del).Keys == del;
  }

  lemma OverlayCount<K, V>(base: map<K, V>, del: set<K>, added: map<K, V>, cur: map<K, V>)
    requires del <= base.Keys && added.Keys !! base.Keys && cur == (base - del) + added
    ensures |cur| == |base| - |del| + |added|
  {
    OverlaySize(base.Keys, del, added.Keys, cur.Keys);
  }

  lemma OverlaySize<K>(base: set<K>, del: set<K>, added: set<K>, cur: set<K>)
    requires del <= base && added !! base && cur == (base - del) + added
    ensures |cur| == |base| - |del| + |added|
  {
    assert |base - del| == |base| - |del|;
  }
}
