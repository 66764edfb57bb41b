/** Realtime balances, per-indexer stake totals and per-indexer staker scores: how a map of
    address deltas is applied to them, and what that keeps. */
module Balances {
  import opened Maps
  import opened Ledger
  import opened BatchModel
  import opened BatchRefinement

  type Bindings = map<Address, Binding>

  /** Increment the balance of every address with a nonzero delta; a balance that ends at zero is deleted. */
  function AddDeltas(bal: map<Address, int>, d: map<Address, int>): map<Address, int> {
    map a | a in bal.Keys + d.Keys
            && (if Get(d, a) != 0 then Get(bal, a) + Get(d, a) != 0 else a in bal)
      :: Get(bal, a) + Get(d, a)
  }

  function Negate(d: map<Address, int>): map<Address, int> {
    map a | a in d :: -d[a]
  }

  // ---- sums over the addresses of one group ----

  function Members<G(==)>(m: map<Address, int>, groups: map<Address, G>, g: G): map<Address, int> {
    map a | a in m && a in groups && groups[a] == g :: m[a]
  }

  ghost function GroupSum<G>(m: map<Address, int>, groups: map<Address, G>, g: G): int {
    Sum(Members(m, groups, g))
  }

  lemma GroupSumAdd<G>(m: map<Address, int>, n: map<Address, int>, r: map<Address, int>, groups: map<Address, G>, g: G)
    requires forall a :: Get(r, a) == Get(m, a) + Get(n, a)
    ensures GroupSum(r, groups, g) == GroupSum(m, groups, g) + GroupSum(n, groups, g)
  {
    forall a ensures Get(Members(r, groups, g), a) == Get(Members(m, groups, g), a) + Get(Members(n, groups, g), a) {
      assert Get(r, a) == Get(m, a) + Get(n, a);
    }
    SumPointwise(Members(m, groups, g), Members(n, groups, g), Members(r, groups, g));
  }

  /** Regrouping addresses that have no entry changes nothing. */
  lemma GroupSumSame<G>(m: map<Address, int>, g1: map<Address, G>, g2: map<Address, G>, g: G)
    requires forall a :: a in m ==> (a in g1 <==> a in g2) && (a in g1 ==> g1[a] == g2[a])
    ensures GroupSum(m, g1, g) == GroupSum(m, g2, g)
  {
    assert Members(m, g1, g) == Members(m, g2, g);
  }

  lemma GroupSumNonNegative<G>(m: map<Address, int>, groups: map<Address, G>, g: G)
    requires forall a :: a in m ==> m[a] >= 0
    ensures GroupSum(m, groups, g) >= 0
    ensures GroupSum(m, groups, g) == 0 <==> forall a :: a in Members(m, groups, g) ==> m[a] == 0
  {
    SumNonNegative(Members(m, groups, g));
  }

  function Touched<G(==)>(groups: map<Address, G>, d: map<Address, int>): set<G> {
    set a | a in d && d[a] != 0 && a in groups :: groups[a]
  }

  lemma UntouchedGroup<G>(groups: map<Address, G>, d: map<Address, int>, g: G)
    requires g !in Touched(groups, d)
    ensures GroupSum(d, groups, g) == 0
  {
    SumAllZero(Members(d, groups, g));
  }

  // ---- totals and scores ----

  function IndexerOf(binds: Bindings): map<Address, IndexerId> {
    map a | a in binds :: binds[a].indexer
  }

  /** m with the group sums of d added; a group no nonzero delta belongs to keeps its entry or absence. */
  ghost function AddGroups<G>(m: map<G, int>, groups: map<Address, G>, d: map<Address, int>): map<G, int> {
    map g | g in m.Keys + Touched(groups, d) :: Get(m, g) + GroupSum(d, groups, g)
  }

  /** Drop every score of the given indexers that is zero or negative. */
  function Prune(z: map<Binding, int>, indexers: set<IndexerId>): map<Binding, int> {
    map b | b in z && (b.indexer in indexers ==> z[b] > 0) :: z[b]
  }

  /** Increment the stake total of every indexer touched by the deltas. */
  ghost function AddTotals(tot: map<IndexerId, int>, binds: Bindings, d: map<Address, int>): map<IndexerId, int> {
    AddGroups(tot, IndexerOf(binds), d)
  }

  /** Increment the scores of the touched stakers, then prune the touched indexers. */
  ghost function AddStakers(z: map<Binding, int>, binds: Bindings, d: map<Address, int>): map<Binding, int> {
    Prune(AddGroups(z, binds, d), Touched(IndexerOf(binds), d))
  }

  lemma AddDeltasGet(bal: map<Address, int>, d: map<Address, int>)
    ensures forall a :: Get(AddDeltas(bal, d), a) == Get(bal, a) + Get(d, a)
    ensures NoZero(bal) ==> NoZero(AddDeltas(bal, d))
  {
  }

  lemma AddTotalsGet(tot: map<IndexerId, int>, binds: Bindings, d: map<Address, int>, i: IndexerId)
    ensures Get(AddTotals(tot, binds, d), i) == Get(tot, i) + GroupSum(d, IndexerOf(binds), i)
  {
    if i !in Touched(IndexerOf(binds), d) {
      UntouchedGroup(IndexerOf(binds), d, i);
    }
  }

  // ---- conservation ----

  /** Every balance is the value of the address's stored outputs, and absent when that is zero. */
  ghost predicate BalancesMatch(store: Utxos, bal: map<Address, int>) {
    NoZero(bal) && forall a :: Get(bal, a) == AddrSum(store, a)
  }

  /** Every stake total is the sum of the balances of the stake addresses bound to the indexer. */
  ghost predicate TotalsMatch(bal: map<Address, int>, tot: map<IndexerId, int>, binds: Bindings) {
    forall i :: Get(tot, i) == GroupSum(bal, IndexerOf(binds), i)
  }

  /** Every staker score is the sum of the balances of that user's stake addresses with the indexer;
      only positive scores are kept. */
  ghost predicate StakersMatch(bal: map<Address, int>, z: map<Binding, int>, binds: Bindings) {
    && (forall b :: Get(z, b) == GroupSum(bal, binds, b))
    && forall b :: b in z ==> z[b] > 0
  }

  lemma BalancesStep(store: Utxos, store': Utxos, bal: map<Address, int>, d: map<Address, int>)
    requires BalancesMatch(store, bal) && MeasuresChange(d, store, store')
    ensures BalancesMatch(store', AddDeltas(bal, d))
  {
    AddDeltasGet(bal, d);
    forall a ensures Get(AddDeltas(bal, d), a) == AddrSum(store', a) {
      assert Get(d, a) == AddrSum(store', a) - AddrSum(store, a);
    }
  }

  lemma NegateMeasures(d: map<Address, int>, before: Utxos, after: Utxos)
    requires MeasuresChange(d, before, after)
    ensures MeasuresChange(Negate(d), after, before)
  {
    forall a ensures Get(Negate(d), a) == AddrSum(before, a) - AddrSum(after, a) {
      assert Get(d, a) == AddrSum(after, a) - AddrSum(before, a);
    }
  }

  lemma TotalsStep(bal: map<Address, int>, tot: map<IndexerId, int>, binds: Bindings, d: map<Address, int>)
    requires TotalsMatch(bal, tot, binds)
    ensures TotalsMatch(AddDeltas(bal, d), AddTotals(tot, binds, d), binds)
  {
    AddDeltasGet(bal, d);
    forall i ensures Get(AddTotals(tot, binds, d), i) == GroupSum(AddDeltas(bal, d), IndexerOf(binds), i) {
      AddTotalsGet(tot, binds, d, i);
      GroupSumAdd(bal, d, AddDeltas(bal, d), IndexerOf(binds), i);
    }
  }

  lemma BalancesNonNegative(store: Utxos, bal: map<Address, int>)
    requires BalancesMatch(store, bal)
    ensures forall a :: a in bal ==> bal[a] > 0
  {
    forall a | a in bal ensures bal[a] > 0 {
      AddrSumNonNegative(store, a);
      assert Get(bal, a) == AddrSum(store, a);
    }
  }

  lemma StakersStep(bal: map<Address, int>, z: map<Binding, int>, binds: Bindings, d: map<Address, int>)
    requires StakersMatch(bal, z, binds)
    requires forall a :: a in AddDeltas(bal, d) ==> AddDeltas(bal, d)[a] >= 0
    ensures StakersMatch(AddDeltas(bal, d), AddStakers(z, binds, d), binds)
  {
    var bal' := AddDeltas(bal, d);
    var z' := AddStakers(z, binds, d);
    AddDeltasGet(bal, d);
    forall b ensures Get(z', b) == GroupSum(bal', binds, b) && (b in z' ==> z'[b] > 0) {
      assert Get(z, b) == GroupSum(bal, binds, b);
      GroupSumAdd(bal, d, bal', binds, b);
      GroupSumNonNegative(bal', binds, b);
      if b in Touched(binds, d) {
        TouchedByIndexer(binds, d, b);
      } else {
        UntouchedGroup(binds, d, b);
      }
    }
  }

  lemma TouchedByIndexer(binds: Bindings, d: map<Address, int>, b: Binding)
    requires b in Touched(binds, d)
    ensures b.indexer in Touched(IndexerOf(binds), d)
  {
    var a :| a in d && d[a] != 0 && a in binds && binds[a] == b;
    assert IndexerOf(binds)[a] == b.indexer;
  }

  // ---- changing the set of bindings ----

  /** Two binding tables that agree on every address holding a balance. */
  ghost predicate AgreeOnHolders(bal: map<Address, int>, b1: Bindings, b2: Bindings) {
    forall a :: a in bal ==> (a in b1 <==> a in b2) && (a in b1 ==> b1[a] == b2[a])
  }

  lemma RebindKeepsMatch(bal: map<Address, int>, tot: map<IndexerId, int>, z: map<Binding, int>, b1: Bindings,
                         b2: Bindings)
    requires AgreeOnHolders(bal, b1, b2)
    requires TotalsMatch(bal, tot, b1) && StakersMatch(bal, z, b1)
    ensures TotalsMatch(bal, tot, b2) && StakersMatch(bal, z, b2)
  {
    forall i ensures Get(tot, i) == GroupSum(bal, IndexerOf(b2), i) {
      GroupSumSame(bal, IndexerOf(b1), IndexerOf(b2), i);
    }
    forall b ensures Get(z, b) == GroupSum(bal, b2, b) {
      GroupSumSame(bal, b1, b2, b);
    }
  }

  /** New bindings keep every stake total right if and only if no newly bound address holds a balance. */
  lemma BindingKeepsTotalsIff(store: Utxos, bal: map<Address, int>, tot: map<IndexerId, int>, b1: Bindings,
                              b2: Bindings)
    requires BalancesMatch(store, bal) && TotalsMatch(bal, tot, b1)
    requires forall a :: a in b1 ==> a in b2 && b2[a] == b1[a]
    ensures TotalsMatch(bal, tot, b2) <==> forall a :: a in b2 && a !in b1 ==> a !in bal
  {
    BalancesNonNegative(store, bal);
    if TotalsMatch(bal, tot, b2) {
      forall a | a in b2 && a !in b1 ensures a !in bal {
        var i := b2[a].indexer;
        assert Get(tot, i) == GroupSum(bal, IndexerOf(b2), i) == GroupSum(bal, IndexerOf(b1), i);
        NewlyBoundShare(bal, b1, b2, i);
      }
    } else {
      var i :| Get(tot, i) != GroupSum(bal, IndexerOf(b2), i);
      assert Get(tot, i) == GroupSum(bal, IndexerOf(b1), i);
      NewlyBoundShare(bal, b1, b2, i);
    }
  }

  /** The share of one indexer grows exactly when it newly binds an address that holds a balance. */
  lemma NewlyBoundShare(bal: map<Address, int>, b1: Bindings, b2: Bindings, i: IndexerId)
    requires forall a :: a in bal ==> bal[a] > 0
    requires forall a :: a in b1 ==> a in b2 && b2[a] == b1[a]
    ensures GroupSum(bal, IndexerOf(b2), i) == GroupSum(bal, IndexerOf(b1), i)
            <==> forall a :: a in b2 && a !in b1 && b2[a].indexer == i ==> a !in bal
  {
    var m1, m2 := Members(bal, IndexerOf(b1), i), Members(bal, IndexerOf(b2 - b1.Keys), i);
    assert Members(bal, IndexerOf(b2), i) == m1 + m2;
    SumUnion(m1, m2);
    SumNonNegative(m2);
    assert forall a :: a in m2 <==> a in b2 && a !in b1 && b2[a].indexer == i && a in bal;
  }
}
