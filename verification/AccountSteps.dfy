/** The loops that apply address deltas to balances, stake totals and staker scores, one iteration at
    a time, and why any iteration order ends in the closed form of module Balances. */
module AccountSteps {
  import opened Maps
  import opened Ledger
  import opened Balances

  /** The variables the loop over the deltas changes: balances (zero entries still present), staker
      scores, the per-indexer sums, and the addresses whose balance became zero. */
  datatype Tally = Tally(balances: map<Address, int>, stakers: map<Binding, int>, sums: map<IndexerId, int>,
                         zero: set<Address>)

  function Add<K>(m: map<K, int>, k: K, v: int): map<K, int> {
    m[k := Get(m, k) + v]
  }

  function TallyStep(t: Tally, a: Address, v: int, binds: Bindings): Tally {
    if v == 0 then t else
      var t' := t.(balances := Add(t.balances, a, v),
                   zero := if Get(t.balances, a) + v == 0 then t.zero + {a} else t.zero);
      if a in binds then
        t'.(stakers := Add(t'.stakers, binds[a], v), sums := Add(t'.sums, binds[a].indexer, v))
      else t'
  }

  function AddAll(bal: map<Address, int>, d: map<Address, int>): map<Address, int> {
    map a | a in bal.Keys + d.Keys && (a in bal || d[a] != 0) :: Get(bal, a) + Get(d, a)
  }

  function ZeroAfter(bal: map<Address, int>, d: map<Address, int>): set<Address> {
    set a | a in d && d[a] != 0 && Get(bal, a) + d[a] == 0
  }

  ghost function TallyAfter(bal: map<Address, int>, z: map<Binding, int>, binds: Bindings, d: map<Address,
                            int>): Tally {
    Tally(AddAll(bal, d), AddGroups(z, binds, d), AddGroups(map[], IndexerOf(binds), d), ZeroAfter(bal, d))
  }

  lemma GroupSumInsert<G>(d: map<Address, int>, groups: map<Address, G>, g: G, a: Address, v: int)
    requires a !in d
    ensures GroupSum(d[a := v], groups, g) == GroupSum(d, groups, g) + if a in groups && groups[a] == g then v else 0
  {
    var d' := d[a := v];
    if a in groups && groups[a] == g {
      assert Members(d', groups, g) == Members(d, groups, g)[a := v];
      SumUpdate(Members(d, groups, g), a, v);
    } else {
      assert Members(d', groups, g) == Members(d, groups, g);
    }
  }

  lemma AddGroupsInsert<G>(m: map<G, int>, groups: map<Address, G>, d: map<Address, int>, a: Address, v: int)
    requires a !in d && v != 0
    ensures AddGroups(m, groups, d[a := v]) ==
            if a in groups then Add(AddGroups(m, groups, d), groups[a], v) else AddGroups(m, groups, d)
  {
    hide GroupSum, Touched, AddGroups;
    var x, y := AddGroups(m, groups, d), AddGroups(m, groups, d[a := v]);
    AddGroupsKeys(m, groups, d);
    AddGroupsKeys(m, groups, d[a := v]);
    TouchedInsert(groups, d, a, v);
    var z := if a in groups then Add(x, groups[a], v) else x;
    assert y.Keys == z.Keys;
    forall g | g in y ensures y[g] == z[g] {
      AddGroupsAt(m, groups, d, g);
      AddGroupsAt(m, groups, d[a := v], g);
      GroupSumInsert(d, groups, g, a, v);
    }
    SameMap(y, z);
  }

  lemma AddGroupsKeys<G>(m: map<G, int>, groups: map<Address, G>, d: map<Address, int>)
    ensures AddGroups(m, groups, d).Keys == m.Keys + Touched(groups, d)
  {
  }

  lemma AddGroupsAt<G>(m: map<G, int>, groups: map<Address, G>, d: map<Address, int>, g: G)
    ensures Get(AddGroups(m, groups, d), g) == Get(m, g) + GroupSum(d, groups, g)
  {
    hide GroupSum;
    if g !in Touched(groups, d) {
      UntouchedGroup(groups, d, g);
    }
  }

  lemma SameMap<K, V>(x: map<K, V>, y: map<K, V>)
    requires x.Keys == y.Keys && forall k :: k in x ==> x[k] == y[k]
    ensures x == y
  {
  }

  lemma TouchedInsert<G>(groups: map<Address, G>, d: map<Address, int>, a: Address, v: int)
    requires a !in d
    ensures Touched(groups, d[a := v]) == Touched(groups, d) + if v != 0 && a in groups then {groups[a]} else {}
  {
    var d' := d[a := v];
    forall g | g in Touched(groups, d) ensures g in Touched(groups, d') {
      var b :| b in d && d[b] != 0 && b in groups && groups[b] == g;
      assert d'[b] == d[b];
    }
    if v != 0 && a in groups {
      assert d'[a] != 0;
    }
  }

  lemma AddGroupsZero<G>(m: map<G, int>, groups: map<Address, G>, d: map<Address, int>, a: Address)
    requires a !in d
    ensures AddGroups(m, groups, d[a := 0]) == AddGroups(m, groups, d)
  {
    hide GroupSum;
    forall g ensures GroupSum(d[a := 0], groups, g) == GroupSum(d, groups, g) {
      GroupSumInsert(d, groups, g, a, 0);
    }
    TouchedInsert(groups, d, a, 0);
  }

  /** One more address of the delta map, in any order. */
  lemma TallyStepAny(bal: map<Address, int>, z: map<Binding, int>, binds: Bindings, d: map<Address, int>, a: Address,
                     v: int)
    requires a !in d
    ensures TallyStep(TallyAfter(bal, z, binds, d), a, v, binds) == TallyAfter(bal, z, binds, d[a := v])
  {
    hide AddGroups, GroupSum, AddAll, ZeroAfter, IndexerOf;
    var none: map<IndexerId, int> := map[];
    AddAllInsert(bal, d, a, v);
    IndexerOfBinding(binds, a);
    if v == 0 {
      AddGroupsZero(z, binds, d, a);
      AddGroupsZero(none, IndexerOf(binds), d, a);
    } else {
      AddGroupsInsert(z, binds, d, a, v);
      AddGroupsInsert(none, IndexerOf(binds), d, a, v);
    }
  }

  lemma IndexerOfBinding(binds: Bindings, a: Address)
    ensures a in binds <==> a in IndexerOf(binds)
    ensures a in binds ==> IndexerOf(binds)[a] == binds[a].indexer
  {
  }

  lemma AddAllInsert(bal: map<Address, int>, d: map<Address, int>, a: Address, v: int)
    requires a !in d
    ensures Get(AddAll(bal, d), a) == Get(bal, a)
    ensures AddAll(bal, d[a := v]) == if v == 0 then AddAll(bal, d) else Add(AddAll(bal, d), a, v)
    ensures ZeroAfter(bal, d[a := v])
            == if v != 0 && Get(bal, a) + v == 0 then ZeroAfter(bal, d) + {a} else ZeroAfter(bal, d)
  {
    hide AddAll, ZeroAfter;
    AddAllGet(bal, d, a);
    AddAllUpdate(bal, d, a, v);
    ZeroAfterUpdate(bal, d, a, v);
  }

  lemma AddAllGet(bal: map<Address, int>, d: map<Address, int>, a: Address)
    requires a !in d
    ensures Get(AddAll(bal, d), a) == Get(bal, a)
  {
  }

  lemma AddAllUpdate(bal: map<Address, int>, d: map<Address, int>, a: Address, v: int)
    requires a !in d
    ensures AddAll(bal, d[a := v]) == if v == 0 then AddAll(bal, d) else Add(AddAll(bal, d), a, v)
  {
    if v == 0 {
      assert AddAll(bal, d[a := v]) == AddAll(bal, d);
    } else {
      assert AddAll(bal, d[a := v]) == Add(AddAll(bal, d), a, v);
    }
  }

  lemma ZeroAfterUpdate(bal: map<Address, int>, d: map<Address, int>, a: Address, v: int)
    requires a !in d
    ensures ZeroAfter(bal, d[a := v])
            == if v != 0 && Get(bal, a) + v == 0 then ZeroAfter(bal, d) + {a} else ZeroAfter(bal, d)
  {
  }

  lemma TallyStart(bal: map<Address, int>, z: map<Binding, int>, binds: Bindings)
    ensures TallyAfter(bal, z, binds, map[]) == Tally(bal, z, map[], {})
  {
    var none: map<Address, int> := map[];
    forall b: Binding ensures GroupSum(none, binds, b) == 0 {
      assert Members(none, binds, b) == none;
    }
    assert AddGroups(z, binds, none) == z;
    assert AddGroups(map[], IndexerOf(binds), none) == map[];
    assert AddAll(bal, none) == bal;
  }

  // ---- the loop over the touched indexers ----

  function BookTotals(tot: map<IndexerId, int>, sums: map<IndexerId, int>, done: set<IndexerId>): map<IndexerId, int>
    requires done <= sums.Keys
  {
    map i | i in tot.Keys + done :: Get(tot, i) + if i in done then sums[i] else 0
  }

  lemma BookStepAny(tot: map<IndexerId, int>, sums: map<IndexerId, int>, z: map<Binding, int>, done: set<IndexerId>,
                    i: IndexerId)
    requires done <= sums.Keys && i in sums && i !in done
    ensures Add(BookTotals(tot, sums, done), i, sums[i]) == BookTotals(tot, sums, done + {i})
    ensures Prune(Prune(z, done), {i}) == Prune(z, done + {i})
  {
  }

  lemma BookStart(tot: map<IndexerId, int>, sums: map<IndexerId, int>, z: map<Binding, int>)
    ensures BookTotals(tot, sums, {}) == tot && Prune(z, {}) == z
  {
  }

  // ---- the closed form ----

  lemma ApplyClosedForm(bal: map<Address, int>, tot: map<IndexerId, int>, z: map<Binding, int>, binds: Bindings,
                        d: map<Address, int>)
    ensures
      var t := TallyAfter(bal, z, binds, d);
      && t.balances - t.zero == AddDeltas(bal, d)
      && BookTotals(tot, t.sums, t.sums.Keys) == AddTotals(tot, binds, d)
      && Prune(t.stakers, t.sums.Keys) == AddStakers(z, binds, d)
  {
    hide GroupSum, AddDeltas, AddTotals, AddStakers, AddAll, ZeroAfter, BookTotals, Prune;
    DeltasClosedForm(bal, d);
    TotalsClosedForm(tot, binds, d);
    StakersClosedForm(z, binds, d);
  }

  lemma DeltasClosedForm(bal: map<Address, int>, d: map<Address, int>)
    ensures AddAll(bal, d) - ZeroAfter(bal, d) == AddDeltas(bal, d)
  {
  }

  lemma TotalsClosedForm(tot: map<IndexerId, int>, binds: Bindings, d: map<Address, int>)
    ensures
      var sums := AddGroups(map[], IndexerOf(binds), d);
      BookTotals(tot, sums, sums.Keys) == AddTotals(tot, binds, d)
  {
    hide GroupSum;
    forall i | i !in Touched(IndexerOf(binds), d) ensures GroupSum(d, IndexerOf(binds), i) == 0 {
      UntouchedGroup(IndexerOf(binds), d, i);
    }
  }

  lemma StakersClosedForm(z: map<Binding, int>, binds: Bindings, d: map<Address, int>)
    ensures
      var sums := AddGroups(map[], IndexerOf(binds), d);
      Prune(AddGroups(z, binds, d), sums.Keys) == AddStakers(z, binds, d)
  {
    hide GroupSum;
    var none: map<IndexerId, int> := map[];
    assert AddGroups(none, IndexerOf(binds), d).Keys == Touched(IndexerOf(binds), d);
  }
}
