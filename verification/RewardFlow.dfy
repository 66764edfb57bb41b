/** The allocation of one block's reward as the program runs it: loops over maps in any order that
    accumulate weights, counters and rows. */
module RewardFlow {
  import opened Maps
  import opened Ledger
  import opened Splits
  import opened Rewards

  /** The increments one block stages. `stakerPaid` is the per-(indexer, user) sorted-set increment,
      `stakerTotals` the per-user counter increment; the row maps are the reward table's new rows. */
  datatype Allocation = Allocation(
    rewardTotals: map<IndexerId, int>,
    selfTotals: map<IndexerId, int>,
    ownerTotals: map<Address, int>,
    ownerRows: map<IndexerId, int>,
    stakerPaid: map<Binding, int>,
    stakerTotals: map<Address, int>,
    stakerRows: map<Binding, int>)

  const NOTHING: Allocation := Allocation(map[], map[], map[], map[], map[], map[], map[])

  // ---- the specification ----

  ghost function ActiveBindings(input: Inputs, noise: Noise, done: set<IndexerId>): set<Binding> {
    set i, u | i in done && i in Active(input, noise) && u in StakesOf(input, i) :: Binding(i, u)
  }

  ghost function StakerReward(input: Inputs, noise: Noise, b: Binding): nat {
    if b.user in StakesOf(input, b.indexer) then StakerPayouts(input, noise, b.indexer)[b.user] else 0
  }

  /** The positive staker rewards among the bindings s. */
  ghost function Paid(input: Inputs, noise: Noise, s: set<Binding>): map<Binding, int> {
    map b | b in s && StakerReward(input, noise, b) > 0 :: StakerReward(input, noise, b)
  }

  function WithStakeAddress(paid: map<Binding, int>, bound: set<Binding>): map<Binding, int> {
    map b | b in paid && b in bound :: paid[b]
  }

  /** What user u gets over all indexers. */
  ghost function PaidTo(paid: map<Binding, int>, u: Address): int {
    Sum(map b | b in paid && b.user == u :: paid[b])
  }

  ghost function OwnerRows(input: Inputs, noise: Noise, done: set<IndexerId>): map<IndexerId, int> {
    map i | i in done && i in Active(input, noise) && i in input.owners &&
      Owner(input, noise, i) > 0 :: Owner(input, noise, i)
  }

  ghost function OwnedBy(rows: map<IndexerId, int>, owners: map<IndexerId, Address>, u: Address): int {
    Sum(map i | i in rows && i in owners && owners[i] == u :: rows[i])
  }

  /** The allocation after the indexers `done` and, beyond them, the bindings `extra`. */
  ghost predicate Allocated(input: Inputs, noise: Noise, done: set<IndexerId>, paid: set<Binding>, a: Allocation) {
    && a.rewardTotals == Only(First(input, noise), done)
    && a.selfTotals == Only(Owners(input, noise), done)
    && a.ownerRows == OwnerRows(input, noise, done)
    && a.stakerPaid == Paid(input, noise, paid)
    && a.stakerRows == WithStakeAddress(a.stakerPaid, input.bound)
    && (forall u :: Get(a.ownerTotals, u) == OwnedBy(a.ownerRows, input.owners, u))
    && (forall u :: Get(a.stakerTotals, u) == PaidTo(a.stakerPaid, u))
  }

  /** What is staged for indexer i and its stakers is, apart from quantization, the part of its effective stake, the
      owner's ratio of that part, and the rest by stake. */
  ghost predicate Shared(input: Inputs, noise: Noise, err: real, a: Allocation, i: IndexerId) {
    && i in a.rewardTotals && i in a.selfTotals && Raw(input, i) > 0
    && (i in input.percents && Sum(Active(input, noise)) > 0 ==>
          var part := Effective(input, i) as real / Sum(Active(input, noise)) as real;
          Near(1, Times(Unlocked(input, noise) as real, part), a.rewardTotals[i], err, input.truncate))
    && (i in input.ratios && 0.0 <= input.ratios[i] <= 1.0 ==>
          Near(1, Times(a.rewardTotals[i] as real, input.ratios[i]), a.selfTotals[i], err, input.truncate))
    && forall u :: u in StakesOf(input, i) ==>
                   var part := StakesOf(input, i)[u] as real / Raw(input, i) as real;
                   Near(1, Times((a.rewardTotals[i] - a.selfTotals[i]) as real, part),
                        Get(a.stakerPaid, Binding(i, u)), err, input.truncate)
  }

  ghost predicate AllWithin(noise: Noise, err: real) {
    NoiseWithin(noise, err) && Within(noise.owner, err)
  }

  lemma EveryoneShares(input: Inputs, noise: Noise, err: real, a: Allocation, i: IndexerId)
    requires AllWithin(noise, err) && i in Active(input, noise)
    requires var everyone := Active(input, noise).Keys;
             Allocated(input, noise, everyone, ActiveBindings(input, noise, everyone), a)
    ensures Shared(input, noise, err, a, i)
  {
    hide Near, First, Owner, Effective, Unlocked, Sum, StakerPayouts, Raw, Active, OwnerRows, OwnedBy, PaidTo, Times;
    assert a.rewardTotals[i] == First(input, noise)[i] && a.selfTotals[i] == Owner(input, noise, i);
    FirstNear(input, noise, err, i);
    if i in input.ratios && 0.0 <= input.ratios[i] <= 1.0 {
      OwnerNear(input, noise, err, i);
    }
    RawPositive(input, noise, i);
    forall u | u in StakesOf(input, i)
      ensures var part := StakesOf(input, i)[u] as real / Raw(input, i) as real;
              Near(1, Times((First(input, noise)[i] - Owner(input, noise, i)) as real, part),
                   Get(a.stakerPaid, Binding(i, u)), err, input.truncate)
    {
      StakerNear(input, noise, err, i, u);
      assert Binding(i, u) in ActiveBindings(input, noise, Active(input, noise).Keys);
      assert Get(a.stakerPaid, Binding(i, u)) == StakerPayouts(input, noise, i)[u];
    }
  }

  lemma RawPositive(input: Inputs, noise: Noise, i: IndexerId)
    requires i in Active(input, noise)
    ensures Raw(input, i) > 0
  {
  }

  // ---- loop steps ----

  lemma OnlyStep<K, V>(m: map<K, V>, s: set<K>, k: K)
    requires k in m
    ensures Only(m, s + {k}) == Only(m, s)[k := m[k]]
  {
  }

  lemma PaidToStep(paid: map<Binding, int>, b: Binding, v: int, u: Address)
    requires b !in paid
    ensures PaidTo(paid[b := v], u) == PaidTo(paid, u) + (if b.user == u then v else 0)
  {
    var m := map c | c in paid && c.user == u :: paid[c];
    var n := map c | c in paid[b := v] && c.user == u :: paid[b := v][c];
    if b.user == u {
      assert n == m[b := v];
      SumUpdate(m, b, v);
    } else {
      assert n == m;
    }
  }

  lemma OwnedByStep(rows: map<IndexerId, int>, owners: map<IndexerId, Address>, i: IndexerId, v: int, u: Address)
    requires i !in rows && i in owners
    ensures OwnedBy(rows[i := v], owners, u) == OwnedBy(rows, owners, u) + (if owners[i] == u then v else 0)
  {
    var m := map j | j in rows && j in owners && owners[j] == u :: rows[j];
    var n := map j | j in rows[i := v] && j in owners && owners[j] == u :: rows[i := v][j];
    if owners[i] == u {
      assert n == m[i := v];
      SumUpdate(m, i, v);
    } else {
      assert n == m;
    }
  }

  function Bump(m: map<Address, int>, k: Address, v: int): (r: map<Address, int>)
    ensures forall j :: Get(r, j) == Get(m, j) + (if j == k then v else 0)
  {
    m[k := Get(m, k) + v]
  }

  function PayStaker(a: Allocation, b: Binding, v: int, bound: set<Binding>): Allocation {
    a.(stakerPaid := a.stakerPaid[b := v],
       stakerTotals := Bump(a.stakerTotals, b.user, v),
       stakerRows := if b in bound then a.stakerRows[b := v] else a.stakerRows)
  }

  function PayIndexer(a: Allocation, i: IndexerId, first: int, own: int, owners: map<IndexerId, Address>): Allocation {
    var counted := a.(rewardTotals := a.rewardTotals[i := first], selfTotals := a.selfTotals[i := own]);
    if own > 0 && i in owners then
      counted.(ownerRows := a.ownerRows[i := own], ownerTotals := Bump(a.ownerTotals, owners[i], own))
    else
      counted
  }

  lemma PaidStep(input: Inputs, noise: Noise, s: set<Binding>, b: Binding)
    requires b !in s
    ensures b !in Paid(input, noise, s)
    ensures StakerReward(input, noise, b) > 0 ==>
              Paid(input, noise, s + {b}) == Paid(input, noise, s)[b := StakerReward(input, noise, b)]
    ensures StakerReward(input, noise, b) == 0 ==> Paid(input, noise, s + {b}) == Paid(input, noise, s)
  {
    hide StakerReward;
  }

  lemma StakerStep(input: Inputs, noise: Noise, done: set<IndexerId>, s: set<Binding>, b: Binding, a: Allocation)
    requires Allocated(input, noise, done, s, a) && b !in s
    ensures var v := StakerReward(input, noise, b);
            Allocated(input, noise, done, s + {b}, if v == 0 then a else PayStaker(a, b, v, input.bound))
  {
    hide StakerReward, Paid, PaidTo, OwnedBy, First, Owners, OwnerRows;
    var v := StakerReward(input, noise, b);
    PaidStep(input, noise, s, b);
    if v > 0 {
      var r := PayStaker(a, b, v, input.bound);
      assert r.stakerRows == WithStakeAddress(r.stakerPaid, input.bound);
      forall u ensures Get(r.stakerTotals, u) == PaidTo(r.stakerPaid, u) {
        PaidToStep(a.stakerPaid, b, v, u);
      }
    }
  }

  lemma OwnerRowsStep(input: Inputs, noise: Noise, done: set<IndexerId>, i: IndexerId)
    requires i in Active(input, noise) && i !in done
    ensures i !in OwnerRows(input, noise, done)
    ensures OwnerRows(input, noise, done + {i}) ==
            if i in input.owners && Owner(input, noise, i) > 0
            then OwnerRows(input, noise, done)[i := Owner(input, noise, i)] else OwnerRows(input, noise, done)
  {
    hide Owner, Active;
  }

  lemma IndexerStep(input: Inputs, noise: Noise, done: set<IndexerId>, s: set<Binding>, i: IndexerId, a: Allocation)
    requires Allocated(input, noise, done, s, a) && i in Active(input, noise) && i !in done
    ensures Allocated(input, noise, done + {i}, s,
                      PayIndexer(a, i, First(input, noise)[i], Owner(input, noise, i), input.owners))
  {
    hide StakerReward, Paid, PaidTo, OwnedBy, First, OwnerRows, Owner, Active, WithStakeAddress, Only;
    var own := Owner(input, noise, i);
    OnlyStep(First(input, noise), done, i);
    OnlyStep(Owners(input, noise), done, i);
    OwnerRowsStep(input, noise, done, i);
    if own > 0 && i in input.owners {
      var r := PayIndexer(a, i, First(input, noise)[i], own, input.owners);
      forall u ensures Get(r.ownerTotals, u) == OwnedBy(r.ownerRows, input.owners, u) {
        OwnedByStep(a.ownerRows, input.owners, i, own, u);
      }
    }
  }

  // ---- the loops ----

  method SumStakes(stakes: map<Address, nat>) returns (raw: nat)
    ensures raw == Sum(stakes)
  {
    raw := 0;
    var todo := stakes.Keys;
    ghost var done: set<Address> := {};
    while todo != {}
      invariant done + todo == stakes.Keys && done !! todo
      invariant raw == Sum(Only(stakes, done))
      decreases |todo|
    {
      var u :| u in todo;
      OnlyStep(stakes, done, u);
      SumUpdate(Only(stakes, done), u, stakes[u]);
      raw := raw + stakes[u];
      todo := todo - {u};
      done := done + {u};
    }
    assert Only(stakes, done) == stakes;
  }

  ghost function Raws(input: Inputs): map<IndexerId, nat> {
    map i | i in Weights(input) :: Raw(input, i)
  }

  lemma WeighStep(input: Inputs, done: set<IndexerId>, i: IndexerId)
    requires i in input.percents
    ensures Effective(input, i) == 0 ==>
              Only(Weights(input), done + {i}) == Only(Weights(input), done) &&
                Only(Raws(input), done + {i}) == Only(Raws(input), done)
    ensures Effective(input, i) != 0 ==>
              && Only(Weights(input), done + {i}) == Only(Weights(input), done)[i := Effective(input, i)]
              && Only(Raws(input), done + {i}) == Only(Raws(input), done)[i := Raw(input, i)]
              && i !in Only(Weights(input), done - {i})
  {
    hide Raw, Effective;
    assert Effective(input, i) != 0 ==> i in Weights(input);
  }

  lemma OnlyWhole<K, V>(m: map<K, V>, s: set<K>)
    requires m.Keys <= s
    ensures Only(m, s) == m
  {
  }

  /** Weights of the indexers with a valid proof, raw stakes of the weighted ones, and the total weight. */
  method WeighIndexers(input: Inputs) returns (weights: map<IndexerId, nat>, raws: map<IndexerId, nat>, total: nat)
    ensures weights == Weights(input) && raws == Raws(input) && total == Sum(weights)
  {
    hide Weights, Raws, Sum, Only, Penalised;
    weights, raws, total := map[], map[], 0;
    var todo := input.percents.Keys;
    ghost var done: set<IndexerId> := {};
    NothingWeighed(input);
    while todo != {}
      invariant done + todo == input.percents.Keys && done !! todo
      invariant weights == Only(Weights(input), done) && raws == Only(Raws(input), done)
      invariant weights.Keys <= done && total == Sum(weights)
      decreases |todo|
    {
      var i :| i in todo;
      var raw := SumStakes(StakesOf(input, i));
      var effective := Penalised(raw, input.percents[i]);
      WeighStep(input, done, i);
      if effective != 0 {
        SumUpdate(weights, i, effective);
        weights, raws, total := weights[i := effective], raws[i := raw], total + effective;
      }
      todo := todo - {i};
      done := done + {i};
    }
    WeightsWithinPercents(input);
    OnlyWhole(Weights(input), done);
    OnlyWhole(Raws(input), done);
  }

  lemma NothingWeighed(input: Inputs)
    ensures Only(Weights(input), {}) == map[] && Only(Raws(input), {}) == map[]
    ensures Sum<IndexerId>(map[]) == 0
  {
  }

  lemma WeightsWithinPercents(input: Inputs)
    ensures Weights(input).Keys <= input.percents.Keys && Raws(input).Keys == Weights(input).Keys
  {
  }

  /** Splits one indexer's pool over its stakers. */
  method PayStakers(input: Inputs, noise: Noise, i: IndexerId, pool: nat, raw: nat, a: Allocation,
                    ghost done: set<IndexerId>)
    returns (r: Allocation)
    requires i in Active(input, noise) && i !in done && pool == Pool(input, noise, i) && raw == Raw(input, i)
    requires Allocated(input, noise, done + {i}, ActiveBindings(input, noise, done), a)
    ensures Allocated(input, noise, done + {i}, ActiveBindings(input, noise, done + {i}), r)
  {
    hide Allocated, ActiveBindings, StakerReward, Pool, Active, Raw, Payout;
    r := a;
    var stakes := StakesOf(input, i);
    var todo := stakes.Keys;
    ghost var s := ActiveBindings(input, noise, done);
    ghost var paid: set<Address> := {};
    NoneYet(s, i);
    while todo != {}
      invariant paid + todo == stakes.Keys && paid !! todo
      invariant Allocated(input, noise, done + {i}, s + BindingsOf(i, paid), r)
      decreases |todo|
    {
      var u :| u in todo;
      var reward := 0;
      OneStakerReward(input, noise, i, u);
      if stakes[u] != 0 && pool != 0 {
        reward := Payout(pool, stakes[u], raw, Error(StakerNoise(noise, i), u), input.truncate);
      }
      NewBinding(input, noise, done, i, paid, u);
      StakerStep(input, noise, done + {i}, s + BindingsOf(i, paid), Binding(i, u), r);
      if reward != 0 {
        r := PayStaker(r, Binding(i, u), reward, input.bound);
      }
      todo := todo - {u};
      paid := paid + {u};
    }
    AllBindings(input, noise, done, i, paid);
  }

  ghost function BindingsOf(i: IndexerId, users: set<Address>): set<Binding> {
    set u | u in users :: Binding(i, u)
  }

  lemma NoneYet(s: set<Binding>, i: IndexerId)
    ensures s + BindingsOf(i, {}) == s
  {
  }

  lemma OneStakerReward(input: Inputs, noise: Noise, i: IndexerId, u: Address)
    requires i in Active(input, noise) && u in StakesOf(input, i)
    ensures Raw(input, i) > 0
    ensures StakerReward(input, noise, Binding(i, u)) ==
            Payout(Pool(input, noise, i), StakesOf(input, i)[u], Raw(input, i), Error(StakerNoise(noise, i), u),
                   input.truncate)
    ensures StakesOf(input, i)[u] == 0 || Pool(input, noise, i) == 0 ==> StakerReward(input, noise, Binding(i, u)) == 0
  {
    hide Pool;
  }

  lemma NewBinding(input: Inputs, noise: Noise, done: set<IndexerId>, i: IndexerId, paid: set<Address>, u: Address)
    requires i !in done && u !in paid
    ensures Binding(i, u) !in ActiveBindings(input, noise, done) + BindingsOf(i, paid)
    ensures ActiveBindings(input, noise, done) + BindingsOf(i, paid) + {Binding(i, u)} ==
            ActiveBindings(input, noise, done) + BindingsOf(i, paid + {u})
  {
    hide Active;
  }

  lemma AllBindings(input: Inputs, noise: Noise, done: set<IndexerId>, i: IndexerId, paid: set<Address>)
    requires i in Active(input, noise) && paid == StakesOf(input, i).Keys
    ensures ActiveBindings(input, noise, done) + BindingsOf(i, paid) == ActiveBindings(input, noise, done + {i})
  {
    hide Active;
  }

  /** What one block stages, in any order of the map loops: exactly the specified increments and rows, and
      nothing at all when no indexer has weight or nothing is unlocked. */
  method AllocateReward(input: Inputs, noise: Noise) returns (unlocked: nat, a: Allocation)
    ensures unlocked == Unlocked(input, noise)
    ensures var everyone := Active(input, noise).Keys;
            Allocated(input, noise, everyone, ActiveBindings(input, noise, everyone), a)
    ensures Active(input, noise) == map[] ==> a == NOTHING
    ensures forall err, i :: AllWithin(noise, err) && i in Active(input, noise) ==> Shared(input, noise, err, a, i)
  {
    hide Allocated, ActiveBindings, Payout, Unlocked, Weights, Raws, Raw, First, Owner, Pool, Sum, OwnerPart,
         PayIndexer, Shared, AllWithin;
    a := NOTHING;
    NothingAllocated(input, noise);
    unlocked := Unlocked(input, noise);
    var weights, raws, total := WeighIndexers(input);
    ActiveTotal(input, noise);
    if total == 0 || unlocked == 0 {
      NoneActive(input, noise);
      return;
    }
    SomeActive(input, noise);
    var todo := weights.Keys;
    ghost var done: set<IndexerId> := {};
    while todo != {}
      invariant done + todo == weights.Keys && done !! todo
      invariant Allocated(input, noise, done, ActiveBindings(input, noise, done), a)
      decreases |todo|
    {
      var i :| i in todo;
      OneIndexer(input, noise, i);
      var first := Payout(unlocked, weights[i], total, Error(noise.first, i), input.truncate);
      var own := OwnerPart(input, noise, i, first);
      IndexerStep(input, noise, done, ActiveBindings(input, noise, done), i, a);
      a := PayIndexer(a, i, first, own, input.owners);
      a := PayStakers(input, noise, i, first - own, raws[i], a, done);
      todo := todo - {i};
      done := done + {i};
    }
    forall err, i | AllWithin(noise, err) && i in Active(input, noise) ensures Shared(input, noise, err, a, i) {
      EveryoneShares(input, noise, err, a, i);
    }
  }

  lemma NothingAllocated(input: Inputs, noise: Noise)
    ensures Allocated(input, noise, {}, ActiveBindings(input, noise, {}), NOTHING)
  {
    hide Active;
    assert ActiveBindings(input, noise, {}) == {};
    assert OwnerRows(input, noise, {}) == map[];
    assert Paid(input, noise, {}) == map[];
    forall u ensures OwnedBy(map[], input.owners, u) == 0 && PaidTo(map[], u) == 0 {
      NothingOwed(input.owners, u);
    }
  }

  lemma NothingOwed(owners: map<IndexerId, Address>, u: Address)
    ensures OwnedBy(map[], owners, u) == 0 && PaidTo(map[], u) == 0
  {
    var rows: map<IndexerId, int>, paid: map<Binding, int> := map[], map[];
    assert (map i | i in rows && i in owners && owners[i] == u :: rows[i]) == map[];
    assert (map b | b in paid && b.user == u :: paid[b]) == map[];
  }

  lemma NoneActive(input: Inputs, noise: Noise)
    requires Sum(Weights(input)) == 0 || Unlocked(input, noise) == 0
    ensures Active(input, noise) == map[] && Active(input, noise).Keys == {}
  {
    SumNonNegative(Weights(input));
  }

  lemma SomeActive(input: Inputs, noise: Noise)
    requires Sum(Weights(input)) != 0 && Unlocked(input, noise) != 0
    ensures Active(input, noise) == Weights(input) != map[]
  {
    hide Unlocked;
  }

  lemma OneIndexer(input: Inputs, noise: Noise, i: IndexerId)
    requires i in Active(input, noise)
    ensures Active(input, noise) == Weights(input) && Sum(Weights(input)) > 0
    ensures First(input, noise)[i] ==
            Payout(Unlocked(input, noise), Weights(input)[i], Sum(Weights(input)), Error(noise.first, i),
                   input.truncate)
    ensures Owner(input, noise, i) == OwnerPart(input, noise, i, First(input, noise)[i])
    ensures Pool(input, noise, i) == First(input, noise)[i] - Owner(input, noise, i)
    ensures i in Raws(input) && Raws(input)[i] == Raw(input, i)
  {
    hide Payout, Unlocked;
    ActiveTotal(input, noise);
  }
}
