/** What a whole allocation adds to the users' counters and to the reward table, against the block reward. */
module RewardCredits {
  import opened Maps
  import opened Ledger
  import opened Splits
  import opened Rewards
  import opened RewardFlow

  // ---- the per-binding payments add up to the per-indexer ones ----

  lemma {:induction false} PaidOneIndexer(input: Inputs, noise: Noise, s: set<Binding>, i: IndexerId,
                                          users: set<Address>)
    requires forall u :: u in users ==> u in StakesOf(input, i)
    requires forall b :: b in s ==> b.indexer != i
    ensures Sum(Paid(input, noise, s + BindingsOf(i, users))) ==
            Sum(Paid(input, noise, s)) + Sum(Only(StakerPayouts(input, noise, i), users))
    decreases |users|
  {
    hide Sum, StakerPayouts;
    var payouts := StakerPayouts(input, noise, i);
    if users == {} {
      assert s + BindingsOf(i, {}) == s;
      assert Only(payouts, {}) == map[];
      SumAllZero<Address>(map[]);
    } else {
      var u :| u in users;
      var rest := users - {u};
      PaidOneIndexer(input, noise, s, i, rest);
      var before := s + BindingsOf(i, rest);
      assert s + BindingsOf(i, users) == before + {Binding(i, u)};
      PaidStep(input, noise, before, Binding(i, u));
      SumUpdate(Paid(input, noise, before), Binding(i, u), payouts[u]);
      OnlyStep(payouts, rest, u);
      assert rest + {u} == users;
      SumUpdate(Only(payouts, rest), u, payouts[u]);
    }
  }

  lemma {:induction false} PaidAddsUp(input: Inputs, noise: Noise, done: set<IndexerId>)
    requires forall i :: i in done ==> i in Active(input, noise)
    ensures Sum(Paid(input, noise, ActiveBindings(input, noise, done))) == Sum(Only(PaidPerIndexer(input, noise), done))
    decreases |done|
  {
    hide Sum, StakerPayouts, Active, Paid, ActiveBindings;
    if done == {} {
      NothingPaid(input, noise);
    } else {
      var i :| i in done;
      var rest := done - {i};
      PaidAddsUp(input, noise, rest);
      var users := StakesOf(input, i).Keys;
      OthersBindings(input, noise, rest, i);
      PaidOneIndexer(input, noise, ActiveBindings(input, noise, rest), i, users);
      AllBindings(input, noise, rest, i, users);
      assert rest + {i} == done;
      OnlyWhole(StakerPayouts(input, noise, i), users);
      OnlyStep(PaidPerIndexer(input, noise), rest, i);
      SumUpdate(Only(PaidPerIndexer(input, noise), rest), i, Sum(StakerPayouts(input, noise, i)));
    }
  }

  lemma NothingPaid(input: Inputs, noise: Noise)
    ensures Sum(Paid(input, noise, ActiveBindings(input, noise, {}))) == 0
    ensures Sum(Only(PaidPerIndexer(input, noise), {})) == 0
  {
    hide Active, PaidPerIndexer;
    assert ActiveBindings(input, noise, {}) == {};
    assert Paid(input, noise, {}) == map[];
    assert Only(PaidPerIndexer(input, noise), {}) == map[];
  }

  lemma OthersBindings(input: Inputs, noise: Noise, done: set<IndexerId>, i: IndexerId)
    requires i !in done
    ensures forall b :: b in ActiveBindings(input, noise, done) ==> b.indexer != i
  {
    hide Active;
  }

  // ---- the per-user counters add up to the payments ----

  lemma AllZero<K>(totals: map<Address, int>)
    requires forall u :: Get(totals, u) == 0
    ensures Sum(totals) == 0 && Sum<K>(map[]) == 0
  {
    forall u | u in totals ensures totals[u] == 0 { assert Get(totals, u) == 0; }
    SumAllZero(totals);
  }

  lemma WithoutOne<K>(m: map<K, int>, k: K)
    requires k in m
    ensures k !in m - {k} && m == (m - {k})[k := m[k]]
  {
  }

  lemma {:induction false} StakerTotalsAddUp(paid: map<Binding, int>, totals: map<Address, int>)
    requires forall u :: Get(totals, u) == PaidTo(paid, u)
    ensures Sum(totals) == Sum(paid)
    decreases |paid|
  {
    hide PaidTo, Sum, Get;
    if paid == map[] {
      forall u ensures Get(totals, u) == 0 { NothingOwed(map[], u); }
      AllZero<Binding>(totals);
    } else {
      var b :| b in paid;
      var rest := paid - {b};
      WithoutOne(paid, b);
      var before := Bump(totals, b.user, -paid[b]);
      forall u ensures Get(before, u) == PaidTo(rest, u) {
        PaidToStep(rest, b, paid[b], u);
      }
      StakerTotalsAddUp(rest, before);
      SumRemove(paid, b);
      SumUpdate(totals, b.user, Get(totals, b.user) - paid[b]);
    }
  }

  lemma {:induction false} OwnerTotalsAddUp(rows: map<IndexerId, int>, owners: map<IndexerId, Address>,
                                            totals: map<Address, int>)
    requires rows.Keys <= owners.Keys
    requires forall u :: Get(totals, u) == OwnedBy(rows, owners, u)
    ensures Sum(totals) == Sum(rows)
    decreases |rows|
  {
    hide OwnedBy, Sum, Get;
    if rows == map[] {
      forall u ensures Get(totals, u) == 0 { NothingOwed(owners, u); }
      AllZero<IndexerId>(totals);
    } else {
      var i :| i in rows;
      var rest := rows - {i};
      WithoutOne(rows, i);
      var before := Bump(totals, owners[i], -rows[i]);
      forall u ensures Get(before, u) == OwnedBy(rest, owners, u) {
        OwnedByStep(rest, owners, i, rows[i], u);
      }
      OwnerTotalsAddUp(rest, owners, before);
      SumRemove(rows, i);
      SumUpdate(totals, owners[i], Get(totals, owners[i]) - rows[i]);
    }
  }

  lemma OwnerRowsWithinOwners(input: Inputs, noise: Noise)
    ensures Sum(OwnerRows(input, noise, Active(input, noise).Keys)) <= Sum(Owners(input, noise))
    ensures Active(input, noise).Keys <= input.owners.Keys ==>
              Sum(OwnerRows(input, noise, Active(input, noise).Keys)) == Sum(Owners(input, noise))
  {
    hide Active, Owner, Sum;
    var rows := OwnerRows(input, noise, Active(input, noise).Keys);
    var padded := map i | i in Active(input, noise) :: Get(rows, i);
    SumAgree(rows, padded);
    SumAtMost(padded, Owners(input, noise));
    if Active(input, noise).Keys <= input.owners.Keys {
      assert padded == Owners(input, noise);
    }
  }

  // ---- the whole block ----

  /** All increments of the users' counters. */
  ghost function Credited(a: Allocation): int {
    Sum(a.ownerTotals) + Sum(a.stakerTotals)
  }

  ghost predicate AllocatesAll(input: Inputs, noise: Noise, a: Allocation) {
    var everyone := Active(input, noise).Keys;
    Allocated(input, noise, everyone, ActiveBindings(input, noise, everyone), a)
  }

  /** The users are credited what the two layers hand out, except owner parts of indexers without a user
      address; the counters agree with the per-indexer payments. */
  lemma CreditedIsDistributed(input: Inputs, noise: Noise, a: Allocation)
    requires AllocatesAll(input, noise, a)
    ensures Credited(a) == Sum(a.ownerRows) + Sum(a.stakerPaid)
    ensures Credited(a) <= Distributed(input, noise)
    ensures Active(input, noise).Keys <= input.owners.Keys ==> Credited(a) == Distributed(input, noise)
  {
    hide Active, Owner, Sum, Paid, ActiveBindings, PaidTo, OwnedBy, First, StakerPayouts, WithStakeAddress, Only;
    var everyone := Active(input, noise).Keys;
    PaidAddsUp(input, noise, everyone);
    OnlyWhole(PaidPerIndexer(input, noise), everyone);
    StakerTotalsAddUp(a.stakerPaid, a.stakerTotals);
    OwnerTotalsAddUp(a.ownerRows, input.owners, a.ownerTotals);
    OwnerRowsWithinOwners(input, noise);
  }

  /** In truncation mode the counters of all users together never grow by more than the unlocked reward,
      which is at most the block reward. */
  lemma CreditsWithinReward(input: Inputs, noise: Noise, err: real, a: Allocation)
    requires AllocatesAll(input, noise, a)
    requires input.truncate && NoiseWithin(noise, err) && EPSILON + err < 1.0 && FewEnough(input, noise, err)
    ensures Credited(a) <= Sum(a.rewardTotals) <= Unlocked(input, noise) <= input.reward
  {
    hide Active, Owner, Sum, Paid, ActiveBindings, PaidTo, OwnedBy, First, StakerPayouts, WithStakeAddress, Only,
         Credited, Distributed, FewEnough;
    CreditedIsDistributed(input, noise, a);
    TruncationNeverOverAllocates(input, noise, err);
    OnlyWhole(First(input, noise), Active(input, noise).Keys);
  }
}
