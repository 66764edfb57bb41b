/** Block reward allocation: unlock a share of the block reward, split it over the indexers by effective
    stake, then split each indexer's part between its owner and its stakers by raw stake. */
module Rewards {
  import opened Maps
  import opened Ledger
  import opened Splits

  /** What one settlement reads. An indexer without an entry in `owners` has no user address; a binding
      outside `bound` has no stake address. `percents` holds the indexers with a valid proof. */
  datatype Inputs = Inputs(
    reward: nat,
    release: real,
    truncate: bool,
    percents: map<IndexerId, nat>,
    stakes: map<IndexerId, map<Address, nat>>,
    ratios: map<IndexerId, real>,
    owners: map<IndexerId, Address>,
    bound: set<Binding>)

  /** The floating-point error made in each quantized product. */
  datatype Noise = Noise(unlock: real, first: map<IndexerId, real>, owner: map<IndexerId, real>,
                         stakers: map<IndexerId, map<Address, real>>)

  ghost predicate NoiseWithin(noise: Noise, err: real) {
    && err >= 0.0 && -err <= noise.unlock <= err
    && Within(noise.first, err)
    && forall i :: i in noise.stakers ==> Within(noise.stakers[i], err)
  }

  function StakesOf(input: Inputs, i: IndexerId): map<Address, nat> {
    if i in input.stakes then input.stakes[i] else map[]
  }

  function StakerNoise(noise: Noise, i: IndexerId): map<Address, real> {
    if i in noise.stakers then noise.stakers[i] else map[]
  }

  ghost function Raw(input: Inputs, i: IndexerId): nat {
    SumNonNegative(StakesOf(input, i));
    Sum(StakesOf(input, i))
  }

  /** Stake after the delay penalty, rounded down. */
  function Penalised(raw: nat, percent: nat): nat {
    raw * percent / 100
  }

  ghost function Effective(input: Inputs, i: IndexerId): nat
    requires i in input.percents
  {
    Penalised(Raw(input, i), input.percents[i])
  }

  function Unlocked(input: Inputs, noise: Noise): nat {
    var percent := if input.release > 100.0 then 100.0 else input.release;
    if input.reward == 0 || percent <= 0.0 then 0
    else Quantize(Times(input.reward as real, percent) / 100.0 + noise.unlock, input.truncate)
  }

  ghost function Weights(input: Inputs): (w: map<IndexerId, nat>)
    ensures forall i :: i in w ==> w[i] > 0 && Raw(input, i) > 0
  {
    map i | i in input.percents && Effective(input, i) > 0 :: Effective(input, i)
  }

  /** The indexers that take part; none when nothing is unlocked. */
  ghost function Active(input: Inputs, noise: Noise): map<IndexerId, nat> {
    if Unlocked(input, noise) == 0 then map[] else Weights(input)
  }

  lemma ActiveTotal(input: Inputs, noise: Noise)
    ensures Sum(Active(input, noise)) >= 0
    ensures Active(input, noise) != map[] ==> Sum(Active(input, noise)) > 0
  {
    var w := Active(input, noise);
    SumNonNegative(w);
    if w != map[] {
      var i :| i in w;
      assert w[i] > 0;
    }
  }

  ghost function First(input: Inputs, noise: Noise): (r: map<IndexerId, nat>)
    ensures r.Keys == Active(input, noise).Keys
  {
    var w := Active(input, noise);
    ActiveTotal(input, noise);
    if w == map[] then map[] else Payouts(Unlocked(input, noise), w, Sum(w), noise.first, input.truncate)
  }

  function OwnerPart(input: Inputs, noise: Noise, i: IndexerId, first: nat): (r: nat)
    ensures r <= first
  {
    var ratio := if i in input.ratios then input.ratios[i] else 0.0;
    var part := Quantize(Times(first as real, ratio) + Error(noise.owner, i), input.truncate);
    if part > first then first else part
  }

  ghost function Owner(input: Inputs, noise: Noise, i: IndexerId): nat {
    if i in First(input, noise) then OwnerPart(input, noise, i, First(input, noise)[i]) else 0
  }

  ghost function Pool(input: Inputs, noise: Noise, i: IndexerId): nat {
    if i in First(input, noise) then First(input, noise)[i] - Owner(input, noise, i) else 0
  }

  /** What the stakers of indexer i get out of its pool. */
  ghost function StakerPayouts(input: Inputs, noise: Noise, i: IndexerId): (r: map<Address, nat>)
    ensures r.Keys == StakesOf(input, i).Keys
  {
    if Raw(input, i) == 0 then map u | u in StakesOf(input, i) :: 0
    else Payouts(Pool(input, noise, i), StakesOf(input, i), Raw(input, i), StakerNoise(noise, i), input.truncate)
  }

  // ---- everything handed out ----

  ghost function Owners(input: Inputs, noise: Noise): map<IndexerId, nat> {
    map i | i in Active(input, noise) :: Owner(input, noise, i)
  }

  ghost function Pools(input: Inputs, noise: Noise): map<IndexerId, int> {
    map i | i in Active(input, noise) :: Pool(input, noise, i)
  }

  ghost function PaidPerIndexer(input: Inputs, noise: Noise): map<IndexerId, int> {
    map i | i in Active(input, noise) :: Sum(StakerPayouts(input, noise, i))
  }

  ghost function StakerCounts(input: Inputs, noise: Noise): map<IndexerId, nat> {
    map i | i in Active(input, noise) :: |StakesOf(input, i)|
  }

  /** Owner parts plus staker parts, over all indexers. */
  ghost function Distributed(input: Inputs, noise: Noise): int {
    Sum(Owners(input, noise)) + Sum(PaidPerIndexer(input, noise))
  }

  /** Indexers plus stakers. */
  ghost function Participants(input: Inputs, noise: Noise): int {
    |Active(input, noise)| + Sum(StakerCounts(input, noise))
  }

  lemma FirstSplits(input: Inputs, noise: Noise)
    ensures Sum(First(input, noise)) == Sum(Owners(input, noise)) + Sum(Pools(input, noise))
  {
    SumPointwise(Owners(input, noise), Pools(input, noise), First(input, noise));
  }

  // ---- what each participant gets, apart from quantization ----

  /** The released part of the block reward, at most all of it. */
  lemma UnlockedNear(input: Inputs, noise: Noise, err: real)
    requires -err <= noise.unlock <= err
    ensures input.release <= 0.0 ==> Unlocked(input, noise) == 0
    ensures 0.0 < input.release <= 100.0 ==>
              Near(1, Times(input.reward as real, input.release) / 100.0, Unlocked(input, noise), err, input.truncate)
    ensures input.release > 100.0 ==> Near(1, input.reward as real, Unlocked(input, noise), err, input.truncate)
  {
    hide Quantize, Near, Times;
    var percent := if input.release > 100.0 then 100.0 else input.release;
    if percent > 0.0 {
      PercentOf(input.reward as real, percent);
      QuantizeNear(Times(input.reward as real, percent) / 100.0, noise.unlock, err, input.truncate);
      ZeroNear(err, input.truncate);
      Hundred(input.reward as real);
    }
  }

  lemma Hundred(r: real)
    ensures Times(r, 100.0) / 100.0 == r
  {
  }

  /** The stake that counts is the kept percent of the stake, rounded down. */
  lemma EffectiveIsPercent(input: Inputs, i: IndexerId)
    requires i in input.percents
    ensures 100 * Effective(input, i) <= Raw(input, i) * input.percents[i] < 100 * Effective(input, i) + 100
  {
    hide Raw;
  }

  /** An indexer's part is that of its effective stake in all effective stakes. */
  lemma FirstNear(input: Inputs, noise: Noise, err: real, i: IndexerId)
    requires i in Active(input, noise) && Within(noise.first, err)
    ensures Sum(Active(input, noise)) > 0 && i in input.percents
    ensures Near(1, Times(Unlocked(input, noise) as real,
                          Effective(input, i) as real / Sum(Active(input, noise)) as real),
                 First(input, noise)[i], err, input.truncate)
  {
    hide Sum, Unlocked, Near, Payout, Effective, Times;
    ActiveTotal(input, noise);
    PayoutShare(Unlocked(input, noise), Effective(input, i), Sum(Active(input, noise)), Error(noise.first, i), err,
                input.truncate);
  }

  /** The owner's commission is its ratio of the indexer's part. */
  lemma OwnerNear(input: Inputs, noise: Noise, err: real, i: IndexerId)
    requires i in Active(input, noise) && Within(noise.owner, err)
    requires i in input.ratios && 0.0 <= input.ratios[i] <= 1.0
    ensures Near(1, Times(First(input, noise)[i] as real, input.ratios[i]), Owner(input, noise, i), err,
                 input.truncate)
  {
    hide First, Active, Near, Quantize, Times;
    var first, e := First(input, noise)[i], Error(noise.owner, i);
    var exact := Times(first as real, input.ratios[i]);
    ShareOf(first as real, input.ratios[i]);
    QuantizeNear(exact, e, err, input.truncate);
    CappedNear(Quantize(exact + e, input.truncate), exact, first, err, input.truncate);
  }

  lemma ShareOf(x: real, ratio: real)
    requires x >= 0.0 && 0.0 <= ratio <= 1.0
    ensures 0.0 <= Times(x, ratio) <= x
  {
  }

  /** Without a commission ratio the owner gets nothing. */
  lemma NoRatioNoOwner(input: Inputs, noise: Noise, i: IndexerId)
    requires i !in input.ratios && i !in noise.owner
    ensures Owner(input, noise, i) == 0
  {
    hide First;
  }

  /** A staker's part is that of its stake in the indexer's stakes, out of what the owner leaves. */
  lemma StakerNear(input: Inputs, noise: Noise, err: real, i: IndexerId, u: Address)
    requires i in Active(input, noise) && u in StakesOf(input, i) && Within(StakerNoise(noise, i), err)
    ensures Raw(input, i) > 0
    ensures var left := First(input, noise)[i] - Owner(input, noise, i);
            Near(1, Times(left as real, StakesOf(input, i)[u] as real / Raw(input, i) as real),
                 StakerPayouts(input, noise, i)[u], err, input.truncate)
  {
    hide Near, Payout, Owner, First, Unlocked, Raw, Times;
    PayoutShare(Pool(input, noise, i), StakesOf(input, i)[u], Raw(input, i), Error(StakerNoise(noise, i), u), err,
                input.truncate);
  }

  // ---- truncation: nothing is over-allocated ----

  /** Few enough participants in every split for the added epsilons and errors to stay below one unit. */
  ghost predicate FewEnough(input: Inputs, noise: Noise, err: real) {
    && |Active(input, noise)| as real * (EPSILON + err) < 1.0
    && forall i :: i in Active(input, noise) ==> |StakesOf(input, i)| as real * (EPSILON + err) < 1.0
  }

  lemma UnlockedAtMostReward(input: Inputs, noise: Noise, err: real)
    requires -err <= noise.unlock <= err && (if input.truncate then EPSILON + err < 1.0 else err < 0.5)
    ensures Unlocked(input, noise) <= input.reward
  {
    var percent := if input.release > 100.0 then 100.0 else input.release;
    var r := input.reward as real;
    if percent > 0.0 {
      PercentOf(r, percent);
    }
  }

  lemma PercentOf(r: real, percent: real)
    requires r >= 0.0 && 0.0 < percent <= 100.0
    ensures 0.0 <= Times(r, percent) / 100.0 <= r
  {
    assert r * percent <= r * 100.0;
    assert r * percent >= 0.0;
  }

  lemma StakersWithinPool(input: Inputs, noise: Noise, err: real, i: IndexerId)
    requires input.truncate && NoiseWithin(noise, err) && FewEnough(input, noise, err)
    requires i in Active(input, noise)
    ensures Sum(StakerPayouts(input, noise, i)) <= Pool(input, noise, i)
  {
    hide Pool, Payouts, Sum;
    SplitNeverExceeds(Pool(input, noise, i), StakesOf(input, i), StakerNoise(noise, i), err);
  }

  lemma FirstWithinUnlocked(input: Inputs, noise: Noise, err: real)
    requires input.truncate && NoiseWithin(noise, err) && FewEnough(input, noise, err)
    ensures Sum(First(input, noise)) <= Unlocked(input, noise)
  {
    hide Payouts, Unlocked;
    ActiveTotal(input, noise);
    if Active(input, noise) != map[] {
      SplitNeverExceeds(Unlocked(input, noise), Active(input, noise), noise.first, err);
    }
  }

  /** Truncation mode never hands out more than is unlocked, and never unlocks more than the block reward. */
  lemma TruncationNeverOverAllocates(input: Inputs, noise: Noise, err: real)
    requires input.truncate && NoiseWithin(noise, err) && EPSILON + err < 1.0 && FewEnough(input, noise, err)
    ensures Distributed(input, noise) <= Sum(First(input, noise)) <= Unlocked(input, noise) <= input.reward
  {
    hide First, StakerPayouts, Pool, Unlocked, Sum, Owner;
    UnlockedAtMostReward(input, noise, err);
    FirstWithinUnlocked(input, noise, err);
    FirstSplits(input, noise);
    forall i | i in Active(input, noise) ensures Sum(StakerPayouts(input, noise, i)) <= Pool(input, noise, i) {
      StakersWithinPool(input, noise, err, i);
    }
    SumAtMost(PaidPerIndexer(input, noise), Pools(input, noise));
  }

  /** With exact arithmetic fewer than a billion participants in every split are few enough. */
  lemma BelowABillion(input: Inputs, noise: Noise)
    requires input.truncate && NoiseWithin(noise, 0.0)
    requires |Active(input, noise)| < 1_000_000_000
    requires forall i :: i in Active(input, noise) ==> |StakesOf(input, i)| < 1_000_000_000
    ensures Distributed(input, noise) <= Unlocked(input, noise) <= input.reward
  {
    hide Distributed, Unlocked, Active, First;
    TruncationNeverOverAllocates(input, noise, 0.0);
  }

  // ---- both modes: how much can be lost or added ----

  lemma StakersNearPool(input: Inputs, noise: Noise, err: real, i: IndexerId)
    requires NoiseWithin(noise, err) && i in Active(input, noise)
    ensures Near(|StakesOf(input, i)|, Pool(input, noise, i) as real, Sum(StakerPayouts(input, noise, i)), err,
                 input.truncate)
  {
    hide Pool, Payouts, Sum, Near;
    SplitNear(Pool(input, noise, i), StakesOf(input, i), StakerNoise(noise, i), err, input.truncate);
  }

  lemma FirstNearUnlocked(input: Inputs, noise: Noise, err: real)
    requires NoiseWithin(noise, err) && Active(input, noise) != map[]
    ensures Near(|Active(input, noise)|, Unlocked(input, noise) as real, Sum(First(input, noise)), err, input.truncate)
  {
    hide Payouts, Unlocked, Near;
    ActiveTotal(input, noise);
    SplitNear(Unlocked(input, noise), Active(input, noise), noise.first, err, input.truncate);
  }

  lemma StakersNearPools(input: Inputs, noise: Noise, err: real)
    requires NoiseWithin(noise, err)
    ensures Sum(StakerCounts(input, noise)) >= 0
    ensures Near(Sum(StakerCounts(input, noise)), Sum(Pools(input, noise)) as real, Sum(PaidPerIndexer(input, noise)),
                 err, input.truncate)
  {
    hide First, StakerPayouts, Pool, Unlocked, Sum, Owner, Near;
    forall i | i in Active(input, noise)
      ensures Near(StakerCounts(input, noise)[i], Pools(input, noise)[i] as real, PaidPerIndexer(input, noise)[i],
                   err, input.truncate)
    {
      StakersNearPool(input, noise, err, i);
    }
    SumsNear(StakerCounts(input, noise), Pools(input, noise), PaidPerIndexer(input, noise), err, input.truncate);
  }

  /** Everything handed out is within one quantization step per participant of what is unlocked. */
  lemma DistributedNearUnlocked(input: Inputs, noise: Noise, err: real)
    requires NoiseWithin(noise, err) && Active(input, noise) != map[]
    ensures Participants(input, noise) >= 1
    ensures Near(Participants(input, noise), Unlocked(input, noise) as real, Distributed(input, noise), err,
                 input.truncate)
  {
    hide First, Unlocked, Sum, Near, Owners, Pools, PaidPerIndexer, Active, StakerCounts;
    FirstNearUnlocked(input, noise, err);
    StakersNearPools(input, noise, err);
    FirstSplits(input, noise);
    NearShift(|Active(input, noise)|, Unlocked(input, noise) as real, Sum(Owners(input, noise)),
              Sum(Pools(input, noise)),
              Sum(StakerCounts(input, noise)), Sum(PaidPerIndexer(input, noise)), err, input.truncate);
  }

  lemma NearShift(n: nat, exact: real, owners: int, pools: int, m: nat, paid: int, err: real, truncate: bool)
    requires Near(n, exact, owners + pools, err, truncate) && Near(m, pools as real, paid, err, truncate)
    ensures Near(n + m, exact, owners + paid, err, truncate)
  {
    hide Near;
    NearAdd(n, exact, owners + pools, m, pools as real, paid, err, truncate);
    NearMinus(n + m, exact, pools, owners + pools + paid, err, truncate);
  }

  lemma NearMinus(n: nat, exact: real, k: int, sum: int, err: real, truncate: bool)
    requires Near(n, exact + k as real, sum, err, truncate)
    ensures Near(n, exact, sum - k, err, truncate)
  {
  }

  /** Truncation mode leaves less than one unit per participant undistributed. */
  lemma TruncationDust(input: Inputs, noise: Noise, err: real)
    requires input.truncate && NoiseWithin(noise, err) && Active(input, noise) != map[]
    ensures (Unlocked(input, noise) - Distributed(input, noise)) as real
            < Participants(input, noise) as real * (1.0 + err)
    ensures err == 0.0 ==> Unlocked(input, noise) - Distributed(input, noise) < Participants(input, noise)
  {
    hide Distributed, Participants, Unlocked, Active;
    DistributedNearUnlocked(input, noise, err);
  }

  /** The sum is off by at most half a unit for each of n parts. */
  predicate ByHalves(n: int, exact: int, sum: int) {
    -n <= 2 * (sum - exact) <= n
  }

  lemma NearByHalves(n: nat, exact: int, sum: int)
    requires Near(n, exact as real, sum, 0.0, false)
    ensures ByHalves(n, exact, sum)
  {
  }

  /** Rounding mode: each layer is off by at most half a unit per participant, in either direction. */
  lemma RoundingBound(input: Inputs, noise: Noise)
    requires !input.truncate && NoiseWithin(noise, 0.0) && Active(input, noise) != map[]
    ensures ByHalves(|Active(input, noise)|, Unlocked(input, noise), Sum(First(input, noise)))
    ensures forall i :: i in Active(input, noise) ==>
              ByHalves(|StakesOf(input, i)|, Pool(input, noise, i), Sum(StakerPayouts(input, noise, i)))
    ensures 2 * (Distributed(input, noise) - Unlocked(input, noise)) <= Participants(input, noise)
    ensures Unlocked(input, noise) <= input.reward
  {
    hide Distributed, Participants, Unlocked, Active, First, StakerPayouts, Pool, Near, Sum;
    FirstNearUnlocked(input, noise, 0.0);
    NearByHalves(|Active(input, noise)|, Unlocked(input, noise), Sum(First(input, noise)));
    DistributedNearUnlocked(input, noise, 0.0);
    NearByHalves(Participants(input, noise), Unlocked(input, noise), Distributed(input, noise));
    UnlockedAtMostReward(input, noise, 0.0);
    forall i | i in Active(input, noise)
      ensures ByHalves(|StakesOf(input, i)|, Pool(input, noise, i), Sum(StakerPayouts(input, noise, i)))
    {
      StakersNearPool(input, noise, 0.0, i);
      NearByHalves(|StakesOf(input, i)|, Pool(input, noise, i), Sum(StakerPayouts(input, noise, i)));
    }
  }

  // ---- rounding mode: exactly when it over-allocates ----

  const NO_NOISE: Noise := Noise(0.0, map[], map[], map[])

  /** What each indexer's split over its stakers adds to its pool. */
  ghost function StakerSurpluses(input: Inputs): map<IndexerId, int> {
    map i | i in Active(input, NO_NOISE) :: Surplus(Pool(input, NO_NOISE, i), StakesOf(input, i))
  }

  lemma StakersAddSurplus(input: Inputs, i: IndexerId)
    requires !input.truncate && i in Active(input, NO_NOISE)
    ensures Sum(StakerPayouts(input, NO_NOISE, i)) == Pool(input, NO_NOISE, i) + StakerSurpluses(input)[i]
  {
    hide Pool, Payouts, Sum, Surplus;
    RoundingExceedsIff(Pool(input, NO_NOISE, i), StakesOf(input, i));
  }

  lemma FirstAddsSurplus(input: Inputs)
    requires !input.truncate && Active(input, NO_NOISE) != map[]
    ensures Sum(Active(input, NO_NOISE)) > 0
    ensures Sum(First(input, NO_NOISE)) ==
            Unlocked(input, NO_NOISE) + Surplus(Unlocked(input, NO_NOISE), Active(input, NO_NOISE))
  {
    hide Payouts, Sum, Surplus, Unlocked, Active;
    ActiveTotal(input, NO_NOISE);
    RoundingExceedsIff(Unlocked(input, NO_NOISE), Active(input, NO_NOISE));
  }

  /** What rounding mode hands out, from the remainders of the split over the indexers and of each split over
      stakers: more than is unlocked exactly when the surpluses of all these splits add up to more than zero. */
  lemma RoundingOverAllocatesIff(input: Inputs)
    requires !input.truncate && Active(input, NO_NOISE) != map[]
    ensures Sum(Active(input, NO_NOISE)) > 0
    ensures var unlocked := Unlocked(input, NO_NOISE);
            var surplus := Surplus(unlocked, Active(input, NO_NOISE)) + Sum(StakerSurpluses(input));
            && Distributed(input, NO_NOISE) == unlocked + surplus
            && (Distributed(input, NO_NOISE) > unlocked <==> surplus > 0)
  {
    hide First, StakerPayouts, Pool, Unlocked, Sum, Owner, Surplus, Active, Raw, Owners;
    FirstAddsSurplus(input);
    FirstSplits(input, NO_NOISE);
    forall i | i in Active(input, NO_NOISE)
      ensures PaidPerIndexer(input, NO_NOISE)[i] == Pools(input, NO_NOISE)[i] + StakerSurpluses(input)[i]
    {
      StakersAddSurplus(input, i);
    }
    SumPointwise(Pools(input, NO_NOISE), StakerSurpluses(input), PaidPerIndexer(input, NO_NOISE));
  }

  // ---- the bound is attained ----

  /** Equal indexers with two equal stakers each, and half a unit for each indexer. */
  function Pairs(all: set<IndexerId>, u: Address, v: Address): Inputs {
    Inputs(|all| / 2, 100.0, false, map i | i in all :: 100, map i | i in all :: map[u := 1, v := 1], map[], map[], {})
  }

  lemma SumOfTwo<K>(k: K, v: int, l: K, w: int)
    requires k != l
    ensures Sum(map[k := v, l := w]) == v + w
  {
    SumUpdate(map[], k, v);
    SumUpdate(map[k := v], l, w);
    assert map[k := v][l := w] == map[k := v, l := w];
  }

  lemma {:induction false} SumConstant<K>(m: map<K, int>, c: int)
    requires forall k :: k in m ==> m[k] == c
    ensures Sum(m) == |m| * c
    decreases |m|
  {
    if m != map[] {
      var k :| k in m;
      SumRemove(m, k);
      SumConstant(m - {k}, c);
      assert m.Keys == (m - {k}).Keys + {k};
      OneMore(|m - {k}|, c);
    }
  }

  lemma OneMore(n: int, c: int)
    ensures (n + 1) * c == n * c + c
  {
  }

  lemma WholeReward(n: nat)
    ensures n > 0 ==> Quantize(n as real * 100.0 / 100.0 + 0.0, false) == n
  {
    assert n as real * 100.0 / 100.0 == n as real;
  }

  lemma PairsActive(all: set<IndexerId>, u: Address, v: Address)
    requires |all| >= 2 && u != v
    ensures var input := Pairs(all, u, v);
            && Unlocked(input, NO_NOISE) == input.reward == |all| / 2
            && (forall i :: i in all ==> Raw(input, i) == 2)
            && Active(input, NO_NOISE) == map i | i in all :: 2
  {
    hide Sum, Quantize;
    SumOfTwo(u, 1, v, 1);
    WholeReward(|all| / 2);
  }

  lemma HalfRoundsUp(n: nat)
    requires n > 0
    ensures Payout(n, 2, 4 * n, 0.0, false) == 1
  {
    hide Payout;
    RoundedPayout(n, 2, 4 * n);
    OneWhole(Payout(n, 2, 4 * n, 0.0, false), Remainder(n, 2, 4 * n), 8 * n);
  }

  lemma OneWhole(p: nat, r: nat, d: nat)
    requires p * d + r == d && r < d
    ensures p == 1
  {
    assert p >= 2 ==> p * d >= 2 * d;
  }

  lemma OneUnitRounds()
    ensures Payout(1, 1, 2, 0.0, false) == 1 && Quantize(1 as real * 0.0 + 0.0, false) == 0
  {
  }

  lemma PairsFirst(all: set<IndexerId>, u: Address, v: Address)
    requires |all| >= 2 && |all| % 2 == 0 && u != v
    ensures First(Pairs(all, u, v), NO_NOISE) == map i | i in all :: 1
  {
    hide Sum, Quantize, Payout, Active, Unlocked, Raw;
    PairsActive(all, u, v);
    ConstantTable(Active(Pairs(all, u, v), NO_NOISE), all, 2);
    HalfRoundsUp(|all| / 2);
  }

  lemma PairsPaid(all: set<IndexerId>, u: Address, v: Address, i: IndexerId)
    requires |all| >= 2 && |all| % 2 == 0 && u != v && i in all
    ensures Owner(Pairs(all, u, v), NO_NOISE, i) == 0 && |StakesOf(Pairs(all, u, v), i)| == 2
    ensures Sum(StakerPayouts(Pairs(all, u, v), NO_NOISE, i)) == 2
  {
    hide Sum, Quantize, Payout, First, Raw;
    PairsActive(all, u, v);
    PairsFirst(all, u, v);
    OneUnitRounds();
    SumOfTwo(u, 1, v, 1);
    assert StakerPayouts(Pairs(all, u, v), NO_NOISE, i) == map[u := 1, v := 1];
  }

  /** Rounding mode does over-allocate, and by as much as RoundingBound lets it: any even number of equal indexers
      with two equal stakers each hand out four times the block reward. */
  lemma RoundingBoundAttained(all: set<IndexerId>, u: Address, v: Address)
    requires |all| >= 2 && |all| % 2 == 0 && u != v
    ensures var input := Pairs(all, u, v);
            && Unlocked(input, NO_NOISE) == input.reward > 0
            && Distributed(input, NO_NOISE) == 4 * input.reward
            && 2 * (Distributed(input, NO_NOISE) - Unlocked(input, NO_NOISE)) == Participants(input, NO_NOISE)
  {
    hide Sum, Owner, StakerPayouts, Active, Unlocked, Pairs, StakesOf, Raw;
    var input := Pairs(all, u, v);
    PairsActive(all, u, v);
    forall i | i in all
      ensures Owner(input, NO_NOISE, i) == 0 && |StakesOf(input, i)| == 2
      ensures Sum(StakerPayouts(input, NO_NOISE, i)) == 2
    {
      PairsPaid(all, u, v, i);
    }
    ConstantTable(Active(input, NO_NOISE), all, 2);
    ConstantTable(Owners(input, NO_NOISE), all, 0);
    ConstantTable(PaidPerIndexer(input, NO_NOISE), all, 2);
    ConstantTable(StakerCounts(input, NO_NOISE), all, 2);
  }

  lemma ConstantTable<K>(m: map<K, int>, all: set<K>, c: int)
    requires m.Keys == all && forall k :: k in m ==> m[k] == c
    ensures |m| == |all| && Sum(m) == |all| * c
  {
    assert |m.Keys| == |m|;
    SumConstant(m, c);
  }
}
