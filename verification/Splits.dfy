/** Proportional splits of an integer amount with rounding. Floating point is modelled as exact reals plus
    an explicit error term for each quantized value; err bounds the error terms, and err == 0.0 is exact
    arithmetic. */
module Splits {
  import opened Maps

  /** Added before truncation so that a product that is an integer up to float noise is not rounded down. */
  const EPSILON: real := 0.000000001

  function Quantize(v: real, truncate: bool): nat {
    if v <= 0.0 then 0 else if truncate then (v + EPSILON).Floor else (v + 0.5).Floor
  }

  /** A product by name, so that equal factors give equal products. */
  function Times(x: real, y: real): real {
    x * y
  }

  function Error<K>(noise: map<K, real>, k: K): real {
    if k in noise then noise[k] else 0.0
  }

  ghost predicate Within<K>(noise: map<K, real>, err: real) {
    err >= 0.0 && forall k :: k in noise ==> -err <= noise[k] <= err
  }

  /** The part of `amount` paid to weight w out of `total`. */
  function Payout(amount: nat, w: nat, total: nat, error: real, truncate: bool): nat
    requires total > 0
  {
    if w == 0 || amount == 0 then 0
    else Quantize(amount as real * (w as real / total as real) + error, truncate)
  }

  function Payouts<K>(amount: nat, weights: map<K, nat>, total: nat, noise: map<K, real>, truncate: bool)
    : (r: map<K, nat>)
    requires total > 0
    ensures r.Keys == weights.Keys
  {
    map k | k in weights :: Payout(amount, weights[k], total, Error(noise, k), truncate)
  }

  // ---- how far n quantized values can be from their exact sum ----

  /** How far above and below the exact value one quantized value can be, apart from its error term. */
  function Above(truncate: bool): real {
    if truncate then EPSILON else 0.5
  }

  function Below(truncate: bool): real {
    if truncate then 1.0 else 0.5
  }

  /** sum can be the sum of n quantized values whose exact values add up to `exact`. */
  ghost predicate Near(n: nat, exact: real, sum: int, err: real, truncate: bool) {
    && exact - n as real * (Below(truncate) + err) <= sum as real <= exact + n as real * (Above(truncate) + err)
    && (truncate && n > 0 ==> exact - n as real * (Below(truncate) + err) < sum as real)
  }

  lemma QuantizeNear(x: real, e: real, err: real, truncate: bool)
    requires x >= 0.0 && -err <= e <= err
    ensures Near(1, x, Quantize(x + e, truncate), err, truncate)
  {
    assert 1 as real * (Below(truncate) + err) == Below(truncate) + err;
    assert 1 as real * (Above(truncate) + err) == Above(truncate) + err;
  }

  /** Rounding down after adding a billionth, or to the nearest with halves up; nothing below zero. */
  lemma QuantizeMeans(v: real, n: nat)
    ensures v <= 0.0 ==> Quantize(v, true) == Quantize(v, false) == 0
    ensures v > 0.0 ==> (Quantize(v, true) == n <==> n as real - 0.000000001 <= v < n as real + 0.999999999)
    ensures v > 0.0 ==> (Quantize(v, false) == n <==> n as real - 0.5 <= v < n as real + 0.5)
  {
  }

  /** The exact part of `amount` due to weight w out of `total`. */
  function Exact(amount: nat, w: int, total: nat): real
    requires total > 0
  {
    (amount as real / total as real) * w as real
  }

  lemma ExactIsAdditive(amount: nat, x: int, y: int, total: nat)
    requires total > 0
    ensures Exact(amount, x + y, total) == Exact(amount, x, total) + Exact(amount, y, total)
  {
    var q := amount as real / total as real;
    assert q * (x + y) as real == q * x as real + q * y as real;
  }

  lemma ExactOfWhole(amount: nat, total: nat)
    requires total > 0
    ensures Exact(amount, total, total) == amount as real
    ensures Exact(amount, 0, total) == 0.0
  {
  }

  lemma ExactIsProportion(amount: nat, w: nat, total: nat)
    requires total > 0
    ensures Exact(amount, w, total) == amount as real * (w as real / total as real) >= 0.0
    ensures Exact(amount, w, total) == Times(amount as real, w as real / total as real)
    ensures w == 0 || amount == 0 ==> Exact(amount, w, total) == 0.0
  {
    var a, x, t := amount as real, w as real, total as real;
    Proportion(a, x, t);
    NonNegativeShare(a, x, t);
  }

  /** Capping at an amount that the exact value does not exceed stays near it. */
  lemma CappedNear(n: int, x: real, cap: int, err: real, truncate: bool)
    requires Near(1, x, n, err, truncate) && x <= cap as real && err >= 0.0
    ensures Near(1, x, if n > cap then cap else n, err, truncate)
  {
    assert 1 as real * (Below(truncate) + err) == Below(truncate) + err;
    assert 1 as real * (Above(truncate) + err) == Above(truncate) + err;
  }

  lemma PayoutShare(amount: nat, w: nat, total: nat, error: real, err: real, truncate: bool)
    requires total > 0 && -err <= error <= err
    ensures Near(1, Times(amount as real, w as real / total as real), Payout(amount, w, total, error, truncate), err,
                 truncate)
  {
    hide Near, Payout, Exact, Times;
    PayoutNear(amount, w, total, error, err, truncate);
    ExactIsProportion(amount, w, total);
  }

  lemma DistributeCount(n: nat, m: nat, x: real)
    ensures (n + m) as real * x == n as real * x + m as real * x
  {
  }

  lemma NearAdd(n: nat, x: real, s: int, m: nat, y: real, t: int, err: real, truncate: bool)
    requires Near(n, x, s, err, truncate) && Near(m, y, t, err, truncate)
    ensures Near(n + m, x + y, s + t, err, truncate)
  {
    DistributeCount(n, m, Below(truncate) + err);
    DistributeCount(n, m, Above(truncate) + err);
  }

  lemma Proportion(a: real, w: real, t: real)
    requires t > 0.0
    ensures a * (w / t) == (a / t) * w
  {
  }

  lemma NonNegativeShare(a: real, w: real, t: real)
    requires t > 0.0 && a >= 0.0 && w >= 0.0
    ensures a * (w / t) >= 0.0
  {
    assert w / t >= 0.0;
  }

  lemma ZeroNear(err: real, truncate: bool)
    requires err >= 0.0
    ensures Near(1, 0.0, 0, err, truncate)
  {
    assert 1 as real * (Below(truncate) + err) == Below(truncate) + err;
    assert 1 as real * (Above(truncate) + err) == Above(truncate) + err;
  }

  lemma PayoutNear(amount: nat, w: nat, total: nat, error: real, err: real, truncate: bool)
    requires total > 0 && -err <= error <= err
    ensures Near(1, Exact(amount, w, total), Payout(amount, w, total, error, truncate), err, truncate)
  {
    hide Exact, Near, Quantize;
    ExactIsProportion(amount, w, total);
    if w == 0 || amount == 0 {
      ZeroNear(err, truncate);
    } else {
      QuantizeNear(amount as real * (w as real / total as real), error, err, truncate);
    }
  }

  lemma NothingNear<K>(err: real, truncate: bool)
    requires err >= 0.0
    ensures Sum<K>(map[]) == 0
    ensures Near(0, 0.0, 0, err, truncate)
  {
  }

  lemma PayoutsRemove<K>(amount: nat, weights: map<K, nat>, total: nat, noise: map<K, real>, truncate: bool, k: K)
    requires total > 0 && k in weights
    ensures Payouts(amount, weights, total, noise, truncate) - {k} ==
            Payouts(amount, weights - {k}, total, noise, truncate)
    ensures |weights| == |weights - {k}| + 1
  {
    assert weights.Keys == (weights - {k}).Keys + {k};
    assert |weights.Keys| == |weights|;
  }

  lemma {:induction false} PayoutsNear<K>(amount: nat, weights: map<K, nat>, total: nat, noise: map<K, real>,
                                          err: real, truncate: bool)
    requires total > 0 && Within(noise, err)
    ensures Near(|weights|, Exact(amount, Sum(weights), total),
                 Sum(Payouts(amount, weights, total, noise, truncate)), err, truncate)
    decreases |weights|
  {
    hide Payout, Exact, Near, Sum;
    var all := Payouts(amount, weights, total, noise, truncate);
    if weights == map[] {
      assert all == map[];
      ExactOfWhole(amount, total);
      NothingNear<K>(err, truncate);
    } else {
      var k :| k in weights;
      SumRemove(weights, k);
      SumRemove(all, k);
      PayoutsRemove(amount, weights, total, noise, truncate, k);
      PayoutsNear(amount, weights - {k}, total, noise, err, truncate);
      PayoutNear(amount, weights[k], total, Error(noise, k), err, truncate);
      NearAdd(|weights - {k}|, Exact(amount, Sum(weights - {k}), total), Sum(all - {k}), 1,
              Exact(amount, weights[k], total), all[k], err, truncate);
      ExactIsAdditive(amount, Sum(weights - {k}), weights[k], total);
    }
  }

  /** Splitting `amount` over all the weights gives back `amount` up to the quantization of each part. */
  lemma SplitNear<K>(amount: nat, weights: map<K, nat>, noise: map<K, real>, err: real, truncate: bool)
    requires Sum(weights) > 0 && Within(noise, err)
    ensures Near(|weights|, amount as real, Sum(Payouts(amount, weights, Sum(weights), noise, truncate)), err, truncate)
  {
    hide Payout, Near, Sum, Payouts, Exact;
    PayoutsNear(amount, weights, Sum(weights), noise, err, truncate);
    ExactOfWhole(amount, Sum(weights));
  }

  /** With truncation and few enough participants for the epsilons to stay below one unit, a split hands
      out no more than there is. */
  lemma SplitNeverExceeds<K>(amount: nat, weights: map<K, nat>, noise: map<K, real>, err: real)
    requires Sum(weights) > 0 && Within(noise, err) && |weights| as real * (EPSILON + err) < 1.0
    ensures Sum(Payouts(amount, weights, Sum(weights), noise, true)) <= amount
  {
    hide Payout, Sum, Payouts;
    SplitNear(amount, weights, noise, err, true);
  }

  // ---- adding up many splits ----

  ghost predicate AllNear<K>(counts: map<K, nat>, exact: map<K, int>, sums: map<K, int>, err: real, truncate: bool) {
    && counts.Keys == exact.Keys == sums.Keys
    && forall k :: k in counts ==> Near(counts[k], exact[k] as real, sums[k], err, truncate)
  }

  lemma {:induction false} SumsNear<K>(counts: map<K, nat>, exact: map<K, int>, sums: map<K, int>, err: real,
                                       truncate: bool)
    requires err >= 0.0 && AllNear(counts, exact, sums, err, truncate)
    ensures Sum(counts) >= 0 && Near(Sum(counts), Sum(exact) as real, Sum(sums), err, truncate)
    decreases |counts|
  {
    hide Near, Sum;
    if counts == map[] {
      assert exact == map[] && sums == map[];
      NothingNear<K>(err, truncate);
    } else {
      var k :| k in counts;
      SumRemove(counts, k);
      SumRemove(exact, k);
      SumRemove(sums, k);
      SumsNear(counts - {k}, exact - {k}, sums - {k}, err, truncate);
      NearAdd(counts[k], exact[k] as real, sums[k], Sum(counts - {k}), Sum(exact - {k}) as real, Sum(sums - {k}), err,
              truncate);
    }
  }

  lemma {:induction false} SumAtMost<K>(m: map<K, int>, n: map<K, int>)
    requires m.Keys == n.Keys && forall k :: k in m ==> m[k] <= n[k]
    ensures Sum(m) <= Sum(n)
    decreases |m|
  {
    if m == map[] {
      assert n == map[];
    } else {
      var k :| k in m;
      SumRemove(m, k);
      SumRemove(n, k);
      SumAtMost(m - {k}, n - {k});
    }
  }

  // ---- rounding, exactly ----

  /** What rounding half up cuts off, in units of one part in 2 * total. */
  function Remainder(amount: nat, w: nat, total: nat): nat
    requires total > 0
  {
    (2 * amount * w + total) % (2 * total)
  }

  function Remainders<K>(amount: nat, weights: map<K, nat>, total: nat): (r: map<K, nat>)
    requires total > 0
    ensures r.Keys == weights.Keys
  {
    map k | k in weights :: Remainder(amount, weights[k], total)
  }

  lemma ScaleKeepsOrder(y: real, z: real, s: real)
    requires s > 0.0
    ensures y <= z <==> y * s <= z * s
  {
    if y <= z {
      assert 0.0 <= (z - y) * s;
    } else {
      assert 0.0 < (y - z) * s;
    }
  }

  lemma Scaled(x: real, t: real, q: real, n: real)
    requires t > 0.0 && x * t == n
    ensures q <= x + 0.5 <==> q * (2.0 * t) <= 2.0 * n + t
  {
    assert (x + 0.5) * (2.0 * t) == 2.0 * (x * t) + t;
    ScaleKeepsOrder(q, x + 0.5, 2.0 * t);
  }

  lemma QuotientBounds(a: nat, d: nat)
    requires d > 0
    ensures a / d * d <= a < (a / d + 1) * d
  {
  }

  lemma RoundHalfUp(n: nat, t: nat, x: real)
    requires t > 0 && x >= 0.0 && x * t as real == n as real
    ensures Quantize(x, false) == (2 * n + t) / (2 * t)
  {
    var q := (2 * n + t) / (2 * t);
    QuotientBounds(2 * n + t, 2 * t);
    InReals(q, t, n);
    InReals(q + 1, t, n);
    Scaled(x, t as real, q as real, n as real);
    Scaled(x, t as real, (q + 1) as real, n as real);
  }

  lemma InReals(q: nat, t: nat, n: nat)
    ensures q * (2 * t) <= 2 * n + t <==> q as real * (2.0 * t as real) <= 2.0 * n as real + t as real
  {
    assert (q * (2 * t)) as real == q as real * (2 * t) as real;
  }

  /** A rounded part, with its remainder, is the exact part plus one half. */
  lemma RoundedPayout(amount: nat, w: nat, total: nat)
    requires total > 0
    ensures Payout(amount, w, total, 0.0, false) * (2 * total) + Remainder(amount, w, total) == 2 * amount * w + total
  {
    hide Quantize;
    var n := amount * w;
    assert 2 * amount * w == 2 * n;
    var q := (2 * n + total) / (2 * total);
    assert q * (2 * total) + (2 * n + total) % (2 * total) == 2 * n + total;
    if w == 0 || amount == 0 {
      HalfRoundsDown(total);
    } else {
      var x := amount as real * (w as real / total as real);
      NonNegativeShare(amount as real, w as real, total as real);
      WholeParts(amount, w, total);
      RoundHalfUp(n, total, x);
      assert x + 0.0 == x;
    }
  }

  lemma HalfRoundsDown(total: nat)
    requires total > 0
    ensures total / (2 * total) == 0 && total % (2 * total) == total
  {
  }

  lemma WholeParts(amount: nat, w: nat, total: nat)
    requires total > 0
    ensures amount as real * (w as real / total as real) * total as real == (amount * w) as real
  {
    var a, x, t := amount as real, w as real, total as real;
    assert x / t * t == x;
    assert a * (x / t) * t == a * (x / t * t);
    assert (amount * w) as real == a * x;
  }

  /** n rounded parts, `paid` in all, with what was cut off them, are the exact parts plus one half each. */
  ghost predicate Balanced(paid: int, cut: int, amount: nat, weight: int, n: int, total: nat) {
    paid * (2 * total) + cut == 2 * amount * weight + n * total
  }

  lemma BalancedAdd(paid: int, cut: int, weight: int, n: int, amount: nat, w: nat, total: nat)
    requires total > 0 && Balanced(paid, cut, amount, weight, n, total)
    ensures Balanced(Payout(amount, w, total, 0.0, false) + paid, Remainder(amount, w, total) + cut, amount, w + weight,
                     n + 1, total)
  {
    hide Payout, Remainder;
    RoundedPayout(amount, w, total);
    var p := Payout(amount, w, total, 0.0, false);
    assert (p + paid) * (2 * total) == p * (2 * total) + paid * (2 * total);
    assert 2 * amount * (w + weight) == 2 * amount * w + 2 * amount * weight;
    assert (n + 1) * total == n * total + total;
  }

  lemma RemaindersRemove<K>(amount: nat, weights: map<K, nat>, total: nat, k: K)
    requires total > 0 && k in weights
    ensures Remainders(amount, weights, total) - {k} == Remainders(amount, weights - {k}, total)
    ensures Remainders(amount, weights, total)[k] == Remainder(amount, weights[k], total)
  {
    hide Remainder;
  }

  lemma RoundNothing<K>(amount: nat, total: nat)
    ensures Sum<K>(map[]) == 0 && Balanced(0, 0, amount, 0, 0, total)
  {
  }

  lemma {:induction false} RoundedSum<K>(amount: nat, weights: map<K, nat>, total: nat)
    requires total > 0
    ensures Balanced(Sum(Payouts(amount, weights, total, map[], false)), Sum(Remainders(amount, weights, total)),
                     amount, Sum(weights), |weights|, total)
    decreases |weights|
  {
    hide Payout, Remainder, Remainders, Sum, Balanced;
    var all, left := Payouts(amount, weights, total, map[], false), Remainders(amount, weights, total);
    if weights == map[] {
      assert all == map[] && left == map[];
      RoundNothing<K>(amount, total);
    } else {
      var k :| k in weights;
      SumRemove(weights, k);
      SumRemove(all, k);
      SumRemove(left, k);
      PayoutsRemove(amount, weights, total, map[], false, k);
      RemaindersRemove(amount, weights, total, k);
      RoundedSum(amount, weights - {k}, total);
      BalancedAdd(Sum(all - {k}), Sum(left - {k}), Sum(weights - {k}), |weights - {k}|, amount, weights[k], total);
    }
  }

  /** What a rounding split adds to `amount`, from what rounding cuts off: one half for each part is added first. */
  ghost function Surplus<K>(amount: nat, weights: map<K, nat>): int
    requires Sum(weights) > 0
  {
    (|weights| * Sum(weights) - Sum(Remainders(amount, weights, Sum(weights)))) / (2 * Sum(weights))
  }

  /** A rounding split hands out more than there is exactly when what rounding cuts off is less than one half for
      each part together; and by how much. */
  lemma RoundingExceedsIff<K>(amount: nat, weights: map<K, nat>)
    requires Sum(weights) > 0
    ensures var total := Sum(weights);
            var paid := Sum(Payouts(amount, weights, total, map[], false));
            var cut := Sum(Remainders(amount, weights, total));
            && (paid > amount <==> cut < |weights| * total)
            && paid == amount + Surplus(amount, weights)
  {
    hide Payouts, Remainders, Sum;
    var total := Sum(weights);
    RoundedSum(amount, weights, total);
    var paid, cut := Sum(Payouts(amount, weights, total, map[], false)), Sum(Remainders(amount, weights, total));
    Excess(paid, amount, total, |weights| * total, cut);
  }

  lemma Excess(paid: int, amount: nat, total: nat, halves: int, cut: int)
    requires total > 0 && paid * (2 * total) + cut == 2 * amount * total + halves
    ensures paid - amount == (halves - cut) / (2 * total) && (paid > amount <==> cut < halves)
  {
    var x := paid - amount;
    assert x * (2 * total) == paid * (2 * total) - amount * (2 * total);
    assert amount * (2 * total) == 2 * amount * total;
    if x >= 1 {
      assert x * (2 * total) >= 2 * total;
    } else {
      assert x * (2 * total) <= 0;
    }
    QuotientOf(x, 2 * total);
  }

  lemma QuotientOf(x: int, d: nat)
    requires d > 0
    ensures x * d / d == x
  {
    var q := x * d / d;
    assert (x - q) * d == x * d % d;
    assert x - q >= 1 ==> (x - q) * d >= d;
    assert x - q <= -1 ==> (x - q) * d < 0;
  }
}
