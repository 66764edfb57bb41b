/** When the compression of a 64-bit amount does not fit in 64 bits, decompressing what is left never gives the
    amount back: the exact condition for the round trip through 64-bit arithmetic. */
module AmountWrap {
  import opened Words
  import opened Amount

  // ---- which amounts wrap ----

  /** An amount that a caller can see to survive: it ends in 0, or its packed form fits. */
  predicate Survives(a: nat) {
    a % 10 == 0 || 9 * a + a % 10 - 9 < UINT64
  }

  lemma LastDigit(a: nat)
    requires a % 10 != 0
    ensures Compress(a) == 9 * a + a % 10 - 9
  {
    assert Strip(a, 0) == (a, 0);
  }

  lemma EndsInZero(a: nat)
    requires a % 10 == 0 && a < UINT64
    ensures Compress(a) < UINT64
  {
    if a > 0 {
      var m, e := Strip(a, 0).0, Strip(a, 0).1;
      StripRepresents(a, 0);
      assert Strip(a, 0) == Strip(a / 10, 1);
      SmallerBase(m, e, a);
    }
  }

  lemma SmallerBase(m: nat, e: nat, a: nat)
    requires e >= 1 && a == m * Pow10(e)
    ensures 10 * m <= a
  {
    assert Pow10(e) == 10 * Pow10(e - 1);
    assert a == 10 * (m * Pow10(e - 1));
    assert m * Pow10(e - 1) >= m;
  }

  lemma SurvivesIffFits(a: nat)
    requires a < UINT64
    ensures Survives(a) <==> Compress(a) < UINT64
  {
    if a % 10 == 0 {
      EndsInZero(a);
    } else {
      LastDigit(a);
    }
  }

  // ---- what a wrapped form decompresses to ----

  /** The exponent that shows up after k multiples of 2^64 were lost. */
  function Exponent(k: nat): nat {
    4 * k % 10
  }

  /** What the digits lose then, in nines and ones: 10 * (9 * nines + ones) == k * 2^64 + Exponent(k). */
  function Nines(k: nat): nat {
    if k == 1 then 204963823041217240
    else if k == 2 then 409927646082434480
    else if k == 3 then 614891469123651720
    else if k == 4 then 819855292164868960
    else if k == 5 then 1024819115206086200
    else if k == 6 then 1229782938247303441
    else if k == 7 then 1434746761288520681
    else 1639710584329737921
  }

  function Ones(k: nat): nat {
    if k == 1 then 2
    else if k == 2 then 4
    else if k == 3 then 5
    else if k == 4 then 7
    else if k == 5 then 8
    else if k == 6 then 1
    else if k == 7 then 3
    else 4
  }

  lemma LossExact(k: nat)
    requires 1 <= k <= 8
    ensures 10 * (9 * Nines(k) + Ones(k)) == k * UINT64 + Exponent(k) && Ones(k) < 9
  {
  }

  lemma DigitsShift(q: nat, d: nat, nines: nat, ones: nat)
    requires 1 <= d <= 9 && ones < 9 && 9 * q + d - 1 >= 9 * nines + ones
    ensures var x, loss := 9 * q + d - 1 - (9 * nines + ones), 10 * nines + ones;
            var digits := x / 9 * 10 + (x % 9 + 1);
            digits == 10 * q + d - loss || digits == 10 * q + d - loss - 1
  {
    var x := 9 * q + d - 1 - (9 * nines + ones);
    if d - 1 >= ones {
      assert x == 9 * (q - nines) + (d - 1 - ones);
      assert x / 9 == q - nines && x % 9 == d - 1 - ones;
    } else {
      assert x == 9 * (q - nines - 1) + (9 + d - 1 - ones);
      assert x / 9 == q - nines - 1 && x % 9 == 9 + d - 1 - ones;
    }
  }

  function Loss(k: nat): nat {
    10 * Nines(k) + Ones(k)
  }

  lemma TenSplit(x: nat, q: int, r: nat)
    requires x == 10 * q + r && r < 10
    ensures x / 10 == q && x % 10 == r
  {
  }

  lemma EvenExponent(k: nat)
    requires 1 <= k <= 8
    ensures Exponent(k) < 9
  {
  }

  lemma WrappedForm(a: nat, k: nat)
    requires a < UINT64 && a % 10 != 0 && 1 <= k <= 8
    requires var c := 9 * a + a % 10 - 9; k == c / UINT64 && c % UINT64 > 0
    ensures var c := (9 * a + a % 10 - 9) % UINT64;
            && UnpackExponent(c) == Exponent(k)
            && (UnpackDigits(c) == a - Loss(k) || UnpackDigits(c) == a - Loss(k) - 1)
  {
    hide Nines, Ones, Exponent;
    var q, d := a / 10, a % 10;
    var full := 9 * a + d - 9;
    var c, lost := full % UINT64, 9 * Nines(k) + Ones(k);
    LossExact(k);
    assert c == full - k * UINT64;
    assert c - 1 == 10 * (9 * q + d - 1 - lost) + Exponent(k);
    EvenExponent(k);
    TenSplit(c - 1, 9 * q + d - 1 - lost, Exponent(k));
    DigitsShift(q, d, Nines(k), Ones(k));
  }

  // ---- no amount is its own wrapped form ----

  lemma MultipleIsZero(x: int, z: int)
    requires -1 * UINT64 < x < UINT64 && x == z * UINT64
    ensures x == 0
  {
  }

  /** (a - v) * p == a modulo 2^64 has one solution when p - 1 has an inverse. */
  lemma OneFixedPoint(a: nat, v: nat, p: nat, inv: nat, w: nat, q: nat, fixed: nat)
    requires a < UINT64 && v <= a && p >= 1 && inv * (p - 1) == 1 + w * UINT64
    requires inv * (v * p) == q * UINT64 + fixed && fixed < UINT64
    requires (a - v) * p % UINT64 == a
    ensures a == fixed
  {
    var j := (a - v) * p / UINT64;
    assert (a - v) * p == a * p - v * p;
    assert a * (p - 1) == a * p - a;
    assert a * (p - 1) == v * p + j * UINT64;
    Inverted(a, p, inv, w, v * p, j);
    assert a - fixed == (inv * j - a * w + q) * UINT64 by {
      Regroup(inv * j, a * w, q);
    }
    MultipleIsZero(a - fixed, inv * j - a * w + q);
  }

  lemma Inverted(a: int, p: int, inv: int, w: int, b: int, j: int)
    requires inv * (p - 1) == 1 + w * UINT64 && a * (p - 1) == b + j * UINT64
    ensures a + (a * w) * UINT64 == inv * b + (inv * j) * UINT64
  {
    calc {
      a + (a * w) * UINT64;
      a * (1 + w * UINT64);
      a * (inv * (p - 1));
      inv * (a * (p - 1));
      inv * (b + j * UINT64);
      inv * b + (inv * j) * UINT64;
    }
  }

  lemma Regroup(x: int, y: int, z: int)
    ensures (x - y + z) * UINT64 == x * UINT64 - y * UINT64 + z * UINT64
  {
  }

  /** The compression of a loses exactly k multiples of 2^64. */
  predicate Wraps(a: nat, k: nat) {
    a < UINT64 && a % 10 != 0 && (9 * a + a % 10 - 9) / UINT64 == k
  }

  /** The one candidate, `fixed`, ends in 0 or loses another number of multiples. */
  lemma NotFixed(a: nat, k: nat, v: nat, p: nat, inv: nat, w: nat, q: nat, fixed: nat)
    requires Wraps(a, k) && v <= a && p >= 1 && inv * (p - 1) == 1 + w * UINT64
    requires inv * (v * p) == q * UINT64 + fixed && fixed < UINT64
    requires fixed % 10 == 0 || (9 * fixed + fixed % 10 - 9) / UINT64 != k
    ensures (a - v) * p % UINT64 != a
  {
    if (a - v) * p % UINT64 == a {
      OneFixedPoint(a, v, p, inv, w, q, fixed);
    }
  }

  lemma Pow10s()
    ensures Pow10(2) == 100 && Pow10(4) == 10000 && Pow10(6) == 1000000 && Pow10(8) == 100000000
    ensures Exponent(1) == Exponent(6) == 4 && Exponent(2) == Exponent(7) == 8 && Exponent(3) == Exponent(8) == 2
    ensures Exponent(4) == 6
  {
  }

  lemma Losses()
    ensures Loss(1) == 2049638230412172402 && Loss(2) == 4099276460824344804
    ensures Loss(3) == 6148914691236517205 && Loss(4) == 8198552921648689607
    ensures Loss(6) == 12297829382473034411 && Loss(7) == 14347467612885206813
    ensures Loss(8) == 16397105843297379214
  {
  }

  // One candidate for each number of lost multiples and each of the two digit forms, with the inverse of
  // 10^e - 1 modulo 2^64 spelled out; k == 5 leaves exponent 0.

  lemma NotFixed1(a: nat, v: nat)
    requires Wraps(a, 1) && v <= a && (v == Loss(1) || v == Loss(1) + 1)
    ensures (a - v) * Pow10(Exponent(1)) % UINT64 != a
  {
    hide Wraps, Loss, Exponent, Pow10;
    Pow10s();
    Losses();
    if v == Loss(1) {
      NotFixed(a, 1, 2049638230412172402, 10000, 13458245626333751279, 7295, 14953606251481945867176,
               15288550632769423584);
    } else {
      NotFixed(a, 1, 2049638230412172403, 10000, 13458245626333751279, 7295, 14953606251481945874472,
               10300052185393623248);
    }
  }

  lemma NotFixed2(a: nat, v: nat)
    requires Wraps(a, 2) && v <= a && (v == Loss(2) || v == Loss(2) + 1)
    ensures (a - v) * Pow10(Exponent(2)) % UINT64 != a
  {
    hide Wraps, Loss, Exponent, Pow10;
    Pow10s();
    Losses();
    if v == Loss(2) {
      NotFixed(a, 2, 4099276460824344804, 100000000, 300153063250403071, 1627133, 6670068072231179356278725,
               14480868974329830400);
    } else {
      NotFixed(a, 2, 4099276460824344805, 100000000, 300153063250403071, 1627133, 6670068072231179357905858,
               14781022037580233472);
    }
  }

  lemma NotFixed3(a: nat, v: nat)
    requires Wraps(a, 3) && v <= a && (v == Loss(3) || v == Loss(3) + 1)
    ensures (a - v) * Pow10(Exponent(3)) % UINT64 != a
  {
    hide Wraps, Loss, Exponent, Pow10;
    Pow10s();
    Losses();
    if v == Loss(3) {
      NotFixed(a, 3, 6148914691236517205, 100, 12670490878911611211, 68, 422349695963720373677, 1925417731599313468);
    } else {
      NotFixed(a, 3, 6148914691236517206, 100, 12670490878911611211, 68, 422349695963720373745, 14595908610510924680);
    }
  }

  lemma NotFixed4(a: nat, v: nat)
    requires Wraps(a, 4) && v <= a && (v == Loss(4) || v == Loss(4) + 1)
    ensures (a - v) * Pow10(Exponent(4)) % UINT64 != a
  {
    hide Wraps, Loss, Exponent, Pow10;
    Pow10s();
    Losses();
    if v == Loss(4) {
      NotFixed(a, 4, 8198552921648689607, 1000000, 1672254362768354751, 90653, 743224161230379889323260,
               14161661572577611840);
    } else {
      NotFixed(a, 4, 8198552921648689608, 1000000, 1672254362768354751, 90653, 743224161230379889413913,
               15833915935345966592);
    }
  }

  lemma NotFixed6(a: nat, v: nat)
    requires Wraps(a, 6) && v <= a && (v == Loss(6) || v == Loss(6) + 1)
    ensures (a - v) * Pow10(Exponent(6)) % UINT64 != a
  {
    hide Wraps, Loss, Exponent, Pow10;
    Pow10s();
    Losses();
    if v == Loss(6) {
      NotFixed(a, 6, 12297829382473034411, 10000, 13458245626333751279, 7295, 89721637508891675195765,
               4486081875444583760);
    } else {
      NotFixed(a, 6, 12297829382473034412, 10000, 13458245626333751279, 7295, 89721637508891675203060,
               17944327501778335040);
    }
  }

  lemma NotFixed7(a: nat, v: nat)
    requires Wraps(a, 7) && v <= a && (v == Loss(7) || v == Loss(7) + 1)
    ensures (a - v) * Pow10(Exponent(7)) % UINT64 != a
  {
    hide Wraps, Loss, Exponent, Pow10;
    Pow10s();
    Losses();
    if v == Loss(7) {
      NotFixed(a, 7, 14347467612885206813, 100000000, 300153063250403071, 1627133, 23345238252809127745348407,
               4266028162630124288);
    } else {
      NotFixed(a, 7, 14347467612885206814, 100000000, 300153063250403071, 1627133, 23345238252809127746975540,
               4566181225880527360);
    }
  }

  lemma NotFixed8(a: nat, v: nat)
    requires Wraps(a, 8) && v <= a && (v == Loss(8) || v == Loss(8) + 1)
    ensures (a - v) * Pow10(Exponent(8)) % UINT64 != a
  {
    hide Wraps, Loss, Exponent, Pow10;
    Pow10s();
    Losses();
    if v == Loss(8) {
      NotFixed(a, 8, 16397105843297379214, 100, 12670490878911611211, 68, 1126265855903254329851, 7432526512302726184);
    } else {
      NotFixed(a, 8, 16397105843297379215, 100, 12670490878911611211, 68, 1126265855903254329920, 1656273317504785780);
    }
  }

  lemma NoExponent(k: nat)
    requires 1 <= k <= 8
    ensures Loss(k) > 0
    ensures if k == 5 then Exponent(k) == 0 else Exponent(k) in {2, 4, 6, 8}
  {
  }

  /** A wrapped compression never decompresses to the amount. */
  lemma WrappedNeverReturns(a: nat)
    requires a < UINT64 && a % 10 != 0 && 9 * a + a % 10 - 9 >= UINT64
    ensures Decompress((9 * a + a % 10 - 9) % UINT64) % UINT64 != a
  {
    hide Loss, Exponent, UnpackDigits, UnpackExponent, Pow10;
    var full := 9 * a + a % 10 - 9;
    var k, c := full / UINT64, full % UINT64;
    if c > 0 {
      WrappedForm(a, k);
      NoExponent(k);
      var v := a - UnpackDigits(c);
      assert Decompress(c) == (a - v) * Pow10(Exponent(k));
      if k == 5 {
        TimesOne(a - v);
      } else {
        OtherMultiples(a, k, v);
      }
    }
  }

  lemma OtherMultiples(a: nat, k: nat, v: nat)
    requires Wraps(a, k) && 1 <= k <= 8 && k != 5 && v <= a && (v == Loss(k) || v == Loss(k) + 1)
    ensures (a - v) * Pow10(Exponent(k)) % UINT64 != a
  {
    hide Loss, Exponent, Pow10, Wraps;
    match k
    case 1 => NotFixed1(a, v);
    case 2 => NotFixed2(a, v);
    case 3 => NotFixed3(a, v);
    case 4 => NotFixed4(a, v);
    case 6 => NotFixed6(a, v);
    case 7 => NotFixed7(a, v);
    case 8 => NotFixed8(a, v);
  }

  lemma TimesOne(x: nat)
    ensures x * Pow10(0) == x
  {
  }

  /** The round trip through 64-bit arithmetic is exact if and only if the compression fits in 64 bits, that is,
      if and only if the amount ends in 0 or 9 * a + a % 10 - 9 is below 2^64. */
  lemma RoundTripIff(a: nat)
    requires a < UINT64
    ensures Decompress(Compress(a) % UINT64) % UINT64 == a <==> Survives(a)
    ensures Survives(a) <==> Compress(a) < UINT64
    ensures a <= (UINT64 - 1) / 9 ==> Survives(a)
  {
    hide Compress, Decompress;
    SurvivesIffFits(a);
    if Survives(a) {
      DecompressCompress(a);
    } else {
      LastDigit(a);
      WrappedNeverReturns(a);
    }
  }
}
