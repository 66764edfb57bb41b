/** Amount compression: a power of ten up to nine is split off and packed with the last digit. */
module Amount {
  import opened Words

  function Pow10(e: nat): (r: nat)
    ensures r >= 1
  {
    if e == 0 then 1 else 10 * Pow10(e - 1)
  }

  /** (m, e) is how the amount a > 0 is represented: m times ten to the e, with as many zeros in e as fit. */
  ghost predicate Represents(m: nat, e: nat, a: nat) {
    m > 0 && e <= 9 && a == m * Pow10(e) && (e < 9 ==> m % 10 != 0)
  }

  function Pack(m: nat, e: nat): nat
    requires m > 0 && e <= 9 && (e < 9 ==> m % 10 != 0)
  {
    if e < 9 then 1 + 10 * (9 * (m / 10) + m % 10 - 1) + e else 10 + 10 * (m - 1)
  }

  /** Splits zeros off, e of them so far. */
  function Strip(m: nat, e: nat): (r: (nat, nat))
    requires m > 0 && e <= 9
    ensures r.0 > 0 && e <= r.1 <= 9 && (r.1 < 9 ==> r.0 % 10 != 0)
  {
    if m % 10 == 0 && e < 9 then Strip(m / 10, e + 1) else (m, e)
  }

  function Compress(a: nat): nat {
    if a == 0 then 0 else Pack(Strip(a, 0).0, Strip(a, 0).1)
  }

  function UnpackExponent(c: nat): (e: nat)
    requires c > 0
    ensures e <= 9
  {
    (c - 1) % 10
  }

  function UnpackDigits(c: nat): (m: nat)
    requires c > 0
    ensures m > 0 && (UnpackExponent(c) < 9 ==> m % 10 != 0)
  {
    var x := (c - 1) / 10;
    if UnpackExponent(c) < 9 then x / 9 * 10 + (x % 9 + 1) else x + 1
  }

  function Decompress(c: nat): nat {
    if c == 0 then 0 else UnpackDigits(c) * Pow10(UnpackExponent(c))
  }

  // ---- the representation is unique, packing is a bijection on it ----

  lemma TimesTen(m: nat, e: nat)
    ensures m * Pow10(e + 1) == 10 * m * Pow10(e) == 10 * (m * Pow10(e))
  {
  }

  lemma {:induction false} StripRepresents(m: nat, e: nat)
    requires m > 0 && e <= 9
    ensures Strip(m, e).0 * Pow10(Strip(m, e).1) == m * Pow10(e)
    decreases 9 - e
  {
    if m % 10 == 0 && e < 9 {
      StripRepresents(m / 10, e + 1);
      TimesTen(m / 10, e);
      assert m == 10 * (m / 10);
    }
  }

  lemma {:induction false} StripOfProduct(m: nat, k: nat, e: nat)
    requires m > 0 && e + k <= 9 && (e + k < 9 ==> m % 10 != 0)
    ensures m * Pow10(k) > 0 && Strip(m * Pow10(k), e) == (m, e + k)
    decreases k
  {
    if k > 0 {
      var p := m * Pow10(k - 1);
      TimesTen(m, k - 1);
      StripOfProduct(m, k - 1, e + 1);
      assert (10 * p) % 10 == 0 && 10 * p / 10 == p;
    }
  }

  lemma CompressIsPack(m: nat, e: nat, a: nat)
    requires Represents(m, e, a)
    ensures a > 0 && Compress(a) == Pack(m, e)
  {
    StripOfProduct(m, e, 0);
  }

  /** Every positive amount is represented in exactly one way. */
  lemma RepresentedOnce(a: nat) returns (m: nat, e: nat)
    requires a > 0
    ensures Represents(m, e, a)
    ensures forall n, f :: Represents(n, f, a) ==> n == m && f == e
  {
    m, e := Strip(a, 0).0, Strip(a, 0).1;
    StripRepresents(a, 0);
    forall n, f | Represents(n, f, a) ensures n == m && f == e {
      StripOfProduct(n, f, 0);
    }
  }

  lemma UnpackPack(m: nat, e: nat)
    requires m > 0 && e <= 9 && (e < 9 ==> m % 10 != 0)
    ensures Pack(m, e) > 0 && UnpackExponent(Pack(m, e)) == e && UnpackDigits(Pack(m, e)) == m
  {
    if e < 9 {
      var x := 9 * (m / 10) + m % 10 - 1;
      assert (10 * x + e) / 10 == x && (10 * x + e) % 10 == e;
      assert x / 9 == m / 10 && x % 9 == m % 10 - 1;
    }
  }

  lemma PackUnpack(c: nat)
    requires c > 0
    ensures Pack(UnpackDigits(c), UnpackExponent(c)) == c
  {
    var x, e := (c - 1) / 10, (c - 1) % 10;
    if e < 9 {
      var m := x / 9 * 10 + (x % 9 + 1);
      assert m / 10 == x / 9 && m % 10 == x % 9 + 1;
    }
  }

  /** Compression is injective and decompression undoes it, on all naturals. */
  lemma DecompressCompress(a: nat)
    ensures Decompress(Compress(a)) == a
  {
    if a > 0 {
      StripRepresents(a, 0);
      UnpackPack(Strip(a, 0).0, Strip(a, 0).1);
    }
  }

  /** Compression is onto: every natural is the compression of what it decompresses to. */
  lemma CompressDecompress(c: nat)
    ensures Compress(Decompress(c)) == c
  {
    if c > 0 {
      StripOfProduct(UnpackDigits(c), UnpackExponent(c), 0);
      PackUnpack(c);
    }
  }

  // ---- size, and the 64-bit program ----

  lemma {:induction false} Pow10Large(e: nat)
    ensures 9 * Pow10(e) >= 9 + e
  {
    if e > 0 {
      Pow10Large(e - 1);
    }
  }

  lemma ScaleUp(m: nat, p: nat, e: nat)
    requires m > 0 && 9 * p >= 9 + e
    ensures 9 * (m * p) >= 9 * m + e
  {
    assert 9 * (m * p) == m * (9 * p);
    assert m * (9 * p) >= m * (9 + e);
    assert m * (9 + e) == 9 * m + m * e;
    assert m * e >= e;
  }

  /** Compression never grows an amount more than ninefold. */
  lemma CompressAtMostNinefold(a: nat)
    ensures Compress(a) <= 9 * a
  {
    if a > 0 {
      var m, e := Strip(a, 0).0, Strip(a, 0).1;
      StripRepresents(a, 0);
      Pow10Large(e);
      ScaleUp(m, Pow10(e), e);
      if e == 9 {
        Scale9(m);
      }
    }
  }

  lemma Scale9(m: nat)
    requires m > 0
    ensures 10 * m <= 9 * (m * Pow10(9))
  {
    assert Pow10(9) == 1_000_000_000;
  }

  /** The program's compression: the same loop, with the final products taken modulo 2^64. */
  method CompressTxOutAmount(amount: nat) returns (c: nat)
    requires amount < UINT64
    ensures c == Compress(amount) % UINT64
    ensures 9 * amount < UINT64 ==> c == Compress(amount)
  {
    CompressAtMostNinefold(amount);
    if amount == 0 {
      return 0;
    }
    var m, exponent := amount, 0;
    while m % 10 == 0 && exponent < 9
      invariant m > 0 && exponent <= 9 && Strip(m, exponent) == Strip(amount, 0)
    {
      m, exponent := m / 10, exponent + 1;
    }
    if exponent < 9 {
      c := (1 + 10 * (9 * (m / 10) + m % 10 - 1) + exponent) % UINT64;
    } else {
      c := (10 + 10 * (m - 1)) % UINT64;
    }
  }

  /** The program's decompression, every product modulo 2^64. */
  method DecompressTxOutAmount(c: nat) returns (amount: nat)
    requires c < UINT64
    ensures amount == Decompress(c) % UINT64
  {
    if c == 0 {
      return 0;
    }
    var exponent := UnpackExponent(c);
    amount := UnpackDigits(c) % UINT64;
    ghost var done := 0;
    while exponent > 0
      invariant done + exponent == UnpackExponent(c)
      invariant amount == (UnpackDigits(c) * Pow10(done)) % UINT64
      decreases exponent
    {
      TimesTen(UnpackDigits(c), done);
      WrapTimesTen(UnpackDigits(c) * Pow10(done));
      amount := (amount * 10) % UINT64;
      exponent, done := exponent - 1, done + 1;
    }
  }

  lemma WrapTimesTen(x: nat)
    ensures (x % UINT64 * 10) % UINT64 == (10 * x) % UINT64
  {
    var q, r := x / UINT64, x % UINT64;
    assert 10 * x == 10 * q * UINT64 + r * 10;
    AddMultiple(r * 10, 10 * q);
  }

  lemma AddMultiple(x: nat, k: nat)
    ensures (k * UINT64 + x) % UINT64 == x % UINT64
  {
    var q := x / UINT64;
    assert k * UINT64 + x == (k + q) * UINT64 + x % UINT64;
  }

  /** Through 64-bit arithmetic the round trip can fail: the largest 64-bit amount does not survive. */
  lemma LargestAmountWraps()
    ensures Decompress(Compress(UINT64 - 1) % UINT64) % UINT64 != UINT64 - 1
  {
    hide Compress, Decompress;
    LargestCompresses();
    WrappedDecompresses();
  }

  lemma LargestCompresses()
    ensures Compress(UINT64 - 1) % UINT64 == 18446744073709551603
  {
    assert Strip(UINT64 - 1, 0) == (UINT64 - 1, 0);
  }

  lemma WrappedDecompresses()
    ensures Decompress(18446744073709551603) == 204963823041217240100
  {
    assert UnpackExponent(18446744073709551603) == 2;
    assert UnpackDigits(18446744073709551603) == 2049638230412172401;
    assert Pow10(2) == 100;
  }
}
