/** Bytes on the wire: little-endian numbers, the block format's variable-length integers, and readers that
    return a value and the bytes that are left. */
module Wire {
  import opened Words
  import opened Vlq

  /** `Short` stands for a slice expression out of range. */
  datatype Parsed<+T> = Short | Got(value: T, rest: seq<Byte>) {
    predicate IsFailure() {
      Short?
    }

    function PropagateFailure<U>(): Parsed<U>
      requires IsFailure()
    {
      Short
    }

    function Extract(): (T, seq<Byte>)
      requires !IsFailure()
    {
      (value, rest)
    }
  }

  // ---- fixed-width fields ----

  function Pow256(w: nat): (r: nat)
    ensures r >= 1
  {
    if w == 0 then 1 else 256 * Pow256(w - 1)
  }

  function LittleEndian(n: nat, w: nat): (r: seq<Byte>)
    ensures |r| == w
  {
    if w == 0 then [] else [n % 256] + LittleEndian(n / 256, w - 1)
  }

  function Number(s: seq<Byte>): (n: nat)
    ensures n < Pow256(|s|)
  {
    if s == [] then 0 else s[0] + 256 * Number(s[1..])
  }

  lemma {:induction false} NumberOfLittleEndian(n: nat, w: nat)
    requires n < Pow256(w)
    ensures Number(LittleEndian(n, w)) == n
  {
    if w > 0 {
      NumberOfLittleEndian(n / 256, w - 1);
      assert LittleEndian(n, w)[1..] == LittleEndian(n / 256, w - 1);
    }
  }

  lemma {:induction false} LittleEndianOfNumber(s: seq<Byte>)
    ensures LittleEndian(Number(s), |s|) == s
  {
    if s != [] {
      var n := Number(s[1..]);
      LittleEndianOfNumber(s[1..]);
      assert (s[0] + 256 * n) % 256 == s[0] && (s[0] + 256 * n) / 256 == n;
      assert s == [s[0]] + s[1..];
    }
  }

  /** The first k bytes, each by its weight. */
  function Weighted(s: seq<Byte>, k: nat): nat
    requires k <= |s|
  {
    if k == 0 then 0 else Weighted(s, k - 1) + s[k - 1] * Pow256(k - 1)
  }

  /** The least significant byte comes first. */
  lemma {:induction false} NumberIsWeighted(s: seq<Byte>)
    ensures Number(s) == Weighted(s, |s|)
    decreases |s|
  {
    if s != [] {
      var n := |s| - 1;
      NumberAppend(s[..n], s[n]);
      assert s == s[..n] + [s[n]];
      NumberIsWeighted(s[..n]);
      WeightedPrefix(s, n, n);
    }
  }

  lemma {:induction false} WeightedPrefix(s: seq<Byte>, n: nat, k: nat)
    requires k <= n <= |s|
    ensures Weighted(s[..n], k) == Weighted(s, k)
  {
    if k > 0 {
      WeightedPrefix(s, n, k - 1);
    }
  }

  lemma {:induction false} NumberAppend(s: seq<Byte>, b: Byte)
    ensures Number(s + [b]) == Number(s) + b * Pow256(|s|)
    decreases |s|
  {
    if s == [] {
      assert s + [b] == [b];
    } else {
      assert (s + [b])[1..] == s[1..] + [b];
      NumberAppend(s[1..], b);
    }
  }

  lemma {:induction false} LittleEndianByte(n: nat, w: nat, i: nat)
    requires i < w
    ensures LittleEndian(n, w)[i] == n / Pow256(i) % 256
  {
    if i > 0 {
      LittleEndianByte(n / 256, w - 1, i - 1);
      DivideTwice(n, Pow256(i - 1));
    }
  }

  lemma DivideTwice(n: nat, d: nat)
    requires d > 0
    ensures n / 256 / d == n / (256 * d)
  {
    var q := n / 256 / d;
    var r := n / 256 % d;
    assert n == 256 * (q * d + r) + n % 256;
    assert 256 * (q * d + r) == q * (256 * d) + 256 * r;
    QuotientIs(n, 256 * d, q, 256 * r + n % 256);
  }

  lemma QuotientIs(n: nat, d: nat, q: nat, r: nat)
    requires n == q * d + r && r < d
    ensures n / d == q
  {
    var p := n / d;
    assert n == p * d + n % d;
    assert (p - q) * d == r - n % d;
    assert p - q >= 1 ==> (p - q) * d >= d;
    assert p - q <= -1 ==> (p - q) * d + d <= 0;
  }

  function ReadBytes(s: seq<Byte>, n: nat): Parsed<seq<Byte>> {
    if |s| < n then Short else Got(s[..n], s[n..])
  }

  function ReadNumber(s: seq<Byte>, w: nat): Parsed<nat> {
    if |s| < w then Short else Got(Number(s[..w]), s[w..])
  }

  lemma ReadBytesBack(b: seq<Byte>, tail: seq<Byte>)
    ensures ReadBytes(b + tail, |b|) == Got(b, tail)
  {
  }

  lemma ReadNumberBack(n: nat, w: nat, tail: seq<Byte>)
    requires n < Pow256(w)
    ensures ReadNumber(LittleEndian(n, w) + tail, w) == Got(n, tail)
  {
    NumberOfLittleEndian(n, w);
  }

  // ---- variable-length integers ----

  function VarInt(n: nat): (r: seq<Byte>)
    ensures |r| >= 1
  {
    if n < 0xfd then [n]
    else if n <= 0xffff then [0xfd] + LittleEndian(n, 2)
    else if n <= 0xffff_ffff then [0xfe] + LittleEndian(n, 4)
    else [0xff] + LittleEndian(n, 8)
  }

  function ReadVarInt(s: seq<Byte>): Parsed<nat> {
    if s == [] then Short
    else if s[0] < 0xfd then Got(s[0], s[1..])
    else if s[0] == 0xfd then ReadNumber(s[1..], 2)
    else if s[0] == 0xfe then ReadNumber(s[1..], 4)
    else ReadNumber(s[1..], 8)
  }

  lemma Powers()
    ensures Pow256(2) == 0x1_0000 && Pow256(4) == 0x1_0000_0000 && Pow256(8) == UINT64
  {
    assert Pow256(2) == 256 * Pow256(1);
    assert Pow256(4) == 256 * Pow256(3) == 65536 * Pow256(2);
    assert Pow256(8) == 256 * Pow256(7) == 65536 * Pow256(6) == 0x100_0000 * Pow256(5) == 0x1_0000_0000 * Pow256(4);
  }

  lemma ReadVarIntBack(n: nat, tail: seq<Byte>)
    requires n < UINT64
    ensures ReadVarInt(VarInt(n) + tail) == Got(n, tail)
  {
    hide LittleEndian, Number;
    Powers();
    var s := VarInt(n) + tail;
    if n >= 0xfd {
      var w := if n <= 0xffff then 2 else if n <= 0xffff_ffff then 4 else 8;
      assert s[1..] == LittleEndian(n, w) + tail;
      ReadNumberBack(n, w, tail);
    }
  }

  // ---- repetition ----

  function ReadMany<T>(read: seq<Byte> -> Parsed<T>, s: seq<Byte>, n: nat): Parsed<seq<T>>
    decreases n
  {
    if n == 0 then Got([], s)
    else
      var first :- read(s);
      var others :- ReadMany(read, first.1, n - 1);
      Got([first.0] + others.0, others.1)
  }

  function WriteMany<T>(write: T -> seq<Byte>, xs: seq<T>): seq<Byte> {
    if xs == [] then [] else write(xs[0]) + WriteMany(write, xs[1..])
  }

  /** What is read from the bytes written for x is x, and what follows is left. */
  ghost predicate ReadsBack<T>(read: seq<Byte> -> Parsed<T>, write: T -> seq<Byte>, x: T, y: T) {
    forall tail :: read(write(x) + tail) == Got(y, tail)
  }

  lemma Assoc(a: seq<Byte>, b: seq<Byte>, tail: seq<Byte>)
    ensures (a + b) + tail == a + (b + tail)
  {
  }

  /** Reading back a sequence of written items; xs are written, ys are read. */
  lemma {:induction false} ReadManyBack<T>(read: seq<Byte> -> Parsed<T>, write: T -> seq<Byte>, xs: seq<T>,
                                           ys: seq<T>, tail: seq<Byte>)
    requires |xs| == |ys| && forall i :: 0 <= i < |xs| ==> ReadsBack(read, write, xs[i], ys[i])
    ensures ReadMany(read, WriteMany(write, xs) + tail, |xs|) == Got(ys, tail)
    decreases |xs|
  {
    hide ReadsBack;
    if xs == [] {
      assert WriteMany(write, xs) + tail == tail;
      assert ys == [];
    } else {
      var others := WriteMany(write, xs[1..]);
      ReadManyBack(read, write, xs[1..], ys[1..], tail);
      Assoc(write(xs[0]), others, tail);
      ReadOneBack(read, write, xs[0], ys[0], others + tail);
      assert ys == [ys[0]] + ys[1..];
    }
  }

  lemma ReadOneBack<T>(read: seq<Byte> -> Parsed<T>, write: T -> seq<Byte>, x: T, y: T, tail: seq<Byte>)
    requires ReadsBack(read, write, x, y)
    ensures read(write(x) + tail) == Got(y, tail)
  {
  }

  /** Items already read, put in front of what the rest of a loop reads. */
  function Prepend<T>(done: seq<T>, others: Parsed<seq<T>>): Parsed<seq<T>> {
    match others
    case Short => Short
    case Got(xs, rest) => Got(done + xs, rest)
  }

  lemma PrependStep<T>(read: seq<Byte> -> Parsed<T>, done: seq<T>, s: seq<Byte>, n: nat)
    requires n > 0
    ensures Prepend(done, ReadMany(read, s, n)) ==
            match read(s) { case Short => Short case Got(x, rest) => Prepend(done + [x], ReadMany(read, rest, n - 1)) }
  {
    if read(s).Got? {
      var others := ReadMany(read, read(s).rest, n - 1);
      if others.Got? {
        assert done + ([read(s).value] + others.value) == done + [read(s).value] + others.value;
      }
    }
  }

  lemma {:induction false} WriteManyAppend<T>(write: T -> seq<Byte>, xs: seq<T>, x: T)
    ensures WriteMany(write, xs + [x]) == WriteMany(write, xs) + write(x)
    decreases |xs|
  {
    if xs == [] {
      assert xs + [x] == [x] && [x][1..] == [];
      assert WriteMany(write, [x]) == write(x) + [];
    } else {
      assert (xs + [x])[1..] == xs[1..] + [x];
      WriteManyAppend(write, xs[1..], x);
      Assoc(write(xs[0]), WriteMany(write, xs[1..]), write(x));
    }
  }

  // ---- writing into a buffer ----

  function Overwrite(s: seq<Byte>, at: nat, data: seq<Byte>): (r: seq<Byte>)
    requires at + |data| <= |s|
    ensures |r| == |s|
  {
    s[..at] + data + s[at + |data|..]
  }

  lemma OverwriteNothing(s: seq<Byte>, at: nat)
    requires at <= |s|
    ensures Overwrite(s, at, []) == s
  {
  }

  lemma OverwriteMore(s: seq<Byte>, at: nat, data: seq<Byte>, more: seq<Byte>)
    requires at + |data| + |more| <= |s|
    ensures Overwrite(Overwrite(s, at, data), at + |data|, more) == Overwrite(s, at, data + more)
  {
  }

  method PutBytes(target: array<Byte>, at: nat, data: seq<Byte>)
    requires at + |data| <= target.Length
    modifies target
    ensures target[..] == Overwrite(old(target[..]), at, data)
  {
    forall i | 0 <= i < |data| {
      target[at + i] := data[i];
    }
  }

  method PutNumber(target: array<Byte>, at: nat, n: nat, w: nat)
    requires at + w <= target.Length
    modifies target
    ensures target[..] == Overwrite(old(target[..]), at, LittleEndian(n, w))
  {
    ghost var was := target[..];
    var m, i := n, 0;
    OverwriteNothing(was, at);
    ghost var done: seq<Byte> := [];
    while i < w
      invariant i <= w && |done| == i && target[..] == Overwrite(was, at, done)
      invariant LittleEndian(n, w) == done + LittleEndian(m, w - i)
    {
      PutBytes(target, at + i, [m % 256]);
      OverwriteMore(was, at, done, [m % 256]);
      Assoc(done, [m % 256], LittleEndian(m / 256, w - i - 1));
      done := done + [m % 256];
      m, i := m / 256, i + 1;
    }
    assert done == LittleEndian(n, w);
  }

  /** The four forms of the encoder. */
  method EncodeVarInt(target: array<Byte>, at: nat, n: nat) returns (size: nat)
    requires n < UINT64 && at + |VarInt(n)| <= target.Length
    modifies target
    ensures size == |VarInt(n)| && target[..] == Overwrite(old(target[..]), at, VarInt(n))
  {
    hide LittleEndian;
    ghost var was := target[..];
    if n < 0xfd {
      PutBytes(target, at, [n]);
      return 1;
    }
    var w := if n <= 0xffff then 2 else if n <= 0xffff_ffff then 4 else 8;
    var tag: Byte := if w == 2 then 0xfd else if w == 4 then 0xfe else 0xff;
    PutBytes(target, at, [tag]);
    PutNumber(target, at + 1, n, w);
    OverwriteMore(was, at, [tag], LittleEndian(n, w));
    return w + 1;
  }
}
