/** Variable-length quantities: most significant group first, seven bits per byte, high bit set on every byte
    but the last, and one subtracted for every group shifted out so that no value has two encodings. */
module Vlq {
  import opened Words

  type Byte = x: nat | x < 256

  /** The encoding of n whose last byte carries `mark` (0 for a terminated encoding, 128 otherwise). */
  function Groups(n: nat, mark: nat): (r: seq<Byte>)
    requires mark == 0 || mark == 128
    ensures |r| >= 1
  {
    if n <= 127 then [n + mark] else Groups(n / 128 - 1, 128) + [n % 128 + mark]
  }

  function Encode(n: nat): (r: seq<Byte>)
    ensures |r| >= 1
  {
    Groups(n, 0)
  }

  /** Shift seven bits in, in 64-bit arithmetic. */
  function Shift(n: nat, b: Byte): (r: nat)
    ensures r < UINT64
  {
    (n * 128 + b % 128) % UINT64
  }

  /** The decoding loop from accumulator n, in 64-bit arithmetic: the value and the bytes consumed. */
  function DecodeFrom(n: nat, s: seq<Byte>): (r: (nat, nat))
    ensures r.1 <= |s| && (s != [] ==> r.1 >= 1)
    ensures n < UINT64 ==> r.0 < UINT64
    decreases |s|
  {
    if s == [] then (n, 0)
    else
      var v := Shift(n, s[0]);
      if s[0] < 128 then (v, 1)
      else
        var r := DecodeFrom((v + 1) % UINT64, s[1..]);
        (r.0, r.1 + 1)
  }

  function Decode(s: seq<Byte>): (r: (nat, nat))
    ensures r.1 <= |s| && r.0 < UINT64 && (s != [] ==> r.1 >= 1)
  {
    DecodeFrom(0, s)
  }

  // ---- decoding an encoding ----

  lemma ShiftSmall(n: nat, b: Byte)
    requires n * 128 + b % 128 < UINT64
    ensures Shift(n, b) == n * 128 + b % 128
  {
  }

  lemma DecodeStep(n: nat, b: Byte, tail: seq<Byte>)
    ensures DecodeFrom(n, [b] + tail) ==
            if b < 128 then (Shift(n, b), 1)
            else (DecodeFrom((Shift(n, b) + 1) % UINT64, tail).0, DecodeFrom((Shift(n, b) + 1) % UINT64, tail).1 + 1)
  {
    assert ([b] + tail)[1..] == tail;
  }

  lemma LastGroup(n: nat)
    requires n > 127
    ensures n / 128 >= 1 && n / 128 * 128 + n % 128 == n && (n % 128 + 128) % 128 == n % 128
  {
  }

  /** Reading a group sequence that promises more leaves one more than its value in the accumulator. */
  lemma {:induction false} DecodeOpenGroups(n: nat, tail: seq<Byte>)
    requires n + 1 < UINT64
    ensures DecodeFrom(0, Groups(n, 128) + tail) ==
            (DecodeFrom(n + 1, tail).0, DecodeFrom(n + 1, tail).1 + |Groups(n, 128)|)
  {
    hide Shift, DecodeFrom;
    if n <= 127 {
      ShiftSmall(0, n + 128);
      DecodeStep(0, n + 128, tail);
    } else {
      var last: Byte := n % 128 + 128;
      DecodeOpenGroups(n / 128 - 1, [last] + tail);
      assert Groups(n, 128) + tail == Groups(n / 128 - 1, 128) + ([last] + tail);
      LastGroup(n);
      ShiftSmall(n / 128, last);
      DecodeStep(n / 128, last, tail);
    }
  }

  /** Decoding recovers the number and the number of bytes, whatever follows the encoding. */
  lemma DecodeEncode(n: nat, tail: seq<Byte>)
    requires n < UINT64
    ensures Decode(Encode(n) + tail) == (n, |Encode(n)|)
  {
    hide Shift, DecodeFrom;
    if n <= 127 {
      ShiftSmall(0, n);
      DecodeStep(0, n, tail);
    } else {
      var last: Byte := n % 128;
      DecodeOpenGroups(n / 128 - 1, [last] + tail);
      assert Encode(n) + tail == Groups(n / 128 - 1, 128) + ([last] + tail);
      LastGroup(n);
      ShiftSmall(n / 128, last);
      DecodeStep(n / 128, last, tail);
    }
  }

  // ---- encoding a decoding ----

  /** Every byte but the last has its high bit set. */
  predicate Open(s: seq<Byte>) {
    forall i :: 0 <= i < |s| ==> s[i] >= 128
  }

  predicate Terminated(s: seq<Byte>) {
    s != [] && Open(s[..|s| - 1]) && s[|s| - 1] < 128
  }

  /** The accumulator after an open sequence, in unbounded arithmetic. */
  function OpenValue(s: seq<Byte>): nat
    requires Open(s)
  {
    if s == [] then 0 else OpenValue(s[..|s| - 1]) * 128 + s[|s| - 1] % 128 + 1
  }

  /** The number a terminated sequence stands for. */
  function Value(s: seq<Byte>): nat
    requires Terminated(s)
  {
    OpenValue(s[..|s| - 1]) * 128 + s[|s| - 1]
  }

  lemma {:induction false} OpenIsGroups(s: seq<Byte>)
    requires Open(s) && s != []
    ensures OpenValue(s) >= 1 && Groups(OpenValue(s) - 1, 128) == s
  {
    var init, last := s[..|s| - 1], s[|s| - 1];
    assert s == init + [last];
    if init != [] {
      OpenIsGroups(init);
      GroupSplit(OpenValue(init), last % 128);
    }
  }

  lemma GroupSplit(q: nat, r: nat)
    requires q >= 1 && r < 128
    ensures q * 128 + r > 127 && (q * 128 + r) / 128 - 1 == q - 1 && (q * 128 + r) % 128 == r
  {
  }

  /** Every terminated sequence is the encoding of its value: no value has two encodings. */
  lemma EncodeValue(s: seq<Byte>)
    requires Terminated(s)
    ensures Encode(Value(s)) == s
  {
    var init, last := s[..|s| - 1], s[|s| - 1];
    assert s == init + [last];
    if init != [] {
      OpenIsGroups(init);
      GroupSplit(OpenValue(init), last);
    }
  }

  lemma {:induction false} EncodeTerminated(n: nat)
    ensures Terminated(Encode(n)) && Value(Encode(n)) == n
  {
    var s := Encode(n);
    if n > 127 {
      GroupsOpen(n / 128 - 1);
      assert s[..|s| - 1] == Groups(n / 128 - 1, 128);
    } else {
      assert s[..0] == [];
    }
  }

  lemma {:induction false} GroupsOpen(n: nat)
    ensures Open(Groups(n, 128)) && OpenValue(Groups(n, 128)) == n + 1
  {
    var s := Groups(n, 128);
    if n > 127 {
      GroupsOpen(n / 128 - 1);
      assert s[..|s| - 1] == Groups(n / 128 - 1, 128);
    } else {
      assert s[..0] == [];
    }
  }

  /** Re-encoding what was decoded from a terminated sequence gives the sequence back exactly when its value
      fits in 64 bits. */
  lemma EncodeDecodeIff(s: seq<Byte>)
    requires Terminated(s)
    ensures Encode(Decode(s).0) == s <==> Value(s) < UINT64
    ensures Value(s) < UINT64 ==> Decode(s) == (Value(s), |s|)
  {
    hide Encode, Decode, Value, Terminated;
    if Value(s) < UINT64 {
      EncodeValue(s);
      DecodeEncode(Value(s), []);
      assert s + [] == s;
    } else {
      EncodeTerminated(Decode(s).0);
    }
  }

  // ---- the program's loops ----

  function Reversed(s: seq<Byte>): (r: seq<Byte>)
    ensures |r| == |s| && forall i :: 0 <= i < |s| ==> r[i] == s[|s| - 1 - i]
  {
    seq(|s|, i requires 0 <= i < |s| => s[|s| - 1 - i])
  }

  lemma ReversedAppend(s: seq<Byte>, b: Byte)
    ensures Reversed(s + [b]) == [b] + Reversed(s)
  {
  }

  lemma ReversedNothing()
    ensures Reversed([]) == []
  {
  }

  method SerializeSizeVLQ(n: nat) returns (size: nat)
    ensures size == |Encode(n)|
  {
    var m, mark := n, 0;
    size := 1;
    while m > 0x7f
      invariant mark == 0 || mark == 128
      invariant size - 1 + |Groups(m, mark)| == |Encode(n)|
      decreases m
    {
      m, mark := m / 128 - 1, 128;
      size := size + 1;
    }
  }

  /** Writes the groups of n from the least significant one; the bytes are the encoding backwards. */
  method PutGroups(target: array<Byte>, at: nat, n: nat) returns (size: nat)
    requires at + |Encode(n)| <= target.Length
    modifies target
    ensures size == |Encode(n)| && Reversed(target[at..at + size]) == Encode(n)
    ensures target[..at] == old(target[..at]) && target[at + size..] == old(target[at + size..])
  {
    hide Reversed;
    var m, offset, mark := n, 0, 0;
    assert target[at..at] == [];
    ReversedNothing();
    while m > 0x7f
      invariant mark == if offset == 0 then 0 else 128
      invariant offset + |Groups(m, mark)| == |Encode(n)|
      invariant Encode(n) == Groups(m, mark) + Reversed(target[at..at + offset])
      invariant target[..at] == old(target[..at]) && target[at + |Encode(n)|..] == old(target[at + |Encode(n)|..])
      decreases m
    {
      AppendGroup(target[at..at + offset], m, mark);
      PutByte(target, at, offset, m % 128 + mark, |Encode(n)|);
      m, mark, offset := m / 128 - 1, 128, offset + 1;
    }
    AppendGroup(target[at..at + offset], m, mark);
    PutByte(target, at, offset, m + mark, |Encode(n)|);
    size := offset + 1;
  }

  /** Writes one byte behind those already written, inside the first `size` bytes from `at` on. */
  method PutByte(target: array<Byte>, at: nat, offset: nat, b: Byte, ghost size: nat)
    requires offset < size && at + size <= target.Length
    modifies target
    ensures target[at..at + offset + 1] == old(target[at..at + offset]) + [b]
    ensures target[..at] == old(target[..at]) && target[at + size..] == old(target[at + size..])
  {
    target[at + offset] := b;
  }

  lemma AppendGroup(done: seq<Byte>, m: nat, mark: nat)
    requires mark == 0 || mark == 128
    ensures var b := m % 128 + mark;
            m > 127 ==> Groups(m, mark) + Reversed(done) == Groups(m / 128 - 1, 128) + Reversed(done + [b])
    ensures m <= 127 ==> Groups(m, mark) + Reversed(done) == Reversed(done + [m + mark])
  {
    ReversedAppend(done, m % 128 + mark);
  }

  /** Reverses a range in place. */
  method ReverseRange(target: array<Byte>, at: nat, size: nat)
    requires at + size <= target.Length
    modifies target
    ensures target[at..at + size] == Reversed(old(target[at..at + size]))
    ensures target[..at] == old(target[..at]) && target[at + size..] == old(target[at + size..])
  {
    ghost var was := target[..];
    var i, j := at, at + size - 1;
    while i < j
      invariant at <= i <= at + size && i + j == at + at + size - 1
      invariant forall k :: at <= k < i ==>
                            target[k] == was[at + at + size - 1 - k] && target[at + at + size - 1 - k] == was[k]
      invariant forall k :: i <= k <= j ==> target[k] == was[k]
      invariant forall k :: 0 <= k < at || at + size <= k < target.Length ==> target[k] == was[k]
    {
      target[i], target[j] := target[j], target[i];
      i, j := i + 1, j - 1;
    }
    SwappedIsReversed(was, target[..], at, size, i);
  }

  lemma SwappedIsReversed(was: seq<Byte>, now: seq<Byte>, at: nat, size: nat, i: nat)
    requires |was| == |now| && at + size <= |was| && at <= i <= at + size && i + i >= at + at + size - 1
    requires forall k :: at <= k < i ==> now[k] == was[at + at + size - 1 - k] && now[at + at + size - 1 - k] == was[k]
    requires forall k :: i <= k <= at + at + size - 1 - i ==> now[k] == was[k]
    ensures now[at..at + size] == Reversed(was[at..at + size])
  {
    var part, reversed := now[at..at + size], Reversed(was[at..at + size]);
    forall k | 0 <= k < |part| ensures part[k] == reversed[k] {
      var mirror := at + size - 1 - k;
      if at + k >= i && mirror < i {
        assert now[mirror] == was[at + at + size - 1 - mirror] && now[at + at + size - 1 - mirror] == was[mirror];
      }
    }
  }

  /** Writes the encoding of n at `at` and returns its length; nothing else changes. */
  method PutVLQ(target: array<Byte>, at: nat, n: nat) returns (size: nat)
    requires at + |Encode(n)| <= target.Length
    modifies target
    ensures size == |Encode(n)| && target[at..at + size] == Encode(n)
    ensures target[..at] == old(target[..at]) && target[at + size..] == old(target[at + size..])
  {
    size := PutGroups(target, at, n);
    ReverseRange(target, at, size);
  }

  /** The decoding loop. */
  method DeserializeVLQ(serialized: seq<Byte>) returns (n: nat, size: nat)
    ensures (n, size) == Decode(serialized)
  {
    n, size := 0, 0;
    while size < |serialized|
      invariant size <= |serialized| && n < UINT64
      invariant Decode(serialized) == (DecodeFrom(n, serialized[size..]).0, DecodeFrom(n, serialized[size..]).1 + size)
    {
      var val := serialized[size];
      assert serialized[size..][1..] == serialized[size + 1..];
      size := size + 1;
      n := Shift(n, val);
      if val < 128 {
        return;
      }
      n := (n + 1) % UINT64;
    }
  }
}
