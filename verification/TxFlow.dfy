/** Transactions as the program handles them: loops that advance through the bytes and fill the transaction,
    a loop that writes the stripped form into a buffer, and the transactions of a whole block. */
module TxFlow {
  import opened Words
  import opened Vlq
  import opened Wire
  import opened TxFormat

  /** Reads n items one after the other. */
  method ReadItems<T>(read: seq<Byte> -> Parsed<T>, raw: seq<Byte>, n: nat) returns (r: Parsed<seq<T>>)
    ensures r == ReadMany(read, raw, n)
  {
    var items: seq<T>, rest := [], raw;
    var i := 0;
    assert forall p: Parsed<seq<T>> :: p.Got? ==> [] + p.value == p.value;
    while i < n
      invariant i <= n
      invariant ReadMany(read, raw, n) == Prepend(items, ReadMany(read, rest, n - i))
    {
      PrependStep(read, items, rest, n - i);
      var item := read(rest);
      if item.Short? {
        return Short;
      }
      items, rest := items + [item.value], item.rest;
      i := i + 1;
    }
    assert items + [] == items;
    return Got(items, rest);
  }

  method NewTxWit(raw: seq<Byte>) returns (r: Parsed<seq<seq<Byte>>>)
    ensures r == ReadStack(raw)
  {
    var count := ReadVarInt(raw);
    if count.Short? {
      return Short;
    }
    r := ReadItems(ReadScript, count.rest, count.value);
  }

  method NewBody(raw: seq<Byte>) returns (r: Parsed<(seq<TxIn>, seq<TxOut>)>)
    ensures r == ReadBody(raw)
  {
    hide ReadMany, ReadVarInt;
    var inCount := ReadVarInt(raw);
    if inCount.Short? {
      return Short;
    }
    var ins := ReadItems(ReadIn, inCount.rest, inCount.value);
    if ins.Short? {
      return Short;
    }
    var outCount := ReadVarInt(ins.rest);
    if outCount.Short? {
      return Short;
    }
    var outs := ReadItems(ReadOut, outCount.rest, outCount.value);
    if outs.Short? {
      return Short;
    }
    return Got((ins.value, outs.value), outs.rest);
  }

  method NewTx(raw: seq<Byte>) returns (r: Parsed<Tx>)
    ensures r == ReadTx(raw)
  {
    hide ReadMany, ReadBody, ReadNumber, SetWitness;
    var version := ReadNumber(raw, 4);
    if version.Short? || version.rest == [] || version.rest == [0] {
      return Short;
    }
    var rest := version.rest;
    var isWit := Marked(rest);
    if isWit {
      rest := rest[2..];
    }
    var body := NewBody(rest);
    if body.Short? {
      return Short;
    }
    var ins := body.value.0;
    var witOffset, after := 0, body.rest;
    if isWit {
      var wits := ReadItems(ReadWits, body.rest, |ins|);
      if wits.Short? || |wits.value| != |ins| || |rest| < |body.rest| {
        return Short;
      }
      witOffset, after := 6 + |rest| - |body.rest|, wits.rest;
      ins := SetWitness(ins, wits.value);
    }
    var lock := ReadNumber(after, 4);
    if lock.Short? {
      return Short;
    }
    return Got(Tx(version.value, ins, body.value.1, lock.value, witOffset), lock.rest);
  }

  // ---- printing the stripped form ----

  method NewRawTxIn(target: array<Byte>, at: nat, i: TxIn) returns (size: nat)
    requires GoodIn(i) && at + |InBytes(StripIn(i))| <= target.Length
    modifies target
    ensures size == |InBytes(StripIn(i))| && target[..] == Overwrite(old(target[..]), at, InBytes(StripIn(i)))
    ensures target[..at + size] == old(target[..at]) + i.hash + LittleEndian(i.vout, 4) + [0]
                                   + LittleEndian(i.sequence, 4)
  {
    hide LittleEndian, Overwrite;
    ghost var was := target[..];
    var vout := LittleEndian(i.vout, 4);
    PutBytes(target, at, i.hash + vout);
    PutBytes(target, at + 36, [0]);
    OverwriteMore(was, at, i.hash + vout, [0]);
    PutNumber(target, at + 37, i.sequence, 4);
    OverwriteMore(was, at, i.hash + vout + [0], LittleEndian(i.sequence, 4));
    assert i.hash + vout + [0] + LittleEndian(i.sequence, 4) == InBytes(StripIn(i)) by { StrippedIn(i); }
    size := 41;
    OverwrittenPrefix(was, at, i.hash + vout + [0] + LittleEndian(i.sequence, 4));
  }

  lemma OverwrittenPrefix(was: seq<Byte>, at: nat, data: seq<Byte>)
    requires at + |data| <= |was|
    ensures Overwrite(was, at, data)[..at + |data|] == was[..at] + data
  {
  }

  lemma StrippedIn(i: TxIn)
    ensures i.hash + LittleEndian(i.vout, 4) + [0] + LittleEndian(i.sequence, 4) == InBytes(StripIn(i))
  {
    hide LittleEndian;
    assert ScriptBytes([]) == [0];
  }

  method NewRawTxOut(target: array<Byte>, at: nat, o: TxOut) returns (size: nat)
    requires GoodOut(o) && at + |OutBytes(StripOut(o))| <= target.Length
    modifies target
    ensures size == |OutBytes(StripOut(o))| && target[..] == Overwrite(old(target[..]), at, OutBytes(StripOut(o)))
    ensures var script := if [0x6a] <= o.pkScript || [0x00, 0x6a] <= o.pkScript then [0x6a] else o.pkScript;
            target[..at + size] == old(target[..at]) + LittleEndian(o.satoshi, 8) + (VarInt(|script|) + script)
  {
    hide LittleEndian, Overwrite, VarInt;
    ghost var was := target[..];
    PrintedScript(o);
    ghost var amount := LittleEndian(o.satoshi, 8);
    SmallVarInts();
    PutNumber(target, at, o.satoshi, 8);
    if |o.pkScript| == 0 {
      PutBytes(target, at + 8, [0]);
      OverwriteMore(was, at, amount, [0]);
      assert [0] == ScriptBytes(o.pkScript);
      size := 9;
    } else if IsOpReturn(o.pkScript) {
      PutBytes(target, at + 8, [1, OP_RETURN]);
      OverwriteMore(was, at, amount, [1, OP_RETURN]);
      assert [1, OP_RETURN] == ScriptBytes([OP_RETURN]);
      size := 10;
    } else {
      var k := EncodeVarInt(target, at + 8, |o.pkScript|);
      PutBytes(target, at + 8 + k, o.pkScript);
      OverwriteMore(was, at, amount, VarInt(|o.pkScript|));
      OverwriteMore(was, at, amount + VarInt(|o.pkScript|), o.pkScript);
      Assoc(amount, VarInt(|o.pkScript|), o.pkScript);
      size := 8 + k + |o.pkScript|;
    }
    OverwrittenPrefix(was, at, OutBytes(StripOut(o)));
    ThreePieces(was[..at], amount, ScriptBytes(StripOut(o).pkScript));
  }

  lemma ThreePieces(a: seq<Byte>, b: seq<Byte>, c: seq<Byte>)
    ensures a + (b + c) == a + b + c
  {
  }

  lemma SmallVarInts()
    ensures VarInt(0) == [0] && VarInt(1) == [1]
  {
  }

  /** Writes all inputs, stripped, one behind the other. */
  method PutIns(target: array<Byte>, at: nat, ins: seq<TxIn>) returns (size: nat)
    requires forall i :: 0 <= i < |ins| ==> GoodIn(ins[i])
    requires at + |WriteMany(InBytes, StripIns(ins))| <= target.Length
    modifies target
    ensures size == |WriteMany(InBytes, StripIns(ins))|
    ensures target[..] == Overwrite(old(target[..]), at, WriteMany(InBytes, StripIns(ins)))
  {
    hide Overwrite, WriteMany, InBytes;
    ghost var was, stripped := target[..], StripIns(ins);
    ghost var done: seq<Byte> := [];
    size := 0;
    OverwriteNothing(was, at);
    NothingWritten(InBytes, stripped);
    for i := 0 to |ins|
      invariant done == WriteMany(InBytes, stripped[..i]) && size == |done|
      invariant at + |done| <= target.Length && target[..] == Overwrite(was, at, done)
    {
      PrefixWritten(InBytes, stripped, i);
      var k := NewRawTxIn(target, at + size, ins[i]);
      OverwriteMore(was, at, done, InBytes(StripIn(ins[i])));
      done := done + InBytes(stripped[i]);
      size := size + k;
    }
    assert stripped[..|ins|] == stripped;
  }

  method PutOuts(target: array<Byte>, at: nat, outs: seq<TxOut>) returns (size: nat)
    requires forall i :: 0 <= i < |outs| ==> GoodOut(outs[i])
    requires at + |WriteMany(OutBytes, StripOuts(outs))| <= target.Length
    modifies target
    ensures size == |WriteMany(OutBytes, StripOuts(outs))|
    ensures target[..] == Overwrite(old(target[..]), at, WriteMany(OutBytes, StripOuts(outs)))
  {
    hide Overwrite, WriteMany, OutBytes;
    ghost var was, stripped := target[..], StripOuts(outs);
    ghost var done: seq<Byte> := [];
    size := 0;
    OverwriteNothing(was, at);
    NothingWritten(OutBytes, stripped);
    for i := 0 to |outs|
      invariant done == WriteMany(OutBytes, stripped[..i]) && size == |done|
      invariant at + |done| <= target.Length && target[..] == Overwrite(was, at, done)
    {
      PrefixWritten(OutBytes, stripped, i);
      var k := NewRawTxOut(target, at + size, outs[i]);
      OverwriteMore(was, at, done, OutBytes(StripOut(outs[i])));
      done := done + OutBytes(stripped[i]);
      size := size + k;
    }
    assert stripped[..|outs|] == stripped;
  }

  lemma NothingWritten<T>(write: T -> seq<Byte>, xs: seq<T>)
    ensures WriteMany(write, xs[..0]) == []
  {
  }

  /** Writing a prefix and the next item is writing the longer prefix, and fits where the whole does. */
  lemma PrefixWritten<T>(write: T -> seq<Byte>, xs: seq<T>, i: nat)
    requires i < |xs|
    ensures WriteMany(write, xs[..i + 1]) == WriteMany(write, xs[..i]) + write(xs[i])
    ensures |WriteMany(write, xs[..i])| + |write(xs[i])| <= |WriteMany(write, xs)|
  {
    assert xs[..i + 1] == xs[..i] + [xs[i]];
    WriteManyAppend(write, xs[..i], xs[i]);
    PrefixShorter(write, xs, i + 1);
  }

  lemma {:induction false} PrefixShorter<T>(write: T -> seq<Byte>, xs: seq<T>, i: nat)
    requires i <= |xs|
    ensures |WriteMany(write, xs[..i])| <= |WriteMany(write, xs)|
    decreases |xs| - i
  {
    if i == |xs| {
      assert xs[..i] == xs;
    } else {
      assert xs[..i + 1] == xs[..i] + [xs[i]];
      WriteManyAppend(write, xs[..i], xs[i]);
      PrefixShorter(write, xs, i + 1);
    }
  }

  /** Writes the stripped transaction: exactly the serialization without witness of its stripped form. */
  method NewRawTx(target: array<Byte>, t: Tx) returns (size: nat)
    requires Good(t) && |Plain(Strip(t))| <= target.Length
    modifies target
    ensures size == |Plain(Strip(t))| && target[..] == Overwrite(old(target[..]), 0, Plain(Strip(t)))
    ensures |t.ins| >= 1 ==> exists u :: ReadTx(target[..size]) == Got(u, []) && IsStripped(t, u)
  {
    hide Overwrite, WriteMany, LittleEndian, VarInt, IsStripped, ReadTx;
    ghost var was, s := target[..], Strip(t);
    ghost var version, lock := LittleEndian(t.version, 4), LittleEndian(t.lockTime, 4);
    ghost var ins, outs := WriteMany(InBytes, s.ins), WriteMany(OutBytes, s.outs);
    ghost var done := version;
    PutNumber(target, 0, t.version, 4);
    size := 4;
    var k := EncodeVarInt(target, size, |t.ins|);
    OverwriteMore(was, 0, done, VarInt(|t.ins|));
    size, done := size + k, done + VarInt(|t.ins|);
    k := PutIns(target, size, t.ins);
    OverwriteMore(was, 0, done, ins);
    size, done := size + k, done + ins;
    k := EncodeVarInt(target, size, |t.outs|);
    OverwriteMore(was, 0, done, VarInt(|t.outs|));
    size, done := size + k, done + VarInt(|t.outs|);
    k := PutOuts(target, size, t.outs);
    OverwriteMore(was, 0, done, outs);
    size, done := size + k, done + outs;
    PutNumber(target, size, t.lockTime, 4);
    OverwriteMore(was, 0, done, lock);
    size, done := size + 4, done + lock;
    LeftToRight(version, VarInt(|t.ins|), ins, VarInt(|t.outs|), outs, lock);
    WrittenSays(was, t);
  }

  lemma WrittenSays(was: seq<Byte>, t: Tx)
    requires Good(t) && |Plain(Strip(t))| <= |was|
    ensures var raw := Overwrite(was, 0, Plain(Strip(t)))[..|Plain(Strip(t))|];
            |t.ins| >= 1 ==> exists u :: ReadTx(raw) == Got(u, []) && IsStripped(t, u)
  {
    hide Overwrite, Plain, Strip, Good, IsStripped, ReadTx;
    var s := Plain(Strip(t));
    OverwrittenPrefix(was, 0, s);
    assert was[..0] + s == s && s + [] == s;
    if |t.ins| >= 1 {
      var u := StrippedSays(t, []);
    }
  }

  lemma LeftToRight(a: seq<Byte>, b: seq<Byte>, c: seq<Byte>, d: seq<Byte>, e: seq<Byte>, f: seq<Byte>)
    ensures a + b + c + d + e + f == a + ((b + (c + (d + e))) + f)
  {
  }

  // ---- the transactions of a block ----

  datatype BlockTx = BlockTx(tx: Tx, raw: seq<Byte>, preimage: seq<Byte>)
  datatype BlockTxs = OutOfBytes | Refused | Txs(txs: seq<BlockTx>)

  /** A parsed transaction with its bytes and the bytes hashed for its id. */
  function ReadBlockTx(s: seq<Byte>): Parsed<BlockTx> {
    var tx :- ReadTx(s);
    if |s| < |tx.1| then Short
    else
      var raw := s[..|s| - |tx.1|];
      if tx.0.witOffset == 0 then Got(BlockTx(tx.0, raw, raw), tx.1)
      else if 6 <= tx.0.witOffset <= |raw| then Got(BlockTx(tx.0, raw, WitnessPreimage(raw, tx.0.witOffset)), tx.1)
      else Short
  }

  /** The first transaction without inputs or without outputs makes the whole block refused. */
  function ReadBlockTxs(s: seq<Byte>, n: nat): BlockTxs
    decreases n
  {
    if n == 0 then Txs([])
    else match ReadBlockTx(s)
      case Short => OutOfBytes
      case Got(b, rest) =>
        if b.tx.ins == [] || b.tx.outs == [] then Refused
        else match ReadBlockTxs(rest, n - 1)
          case Txs(others) => Txs([b] + others)
          case failed => failed
  }

  function Before(done: seq<BlockTx>, others: BlockTxs): BlockTxs {
    if others.Txs? then Txs(done + others.txs) else others
  }

  method NewTxs(raw: seq<Byte>) returns (r: BlockTxs)
    ensures r == match ReadVarInt(raw) { case Short => OutOfBytes case Got(n, rest) => ReadBlockTxs(rest, n) }
  {
    hide ReadBlockTx;
    var count := ReadVarInt(raw);
    if count.Short? {
      return OutOfBytes;
    }
    var n, rest := count.value, count.rest;
    var done: seq<BlockTx>, i := [], 0;
    NoneBefore(ReadBlockTxs(rest, n));
    while i < n
      invariant i <= n && ReadBlockTxs(count.rest, n) == Before(done, ReadBlockTxs(rest, n - i))
    {
      var next := ReadBlockTx(rest);
      if next.Short? {
        return OutOfBytes;
      }
      if next.value.tx.ins == [] || next.value.tx.outs == [] {
        return Refused;
      }
      OneBefore(done, next.value, ReadBlockTxs(next.rest, n - i - 1));
      done, rest, i := done + [next.value], next.rest, i + 1;
    }
    assert done + [] == done;
    return Txs(done);
  }

  lemma NoneBefore(b: BlockTxs)
    ensures Before([], b) == b
  {
    if b.Txs? { assert [] + b.txs == b.txs; }
  }

  lemma OneBefore(done: seq<BlockTx>, b: BlockTx, others: BlockTxs)
    ensures others.Txs? ==> Before(done, Txs([b] + others.txs)) == Before(done + [b], others)
    ensures !others.Txs? ==> Before(done, others) == Before(done + [b], others)
  {
    if others.Txs? {
      assert done + ([b] + others.txs) == done + [b] + others.txs;
    }
  }

  /** A transaction to be put on the wire, with or without witness. */
  datatype Entry = Entry(tx: Tx, segwit: bool)

  function EntryBytes(e: Entry): seq<Byte> {
    if e.segwit then WithWitness(e.tx) else Plain(e.tx)
  }

  ghost predicate GoodEntry(e: Entry) {
    Good(e.tx) && |e.tx.ins| >= 1 && |e.tx.outs| >= 1 && (e.segwit ==> HasWitness(e.tx))
  }

  /** What the block parser makes of it: the same transaction, and the id taken over its serialization
      without witness in both cases. */
  function Seen(e: Entry): BlockTx {
    BlockTx(if e.segwit then e.tx.(witOffset := 6 + |BodyBytes(e.tx.ins, e.tx.outs)|) else WithoutWitness(e.tx),
            EntryBytes(e), Plain(e.tx))
  }

  lemma EntryReadsBack(e: Entry, tail: seq<Byte>)
    requires GoodEntry(e)
    ensures ReadBlockTx(EntryBytes(e) + tail) == Got(Seen(e), tail)
  {
    hide ReadTx, Plain, WithWitness, BodyBytes, WitnessPreimage;
    var s := EntryBytes(e) + tail;
    assert s[..|EntryBytes(e)|] == EntryBytes(e);
    if e.segwit {
      WitnessReadsBack(e.tx, tail);
      PreimageIsPlain(e.tx);
      OffsetInside(e.tx);
    } else {
      PlainReadsBackIff(e.tx, tail);
    }
  }

  lemma OffsetInside(t: Tx)
    ensures 6 + |BodyBytes(t.ins, t.outs)| <= |WithWitness(t)|
  {
    hide BodyBytes, WriteMany;
  }

  function SeenAll(es: seq<Entry>): (r: seq<BlockTx>)
    ensures |r| == |es|
  {
    seq(|es|, i requires 0 <= i < |es| => Seen(es[i]))
  }

  lemma {:induction false} EntriesReadBack(es: seq<Entry>, tail: seq<Byte>)
    requires forall i :: 0 <= i < |es| ==> GoodEntry(es[i])
    ensures ReadBlockTxs(WriteMany(EntryBytes, es) + tail, |es|) == Txs(SeenAll(es))
    decreases |es|
  {
    hide ReadBlockTx, EntryBytes, GoodEntry;
    if es != [] {
      var others := WriteMany(EntryBytes, es[1..]);
      Assoc(EntryBytes(es[0]), others, tail);
      EntryReadsBack(es[0], others + tail);
      EntryHasBoth(es[0]);
      EntriesReadBack(es[1..], tail);
      assert SeenAll(es) == [Seen(es[0])] + SeenAll(es[1..]);
    }
  }

  lemma EntryHasBoth(e: Entry)
    requires GoodEntry(e)
    ensures Seen(e).tx.ins != [] && Seen(e).tx.outs != []
  {
  }

  /** Parsing a block's transaction list recovers every transaction in order, with its own bytes and with
      the bytes its id is taken over. */
  lemma BlockReadsBack(es: seq<Entry>, tail: seq<Byte>)
    requires |es| < UINT64 && forall i :: 0 <= i < |es| ==> GoodEntry(es[i])
    ensures var parsed := ReadVarInt(VarInt(|es|) + (WriteMany(EntryBytes, es) + tail));
            parsed.Got? && ReadBlockTxs(parsed.rest, parsed.value) == Txs(SeenAll(es))
  {
    hide VarInt, ReadVarInt, WriteMany, ReadBlockTxs, GoodEntry;
    ReadVarIntBack(|es|, WriteMany(EntryBytes, es) + tail);
    EntriesReadBack(es, tail);
  }
}
