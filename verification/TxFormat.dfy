/** Bitcoin transactions: parsing, the two serializations (with and without witness, as in the section
    "Serialization" of BIP 144), the bytes hashed for the transaction id (the section "Transaction ID" of
    BIP 141), and the stripped form the indexer prints. */
module TxFormat {
  import opened Words
  import opened Vlq
  import opened Wire

  /** `scriptWitness` holds the raw bytes of the input's witness stack. */
  datatype TxIn = TxIn(hash: seq<Byte>, vout: nat, scriptSig: seq<Byte>, sequence: nat, scriptWitness: seq<Byte>)
  datatype TxOut = TxOut(satoshi: nat, pkScript: seq<Byte>)

  /** `witOffset` is where the witness data starts, 0 for a transaction without witness. */
  datatype Tx = Tx(version: nat, ins: seq<TxIn>, outs: seq<TxOut>, lockTime: nat, witOffset: nat)

  predicate GoodIn(i: TxIn) {
    |i.hash| == 32 && i.vout < UINT32 && |i.scriptSig| < UINT64 && i.sequence < UINT32
  }

  predicate GoodOut(o: TxOut) {
    o.satoshi < UINT64 && |o.pkScript| < UINT64
  }

  ghost predicate Good(t: Tx) {
    && t.version < UINT32 && t.lockTime < UINT32 && |t.ins| < UINT64 && |t.outs| < UINT64
    && (forall i :: 0 <= i < |t.ins| ==> GoodIn(t.ins[i]))
    && (forall i :: 0 <= i < |t.outs| ==> GoodOut(t.outs[i]))
  }

  // ---- serializations ----

  function ScriptBytes(s: seq<Byte>): seq<Byte> {
    VarInt(|s|) + s
  }

  function InBytes(i: TxIn): seq<Byte> {
    i.hash + (LittleEndian(i.vout, 4) + (ScriptBytes(i.scriptSig) + LittleEndian(i.sequence, 4)))
  }

  function OutBytes(o: TxOut): seq<Byte> {
    LittleEndian(o.satoshi, 8) + ScriptBytes(o.pkScript)
  }

  function BodyBytes(ins: seq<TxIn>, outs: seq<TxOut>): seq<Byte> {
    VarInt(|ins|) + (WriteMany(InBytes, ins) + (VarInt(|outs|) + WriteMany(OutBytes, outs)))
  }

  /** Serialization without witness. */
  function Plain(t: Tx): seq<Byte> {
    LittleEndian(t.version, 4) + (BodyBytes(t.ins, t.outs) + LittleEndian(t.lockTime, 4))
  }

  function Whole(b: seq<Byte>): seq<Byte> {
    b
  }

  function Wits(ins: seq<TxIn>): (r: seq<seq<Byte>>)
    ensures |r| == |ins|
  {
    seq(|ins|, i requires 0 <= i < |ins| => ins[i].scriptWitness)
  }

  /** Serialization with marker, flag and witness data. */
  function WithWitness(t: Tx): seq<Byte> {
    LittleEndian(t.version,
                 4) + ([0, 1] + (BodyBytes(t.ins,
                                           t.outs) + (WriteMany(Whole, Wits(t.ins)) + LittleEndian(t.lockTime, 4))))
  }

  /** A witness stack on the wire. */
  function StackBytes(stack: seq<seq<Byte>>): seq<Byte> {
    VarInt(|stack|) + WriteMany(ScriptBytes, stack)
  }

  ghost predicate IsStack(b: seq<Byte>) {
    exists stack :: GoodStack(stack) && b == StackBytes(stack)
  }

  predicate GoodStack(stack: seq<seq<Byte>>) {
    |stack| < UINT64 && forall i :: 0 <= i < |stack| ==> |stack[i]| < UINT64
  }

  // ---- parsing ----

  function ReadScript(s: seq<Byte>): Parsed<seq<Byte>> {
    var n :- ReadVarInt(s);
    ReadBytes(n.1, n.0)
  }

  function ReadIn(s: seq<Byte>): Parsed<TxIn> {
    var hash :- ReadBytes(s, 32);
    var vout :- ReadNumber(hash.1, 4);
    var sig :- ReadScript(vout.1);
    var sequence :- ReadNumber(sig.1, 4);
    Got(TxIn(hash.0, vout.0, sig.0, sequence.0, []), sequence.1)
  }

  function ReadOut(s: seq<Byte>): Parsed<TxOut> {
    var satoshi :- ReadNumber(s, 8);
    var script :- ReadScript(satoshi.1);
    Got(TxOut(satoshi.0, script.0), script.1)
  }

  function ReadStack(s: seq<Byte>): Parsed<seq<seq<Byte>>> {
    var n :- ReadVarInt(s);
    ReadMany(ReadScript, n.1, n.0)
  }

  /** A stack's bytes, whole. */
  function ReadWits(s: seq<Byte>): Parsed<seq<Byte>> {
    var stack :- ReadStack(s);
    if |stack.1| > |s| then Short else Got(s[..|s| - |stack.1|], stack.1)
  }

  function ReadBody(s: seq<Byte>): Parsed<(seq<TxIn>, seq<TxOut>)> {
    var n :- ReadVarInt(s);
    var ins :- ReadMany(ReadIn, n.1, n.0);
    var m :- ReadVarInt(ins.1);
    var outs :- ReadMany(ReadOut, m.1, m.0);
    Got((ins.0, outs.0), outs.1)
  }

  function SetWitness(ins: seq<TxIn>, wits: seq<seq<Byte>>): (r: seq<TxIn>)
    requires |wits| == |ins|
    ensures |r| == |ins|
  {
    seq(|ins|, i requires 0 <= i < |ins| => ins[i].(scriptWitness := wits[i]))
  }

  /** Marker and flag at the start of what follows the version. */
  predicate Marked(s: seq<Byte>) {
    |s| >= 2 && s[0] == 0 && s[1] == 1
  }

  function ReadPlainRest(version: nat, s: seq<Byte>): Parsed<Tx> {
    var body :- ReadBody(s);
    var lock :- ReadNumber(body.1, 4);
    Got(Tx(version, body.0.0, body.0.1, lock.0, 0), lock.1)
  }

  function ReadWitnessRest(version: nat, s: seq<Byte>): Parsed<Tx> {
    var body :- ReadBody(s);
    var wits :- ReadMany(ReadWits, body.1, |body.0.0|);
    var lock :- ReadNumber(wits.1, 4);
    if |wits.0| != |body.0.0| || |s| < |body.1| then Short
    else Got(Tx(version, SetWitness(body.0.0, wits.0), body.0.1, lock.0, 6 + |s| - |body.1|), lock.1)
  }

  function ReadTx(s: seq<Byte>): Parsed<Tx> {
    var version :- ReadNumber(s, 4);
    if version.1 == [] || version.1 == [0] then Short
    else if Marked(version.1) then ReadWitnessRest(version.0, version.1[2..])
    else ReadPlainRest(version.0, version.1)
  }

  // ---- every field reads back ----

  function NoWitness(i: TxIn): TxIn {
    i.(scriptWitness := [])
  }

  lemma ScriptReadsBack(b: seq<Byte>)
    requires |b| < UINT64
    ensures ReadsBack(ReadScript, ScriptBytes, b, b)
  {
    hide VarInt, ReadVarInt;
    forall tail ensures ReadScript(ScriptBytes(b) + tail) == Got(b, tail) {
      Assoc(VarInt(|b|), b, tail);
      ReadVarIntBack(|b|, b + tail);
      ReadBytesBack(b, tail);
    }
  }

  lemma InReadsBack(i: TxIn)
    requires GoodIn(i)
    ensures ReadsBack(ReadIn, InBytes, i, NoWitness(i))
  {
    hide LittleEndian, ReadNumber, ReadScript, ScriptBytes, ReadBytes;
    Powers();
    var d := LittleEndian(i.sequence, 4);
    var c := ScriptBytes(i.scriptSig);
    var b := LittleEndian(i.vout, 4);
    forall tail ensures ReadIn(InBytes(i) + tail) == Got(NoWitness(i), tail) {
      Assoc(i.hash, b + (c + d), tail);
      Assoc(b, c + d, tail);
      Assoc(c, d, tail);
      ReadBytesBack(i.hash, b + (c + (d + tail)));
      ReadNumberBack(i.vout, 4, c + (d + tail));
      ScriptReadsBack(i.scriptSig);
      ReadOneBack(ReadScript, ScriptBytes, i.scriptSig, i.scriptSig, d + tail);
      ReadNumberBack(i.sequence, 4, tail);
    }
  }

  lemma OutReadsBack(o: TxOut)
    requires GoodOut(o)
    ensures ReadsBack(ReadOut, OutBytes, o, o)
  {
    hide LittleEndian, ReadNumber, ReadScript, ScriptBytes;
    Powers();
    var a, b := LittleEndian(o.satoshi, 8), ScriptBytes(o.pkScript);
    forall tail ensures ReadOut(OutBytes(o) + tail) == Got(o, tail) {
      Assoc(a, b, tail);
      ReadNumberBack(o.satoshi, 8, b + tail);
      ScriptReadsBack(o.pkScript);
      ReadOneBack(ReadScript, ScriptBytes, o.pkScript, o.pkScript, tail);
    }
  }

  function Bare(ins: seq<TxIn>): (r: seq<TxIn>)
    ensures |r| == |ins|
  {
    seq(|ins|, i requires 0 <= i < |ins| => NoWitness(ins[i]))
  }

  lemma BodyReadsBack(t: Tx, tail: seq<Byte>)
    requires Good(t)
    ensures ReadBody(BodyBytes(t.ins, t.outs) + tail) == Got((Bare(t.ins), t.outs), tail)
  {
    hide VarInt, ReadVarInt, WriteMany, ReadMany, ReadsBack;
    forall i | 0 <= i < |t.ins| ensures ReadsBack(ReadIn, InBytes, t.ins[i], Bare(t.ins)[i]) { InReadsBack(t.ins[i]); }
    forall i | 0 <= i < |t.outs| ensures ReadsBack(ReadOut, OutBytes, t.outs[i], t.outs[i]) { OutReadsBack(t.outs[i]); }
    var a, b, c, d := VarInt(|t.ins|), WriteMany(InBytes, t.ins), VarInt(|t.outs|), WriteMany(OutBytes, t.outs);
    Assoc(a, b + (c + d), tail);
    Assoc(b, c + d, tail);
    Assoc(c, d, tail);
    ReadVarIntBack(|t.ins|, b + (c + (d + tail)));
    ReadManyBack(ReadIn, InBytes, t.ins, Bare(t.ins), c + (d + tail));
    ReadVarIntBack(|t.outs|, d + tail);
    ReadManyBack(ReadOut, OutBytes, t.outs, t.outs, tail);
  }

  /** Parsing a witness stack recovers every item. */
  lemma StackReadsBack(stack: seq<seq<Byte>>, tail: seq<Byte>)
    requires GoodStack(stack)
    ensures ReadStack(StackBytes(stack) + tail) == Got(stack, tail)
  {
    hide VarInt, ReadVarInt, WriteMany, ReadMany, ReadsBack;
    forall i | 0 <= i < |stack| ensures ReadsBack(ReadScript, ScriptBytes, stack[i], stack[i]) {
      ScriptReadsBack(stack[i]);
    }
    Assoc(VarInt(|stack|), WriteMany(ScriptBytes, stack), tail);
    ReadVarIntBack(|stack|, WriteMany(ScriptBytes, stack) + tail);
    ReadManyBack(ReadScript, ScriptBytes, stack, stack, tail);
  }

  lemma WitsReadBack(b: seq<Byte>)
    requires IsStack(b)
    ensures ReadsBack(ReadWits, Whole, b, b)
  {
    hide StackBytes, ReadStack;
    var stack :| GoodStack(stack) && b == StackBytes(stack);
    forall tail ensures ReadWits(Whole(b) + tail) == Got(b, tail) {
      StackReadsBack(stack, tail);
      assert (b + tail)[..|b|] == b;
    }
  }

  // ---- whole transactions read back ----

  /** The transaction as its serialization without witness shows it. */
  function WithoutWitness(t: Tx): Tx {
    t.(ins := Bare(t.ins), witOffset := 0)
  }

  lemma PlainRestReadsBack(t: Tx, tail: seq<Byte>)
    requires Good(t)
    ensures ReadPlainRest(t.version, (BodyBytes(t.ins, t.outs) + LittleEndian(t.lockTime, 4)) + tail) ==
            Got(WithoutWitness(t), tail)
  {
    hide BodyBytes, ReadBody, LittleEndian, ReadNumber;
    Powers();
    var body, lock := BodyBytes(t.ins, t.outs), LittleEndian(t.lockTime, 4);
    Assoc(body, lock, tail);
    BodyReadsBack(t, lock + tail);
    ReadNumberBack(t.lockTime, 4, tail);
  }

  ghost predicate HasWitness(t: Tx) {
    forall i :: 0 <= i < |t.ins| ==> IsStack(t.ins[i].scriptWitness)
  }

  lemma WitnessRestReadsBack(t: Tx, tail: seq<Byte>)
    requires Good(t) && HasWitness(t)
    ensures var body := BodyBytes(t.ins, t.outs);
            ReadWitnessRest(t.version, (body + (WriteMany(Whole, Wits(t.ins)) + LittleEndian(t.lockTime, 4))) + tail)
            == Got(t.(witOffset := 6 + |body|), tail)
  {
    hide BodyBytes, ReadBody, LittleEndian, ReadNumber, ReadMany, WriteMany, ReadsBack, IsStack;
    Powers();
    var body, wits, lock := BodyBytes(t.ins, t.outs), WriteMany(Whole, Wits(t.ins)), LittleEndian(t.lockTime, 4);
    Assoc(body, wits + lock, tail);
    Assoc(wits, lock, tail);
    BodyReadsBack(t, wits + (lock + tail));
    forall i | 0 <= i < |t.ins| ensures ReadsBack(ReadWits, Whole, Wits(t.ins)[i], Wits(t.ins)[i]) {
      WitsReadBack(t.ins[i].scriptWitness);
    }
    ReadManyBack(ReadWits, Whole, Wits(t.ins), Wits(t.ins), lock + tail);
    ReadNumberBack(t.lockTime, 4, tail);
    assert SetWitness(Bare(t.ins), Wits(t.ins)) == t.ins;
  }

  /** A serialization with witness is parsed to the transaction, with the witness offset where the witness
      data starts, and nothing more is consumed. */
  lemma WitnessReadsBack(t: Tx, tail: seq<Byte>)
    requires Good(t) && HasWitness(t)
    ensures ReadTx(WithWitness(t) + tail) == Got(t.(witOffset := 6 + |BodyBytes(t.ins, t.outs)|), tail)
  {
    hide BodyBytes, LittleEndian, ReadNumber, ReadWitnessRest, ReadPlainRest, WriteMany, HasWitness;
    Powers();
    var version := LittleEndian(t.version, 4);
    var rest := BodyBytes(t.ins, t.outs) + (WriteMany(Whole, Wits(t.ins)) + LittleEndian(t.lockTime, 4));
    Assoc(version, [0, 1] + rest, tail);
    Assoc([0, 1], rest, tail);
    ReadNumberBack(t.version, 4, [0, 1] + (rest + tail));
    assert ([0, 1] + (rest + tail))[2..] == rest + tail;
    WitnessRestReadsBack(t, tail);
  }

  lemma FirstByte(n: nat)
    requires n < UINT64
    ensures VarInt(n)[0] == 0 <==> n == 0
    ensures VarInt(n)[0] == 1 <==> n == 1
    ensures n <= 1 ==> |VarInt(n)| == 1
  {
  }

  /** Where the two kinds of serialization can be confused. */
  predicate LooksMarked(t: Tx) {
    |t.ins| == 0 && |t.outs| == 1
  }

  lemma BodyMarked(t: Tx, tail: seq<Byte>)
    requires Good(t)
    ensures var s := BodyBytes(t.ins, t.outs) + tail;
            |s| >= 2 && (Marked(s) <==> LooksMarked(t))
  {
    hide VarInt, InBytes, OutBytes;
    FirstByte(|t.ins|);
    FirstByte(|t.outs|);
    var s := BodyBytes(t.ins, t.outs) + tail;
    assert s[0] == VarInt(|t.ins|)[0];
    if |t.ins| == 0 {
      assert WriteMany(InBytes, t.ins) == [];
      assert s[1] == VarInt(|t.outs|)[0];
    }
  }

  lemma PlainStarts(t: Tx, tail: seq<Byte>)
    requires Good(t)
    ensures var rest := (BodyBytes(t.ins, t.outs) + LittleEndian(t.lockTime, 4)) + tail;
            && ReadNumber(Plain(t) + tail, 4) == Got(t.version, rest)
            && |rest| >= 2 && (Marked(rest) <==> LooksMarked(t))
  {
    hide BodyBytes, LittleEndian, ReadNumber;
    Powers();
    var version, body, lock := LittleEndian(t.version, 4), BodyBytes(t.ins, t.outs), LittleEndian(t.lockTime, 4);
    Assoc(version, body + lock, tail);
    Assoc(body, lock, tail);
    ReadNumberBack(t.version, 4, (body + lock) + tail);
    BodyMarked(t, lock + tail);
  }

  /** A serialization without witness is parsed to the transaction, whatever follows, exactly when it is not
      one of no inputs and one output: that one starts like a witness transaction. */
  lemma PlainReadsBackIff(t: Tx, tail: seq<Byte>)
    requires Good(t)
    ensures ReadTx(Plain(t) + tail) == Got(WithoutWitness(t), tail) <==> !LooksMarked(t)
  {
    hide Plain, BodyBytes, LittleEndian, ReadNumber, ReadWitnessRest, ReadPlainRest;
    PlainStarts(t, tail);
    var rest := (BodyBytes(t.ins, t.outs) + LittleEndian(t.lockTime, 4)) + tail;
    if LooksMarked(t) {
      WitnessHasOffset(t.version, rest[2..]);
    } else {
      PlainRestReadsBack(t, tail);
    }
  }

  lemma WitnessHasOffset(version: nat, s: seq<Byte>)
    ensures ReadWitnessRest(version, s).Got? ==> ReadWitnessRest(version, s).value.witOffset >= 6
  {
    hide ReadBody, ReadMany, ReadNumber;
  }

  // ---- the transaction id ----

  /** The bytes hashed for the id of a transaction with witness. */
  function WitnessPreimage(raw: seq<Byte>, witOffset: nat): seq<Byte>
    requires 6 <= witOffset <= |raw| && |raw| >= 4
  {
    raw[..4] + raw[6..witOffset] + raw[|raw| - 4..]
  }

  /** The id of a witness transaction is the hash of its serialization without witness. */
  lemma PreimageIsPlain(t: Tx)
    requires Good(t)
    ensures WitnessPreimage(WithWitness(t), 6 + |BodyBytes(t.ins, t.outs)|) == Plain(t)
  {
    hide BodyBytes, LittleEndian, WriteMany;
    var version, body, wits, lock := LittleEndian(t.version, 4), BodyBytes(t.ins, t.outs),
      WriteMany(Whole, Wits(t.ins)), LittleEndian(t.lockTime, 4);
    Pieces(version, body, wits, lock);
  }

  lemma Pieces(version: seq<Byte>, body: seq<Byte>, wits: seq<Byte>, lock: seq<Byte>)
    requires |version| == 4 && |lock| == 4
    ensures var raw := version + ([0, 1] + (body + (wits + lock)));
            raw[..4] == version && raw[6..6 + |body|] == body && raw[|raw| - 4..] == lock
    ensures version + body + lock == version + (body + lock)
  {
  }

  // ---- the stripped form ----

  const OP_RETURN: Byte := 0x6a

  predicate IsOpReturn(s: seq<Byte>) {
    (|s| > 0 && s[0] == OP_RETURN) || (|s| > 1 && s[0] == 0 && s[1] == OP_RETURN)
  }

  function StripIn(i: TxIn): TxIn {
    i.(scriptSig := [], scriptWitness := [])
  }

  function StripOut(o: TxOut): TxOut {
    if IsOpReturn(o.pkScript) then o.(pkScript := [OP_RETURN]) else o
  }

  function StripIns(ins: seq<TxIn>): (r: seq<TxIn>)
    ensures |r| == |ins|
  {
    seq(|ins|, i requires 0 <= i < |ins| => StripIn(ins[i]))
  }

  function StripOuts(outs: seq<TxOut>): (r: seq<TxOut>)
    ensures |r| == |outs|
  {
    seq(|outs|, i requires 0 <= i < |outs| => StripOut(outs[i]))
  }

  /** Without unlocking data, witness and data-carrier payloads. */
  function Strip(t: Tx): Tx {
    Tx(t.version, StripIns(t.ins), StripOuts(t.outs), t.lockTime, 0)
  }

  lemma StripGood(t: Tx)
    requires Good(t)
    ensures Good(Strip(t)) && WithoutWitness(Strip(t)) == Strip(t)
  {
    assert Bare(Strip(t).ins) == Strip(t).ins;
  }

  /** Parsing the stripped bytes consumes exactly those bytes and yields the stripped transaction, for every
      transaction with at least one input. */
  lemma StrippedReadsBack(t: Tx, tail: seq<Byte>)
    requires Good(t) && |t.ins| >= 1
    ensures ReadTx(Plain(Strip(t)) + tail) == Got(Strip(t), tail)
  {
    hide Plain, ReadTx, Good;
    StripGood(t);
    PlainReadsBackIff(Strip(t), tail);
  }

  /** What of a script is printed: of one that starts with 0x6a or with 0x00 0x6a only 0x6a, of any other all. */
  function Printed(s: seq<Byte>): seq<Byte> {
    if [0x6a] <= s || [0x00, 0x6a] <= s then [0x6a] else s
  }

  /** u is t without unlocking data, witness and data-carrier payloads, and otherwise the same. */
  ghost predicate IsStripped(t: Tx, u: Tx) {
    && u.version == t.version && u.lockTime == t.lockTime && u.witOffset == 0
    && |u.ins| == |t.ins| && |u.outs| == |t.outs|
    && (forall i :: 0 <= i < |t.ins| ==>
                    && u.ins[i].hash == t.ins[i].hash && u.ins[i].vout == t.ins[i].vout
                    && u.ins[i].sequence == t.ins[i].sequence
                    && u.ins[i].scriptSig == [] && u.ins[i].scriptWitness == [])
    && (forall i :: 0 <= i < |t.outs| ==>
                    u.outs[i].satoshi == t.outs[i].satoshi && u.outs[i].pkScript == Printed(t.outs[i].pkScript))
  }

  lemma PrintedScript(o: TxOut)
    ensures StripOut(o) == TxOut(o.satoshi, Printed(o.pkScript))
  {
    var s := o.pkScript;
    assert |s| >= 1 ==> ([0x6a] <= s <==> s[0] == 0x6a);
    assert |s| >= 2 ==> ([0x00, 0x6a] <= s <==> s[0] == 0x00 && s[1] == 0x6a);
  }

  lemma StripIsStripped(t: Tx)
    ensures IsStripped(t, Strip(t))
  {
    hide Printed, StripOut;
    forall i | 0 <= i < |t.outs| ensures StripOut(t.outs[i]) == TxOut(t.outs[i].satoshi, Printed(t.outs[i].pkScript)) {
      PrintedScript(t.outs[i]);
    }
  }

  /** The printed bytes of a transaction with inputs parse to it without what is stripped, and to nothing else. */
  lemma StrippedSays(t: Tx, tail: seq<Byte>) returns (u: Tx)
    requires Good(t) && |t.ins| >= 1
    ensures ReadTx(Plain(Strip(t)) + tail) == Got(u, tail) && IsStripped(t, u)
  {
    hide Plain, ReadTx, Good, IsStripped, Strip;
    u := Strip(t);
    StrippedReadsBack(t, tail);
    StripIsStripped(t);
  }
}
