/** Compressed scripts and transaction outputs. Standard scripts lose their fixed opcodes; every other script
    is preceded by its length plus six; an output is a compressed amount followed by a compressed script. */
module TxOutCodec {
  import opened Words
  import opened Vlq
  import Amount
  import AmountWrap

  type Script = seq<Byte>

  const OP_DATA_20: Byte := 0x14
  const OP_DATA_33: Byte := 0x21
  const OP_DATA_65: Byte := 0x41
  const OP_DUP: Byte := 0x76
  const OP_EQUAL: Byte := 0x87
  const OP_EQUALVERIFY: Byte := 0x88
  const OP_HASH160: Byte := 0xa9
  const OP_CHECKSIG: Byte := 0xac

  const SPECIAL_SCRIPTS: nat := 6
  const INT64_MAX: nat := 0x7fff_ffff_ffff_ffff

  predicate IsPubKeyHash(s: Script) {
    |s| == 25 && s[0] == OP_DUP && s[1] == OP_HASH160 && s[2] == OP_DATA_20 && s[23] == OP_EQUALVERIFY &&
      s[24] == OP_CHECKSIG
  }

  predicate IsScriptHash(s: Script) {
    |s| == 23 && s[0] == OP_HASH160 && s[1] == OP_DATA_20 && s[22] == OP_EQUAL
  }

  predicate IsCompressedPubKey(s: Script) {
    |s| == 35 && s[0] == OP_DATA_33 && s[34] == OP_CHECKSIG && (s[1] == 0x02 || s[1] == 0x03)
  }

  predicate IsUncompressedPubKey(s: Script) {
    |s| == 67 && s[0] == OP_DATA_65 && s[66] == OP_CHECKSIG && s[1] == 0x04
  }

  /** The bytes written for a script. */
  function CompressScript(s: Script): (r: seq<Byte>)
    ensures |r| >= 1
  {
    if IsPubKeyHash(s) then [0] + s[3..23]
    else if IsScriptHash(s) then [1] + s[2..22]
    else if IsCompressedPubKey(s) then s[1..34]
    else if IsUncompressedPubKey(s) then s[1..66]
    else Encode(|s| + SPECIAL_SCRIPTS) + s
  }

  /** uint64 to int, two's complement. */
  function ToInt(x: int): int {
    var u := x % UINT64;
    if u > INT64_MAX then u - UINT64 else u
  }

  /** The size by script type or length prefix n read from k bytes. */
  function SizeByPrefix(n: nat, k: nat): int {
    if n <= 1 then 21 else if n <= 3 then 33 else if n <= 5 then 65 else ToInt(n - SPECIAL_SCRIPTS + k)
  }

  function DecodeScriptSize(serialized: seq<Byte>): int {
    var (n, k) := Decode(serialized);
    if k == 0 then 0 else SizeByPrefix(n, k)
  }

  /** `Fault` stands for a slice expression out of range. */
  datatype Decompressed = Script(script: Script) | Fault

  function DecompressScript(c: seq<Byte>): Decompressed {
    if c == [] then Script([])
    else
      var (n, k) := Decode(c);
      if n == 0 then
        if |c| < k + 20 then Fault
        else Script([OP_DUP, OP_HASH160, OP_DATA_20] + c[k..k + 20] + [OP_EQUALVERIFY, OP_CHECKSIG])
      else if n == 1 then
        if |c| < k + 20 then Fault
        else Script([OP_HASH160, OP_DATA_20] + c[k..k + 20] + [OP_EQUAL])
      else if n <= 3 then
        if |c| < k + 32 then Fault
        else Script([OP_DATA_33, n] + c[k..k + 32] + [OP_CHECKSIG])
      else if n <= 5 then
        if |c| - k < 64 then Script([])
        else Script([OP_DATA_65, n] + c[k..k + 64] + [OP_CHECKSIG])
      else
        var size := ToInt(n - SPECIAL_SCRIPTS);
        if size < 0 || |c| < k + size then Fault else Script(c[k..k + size])
  }

  // ---- script round trip ----

  lemma OneBytePrefix(b: Byte, tail: seq<Byte>)
    requires b < 128
    ensures Decode([b] + tail) == (b, 1)
  {
    DecodeEncode(b, tail);
    assert Encode(b) == [b];
  }

  lemma Framed(s: Script, i: nat, j: nat)
    requires i <= j <= |s|
    ensures s == s[..i] + s[i..j] + s[j..]
  {
  }

  /** A standard script is its fixed opcodes around what is kept. */
  lemma StandardShape(s: Script)
    ensures IsPubKeyHash(s) ==> s == [OP_DUP, OP_HASH160, OP_DATA_20] + s[3..23] + [OP_EQUALVERIFY, OP_CHECKSIG]
    ensures IsScriptHash(s) ==> s == [OP_HASH160, OP_DATA_20] + s[2..22] + [OP_EQUAL]
    ensures IsCompressedPubKey(s) ==> s == [OP_DATA_33, s[1]] + s[2..34] + [OP_CHECKSIG]
    ensures IsUncompressedPubKey(s) ==> s == [OP_DATA_65, s[1]] + s[2..66] + [OP_CHECKSIG]
  {
    if IsPubKeyHash(s) {
      Framed(s, 3, 23);
      assert s[..3] == [OP_DUP, OP_HASH160, OP_DATA_20] && s[23..] == [OP_EQUALVERIFY, OP_CHECKSIG];
    } else if IsScriptHash(s) {
      Framed(s, 2, 22);
      assert s[..2] == [OP_HASH160, OP_DATA_20] && s[22..] == [OP_EQUAL];
    } else if IsCompressedPubKey(s) {
      Framed(s, 2, 34);
      assert s[..2] == [OP_DATA_33, s[1]] && s[34..] == [OP_CHECKSIG];
    } else if IsUncompressedPubKey(s) {
      Framed(s, 2, 66);
      assert s[..2] == [OP_DATA_65, s[1]] && s[66..] == [OP_CHECKSIG];
    }
  }

  /** n bytes between a fixed start and a fixed end. */
  predicate IsFramed(s: Script, start: seq<Byte>, n: nat, end: seq<Byte>) {
    |s| == |start| + n + |end| && start <= s && s[|start| + n..] == end
  }

  /** The four standard scripts, byte by byte. */
  lemma StandardIff(s: Script)
    ensures IsPubKeyHash(s) <==> IsFramed(s, [0x76, 0xa9, 0x14], 20, [0x88, 0xac])
    ensures IsScriptHash(s) <==> IsFramed(s, [0xa9, 0x14], 20, [0x87])
    ensures IsCompressedPubKey(s) <==> IsFramed(s, [0x21, 0x02], 32, [0xac]) || IsFramed(s, [0x21, 0x03], 32, [0xac])
    ensures IsUncompressedPubKey(s) <==> IsFramed(s, [0x41, 0x04], 64, [0xac])
  {
  }

  /** What is written for each: a type byte and the bytes between, or the length plus six and the whole script. */
  lemma CompressedForms(s: Script)
    ensures IsFramed(s, [0x76, 0xa9, 0x14], 20, [0x88, 0xac]) ==> CompressScript(s) == [0] + s[3..23]
    ensures IsFramed(s, [0xa9, 0x14], 20, [0x87]) ==> CompressScript(s) == [1] + s[2..22]
    ensures IsFramed(s, [0x21, 0x02], 32, [0xac]) ==> CompressScript(s) == [2] + s[2..34]
    ensures IsFramed(s, [0x21, 0x03], 32, [0xac]) ==> CompressScript(s) == [3] + s[2..34]
    ensures IsFramed(s, [0x41, 0x04], 64, [0xac]) ==> CompressScript(s) == [4] + s[2..66]
    ensures || IsFramed(s, [0x76, 0xa9, 0x14], 20, [0x88, 0xac]) || IsFramed(s, [0xa9, 0x14], 20, [0x87])
            || IsFramed(s, [0x21, 0x02], 32, [0xac]) || IsFramed(s, [0x21, 0x03], 32, [0xac])
            || IsFramed(s, [0x41, 0x04], 64, [0xac]) || CompressScript(s) == Encode(|s| + 6) + s
  {
    hide Encode;
    StandardIff(s);
    TypeAndData(s);
  }

  /** Type byte and data of a compressed standard script. */
  lemma TypeAndData(s: Script)
    ensures IsPubKeyHash(s) ==> CompressScript(s) == [0] + s[3..23]
    ensures IsScriptHash(s) ==> CompressScript(s) == [1] + s[2..22]
    ensures IsCompressedPubKey(s) ==> CompressScript(s) == [s[1]] + s[2..34]
    ensures IsUncompressedPubKey(s) ==> CompressScript(s) == [s[1]] + s[2..66]
  {
    hide Encode;
  }

  /** Reading a type byte below six and then data of the size it announces. */
  lemma TaggedReadsBack(tag: Byte, data: seq<Byte>, tail: seq<Byte>)
    requires tag < 6 && 1 + |data| == SizeByPrefix(tag, 1)
    ensures DecodeScriptSize([tag] + data + tail) == 1 + |data|
    ensures DecompressScript([tag] + data) == Script(
              if tag == 0 then [OP_DUP, OP_HASH160, OP_DATA_20] + data + [OP_EQUALVERIFY, OP_CHECKSIG]
              else if tag == 1 then [OP_HASH160, OP_DATA_20] + data + [OP_EQUAL]
              else [if tag <= 3 then OP_DATA_33 else OP_DATA_65, tag] + data + [OP_CHECKSIG])
  {
    hide Decode;
    var c := [tag] + data;
    OneBytePrefix(tag, data);
    OneBytePrefix(tag, data + tail);
    assert c + tail == [tag] + (data + tail);
    assert c[1..1 + |data|] == data;
  }

  lemma SpecialRoundTrip(s: Script, tail: seq<Byte>)
    requires IsPubKeyHash(s) || IsScriptHash(s) || IsCompressedPubKey(s) || IsUncompressedPubKey(s)
    ensures DecodeScriptSize(CompressScript(s) + tail) == |CompressScript(s)|
    ensures DecompressScript(CompressScript(s)) == Script(s)
  {
    hide DecodeScriptSize, DecompressScript, CompressScript;
    StandardShape(s);
    TypeAndData(s);
    if IsPubKeyHash(s) {
      TaggedReadsBack(0, s[3..23], tail);
    } else if IsScriptHash(s) {
      TaggedReadsBack(1, s[2..22], tail);
    } else if IsCompressedPubKey(s) {
      TaggedReadsBack(s[1], s[2..34], tail);
    } else {
      TaggedReadsBack(s[1], s[2..66], tail);
    }
  }

  lemma GeneralRoundTrip(s: Script, tail: seq<Byte>)
    requires |s| + SPECIAL_SCRIPTS + |Encode(|s| + SPECIAL_SCRIPTS)| <= INT64_MAX
    ensures var c := Encode(|s| + SPECIAL_SCRIPTS) + s;
            DecodeScriptSize(c + tail) == |c| && DecompressScript(c) == Script(s)
  {
    hide Decode, Encode;
    var n := |s| + SPECIAL_SCRIPTS;
    DecodeEncode(n, s);
    DecodeEncode(n, s + tail);
    assert Encode(n) + s + tail == Encode(n) + (s + tail);
  }

  /** Decompressing a compressed script recovers it, and the size is found whatever data follows. */
  lemma ScriptRoundTrip(s: Script, tail: seq<Byte>)
    requires |s| + SPECIAL_SCRIPTS + |Encode(|s| + SPECIAL_SCRIPTS)| <= INT64_MAX
    ensures DecodeScriptSize(CompressScript(s) + tail) == |CompressScript(s)|
    ensures DecompressScript(CompressScript(s)) == Script(s)
  {
    hide Decode, Encode;
    if IsPubKeyHash(s) || IsScriptHash(s) || IsCompressedPubKey(s) || IsUncompressedPubKey(s) {
      SpecialRoundTrip(s, tail);
    } else {
      GeneralRoundTrip(s, tail);
    }
  }

  // ---- outputs ----

  datatype TxOut =
    | Output(amount: nat, script: Script, size: nat)
    | EndAfterAmount(read: nat)
    | EndAfterScriptSize(read: nat)
    | OutOfRange

  function CompressAmount(amount: nat): (c: nat)
    ensures c < UINT64
  {
    Amount.Compress(amount) % UINT64
  }

  function EncodeTxOut(amount: nat, s: Script): seq<Byte> {
    Encode(CompressAmount(amount)) + CompressScript(s)
  }

  function DecodeTxOut(serialized: seq<Byte>): TxOut {
    var (c, read) := Decode(serialized);
    if read >= |serialized| then EndAfterAmount(read)
    else
      var rest := serialized[read..];
      var size := DecodeScriptSize(rest);
      if |rest| < size then EndAfterScriptSize(read)
      else if size < 0 then OutOfRange
      else match DecompressScript(rest[..size])
        case Fault => OutOfRange
        case Script(s) => Output(Amount.Decompress(c) % UINT64, s, read + size)
  }

  ghost predicate Fits(s: Script) {
    |s| + SPECIAL_SCRIPTS + |Encode(|s| + SPECIAL_SCRIPTS)| <= INT64_MAX
  }

  /** The amount that is left after compression and decompression in 64 bits. */
  function Surviving(amount: nat): nat {
    Amount.Decompress(CompressAmount(amount)) % UINT64
  }

  /** Decoding an encoded output recovers script and byte count even with trailing data, and the amount as far
      as it survives. */
  lemma DecodedTxOut(amount: nat, s: Script, tail: seq<Byte>)
    requires Fits(s)
    ensures DecodeTxOut(EncodeTxOut(amount, s) + tail) == Output(Surviving(amount), s, |EncodeTxOut(amount, s)|)
  {
    hide Decode, Encode, CompressScript, DecodeScriptSize, DecompressScript, Amount.Compress, Amount.Decompress;
    var c := CompressAmount(amount);
    var script := CompressScript(s);
    DecodeEncode(c, script + tail);
    assert EncodeTxOut(amount, s) + tail == Encode(c) + (script + tail);
    ScriptRoundTrip(s, tail);
    assert (script + tail)[..|script|] == script;
  }

  /** Amount, script and byte count are all recovered, whatever follows, if and only if the amount ends in 0 or
      its packed form fits in 64 bits; every amount up to (2^64 - 1) / 9 does. */
  lemma TxOutRoundTripIff(amount: nat, s: Script, tail: seq<Byte>)
    requires amount < UINT64 && Fits(s)
    ensures DecodeTxOut(EncodeTxOut(amount, s) + tail) == Output(amount, s, |EncodeTxOut(amount, s)|)
            <==> AmountWrap.Survives(amount)
    ensures amount <= (UINT64 - 1) / 9 ==> AmountWrap.Survives(amount)
  {
    hide DecodeTxOut, EncodeTxOut, Amount.Compress, Amount.Decompress;
    DecodedTxOut(amount, s, tail);
    AmountWrap.RoundTripIff(amount);
  }

  lemma TwosComplement(x: int)
    ensures -0x8000_0000_0000_0000 <= ToInt(x) < 0x8000_0000_0000_0000
    ensures 0 <= x < 0x8000_0000_0000_0000 ==> ToInt(x) == x
    ensures 0x8000_0000_0000_0000 <= x < 0x1_0000_0000_0000_0000 ==> ToInt(x) == x - 0x1_0000_0000_0000_0000
  {
  }

  /** What a length prefix n of six or more decides, whatever follows: a size that is negative as a 64-bit integer is
      out of range, too little data ends the output, and otherwise n - 6 bytes are the script. */
  lemma LengthDecides(c: nat, n: nat, tail: seq<Byte>)
    requires c < UINT64 && 6 <= n < UINT64 && n - 6 + |Encode(n)| < UINT64
    ensures var r, read := DecodeTxOut(Encode(c) + (Encode(n) + tail)), |Encode(c)|;
            if n - 6 + |Encode(n)| >= 0x8000_0000_0000_0000 then r == OutOfRange
            else if |tail| < n - 6 then r == EndAfterScriptSize(read)
            else r == Output(Amount.Decompress(c) % UINT64, tail[..n - 6], read + |Encode(n)| + (n - 6))
  {
    hide Decode, Encode, ToInt, Amount.Decompress;
    var k, rest := |Encode(n)|, Encode(n) + tail;
    DecodeEncode(c, rest);
    DecodeEncode(n, tail);
    TwosComplement(n - 6 + k);
    TwosComplement(n - 6);
    assert (Encode(c) + rest)[|Encode(c)|..] == rest;
    if n - 6 + k < 0x8000_0000_0000_0000 && |tail| >= n - 6 {
      var script := tail[..n - 6];
      assert rest[..n - 6 + k] == Encode(n) + script;
      DecodeEncode(n, script);
      assert (Encode(n) + script)[k..k + (n - 6)] == script;
    }
  }

  // ---- truncated outputs ----

  lemma {:induction false} DecodeOpen(s: seq<Byte>, tail: seq<Byte>)
    requires Open(s) && OpenValue(s) < UINT64
    ensures DecodeFrom(0, s + tail) == (DecodeFrom(OpenValue(s), tail).0, DecodeFrom(OpenValue(s), tail).1 + |s|)
  {
    hide DecodeFrom;
    if s == [] {
      assert s + tail == tail;
    } else {
      OpenIsGroups(s);
      DecodeOpenGroups(OpenValue(s) - 1, tail);
    }
  }

  /** A strict prefix of an encoding is read to its end, without meeting a last byte. */
  lemma PrefixIsOpen(n: nat, cut: nat)
    requires n < UINT64 && cut < |Encode(n)|
    ensures Open(Encode(n)[..cut]) && OpenValue(Encode(n)[..cut]) <= n
    ensures Decode(Encode(n)[..cut]) == (OpenValue(Encode(n)[..cut]), cut)
  {
    hide Encode, DecodeFrom;
    EncodeTerminated(n);
    var p := Encode(n)[..cut];
    OpenValueMonotone(Encode(n)[..|Encode(n)| - 1], cut);
    assert Encode(n)[..|Encode(n)| - 1][..cut] == p;
    DecodeOpen(p, []);
    assert p + [] == p;
    DecodeNothing(OpenValue(p));
  }

  lemma DecodeNothing(n: nat)
    ensures DecodeFrom(n, []) == (n, 0)
  {
  }

  lemma {:induction false} OpenValueMonotone(s: seq<Byte>, cut: nat)
    requires Open(s) && cut <= |s|
    ensures Open(s[..cut]) && OpenValue(s[..cut]) <= OpenValue(s)
  {
    if cut == |s| {
      assert s[..cut] == s;
    } else {
      OpenValueMonotone(s[..|s| - 1], cut);
      assert s[..|s| - 1][..cut] == s[..cut];
    }
  }

  /** The one truncated script prefix that is not noticed: an unterminated length of six, read as an empty
      script. */
  const UNNOTICED: seq<Byte> := [0x85]

  lemma UnnoticedPrefix()
    ensures DecodeScriptSize(UNNOTICED) == 1 && DecompressScript(UNNOTICED) == Script([])
  {
    assert UNNOTICED[..0] == [];
    assert OpenValue(UNNOTICED) == 6;
    DecodeOpen(UNNOTICED, []);
    assert UNNOTICED + [] == UNNOTICED;
    DecodeNothing(6);
  }

  lemma OpenValueSmall(s: seq<Byte>)
    requires Open(s) && s != []
    ensures OpenValue(s) >= 1
    ensures OpenValue(s) <= 6 ==> |s| == 1
    ensures OpenValue(s) == 6 <==> s == UNNOTICED
  {
    hide Groups;
    var q, last := OpenValue(s[..|s| - 1]), s[|s| - 1];
    if |s| > 1 {
      OpenIsGroups(s[..|s| - 1]);
      assert q >= 1 && OpenValue(s) > 6;
    } else {
      assert s == [last] && q == 0;
      assert last % 128 == last - 128;
    }
  }

  lemma TruncatedLength(n: nat, cut: nat)
    requires n + |Encode(n)| <= INT64_MAX && 0 < cut < |Encode(n)|
    ensures DecodeScriptSize(Encode(n)[..cut]) <= cut <==> Encode(n)[..cut] == UNNOTICED
  {
    hide Decode, Encode, OpenValue;
    var q := Encode(n)[..cut];
    PrefixIsOpen(n, cut);
    OpenValueSmall(q);
  }

  lemma TruncatedGeneral(s: Script, cut: nat)
    requires Fits(s)
    requires 0 < cut < |Encode(|s| + SPECIAL_SCRIPTS) + s|
    ensures var q := (Encode(|s| + SPECIAL_SCRIPTS) + s)[..cut];
            DecodeScriptSize(q) <= cut <==> q == UNNOTICED
  {
    hide Decode, Encode;
    var n := |s| + SPECIAL_SCRIPTS;
    var e := Encode(n);
    if cut < |e| {
      assert (e + s)[..cut] == e[..cut];
      TruncatedLength(n, cut);
    } else {
      assert (e + s)[..cut] == e + s[..cut - |e|];
      DecodeEncode(n, s[..cut - |e|]);
      UnnoticedIsOpen(n, s[..cut - |e|]);
    }
  }

  lemma UnnoticedIsOpen(n: nat, tail: seq<Byte>)
    ensures Encode(n) + tail != UNNOTICED
  {
    EncodeTerminated(n);
    var e := Encode(n);
    assert (e + tail)[|e| - 1] < 128;
  }

  lemma TruncatedSpecial(s: Script, cut: nat)
    requires IsPubKeyHash(s) || IsScriptHash(s) || IsCompressedPubKey(s) || IsUncompressedPubKey(s)
    requires 0 < cut < |CompressScript(s)|
    ensures cut < DecodeScriptSize(CompressScript(s)[..cut]) && CompressScript(s)[..cut] != UNNOTICED
  {
    hide Decode, Encode;
    var c := CompressScript(s);
    assert c[..cut] == [c[0]] + c[1..cut];
    OneBytePrefix(c[0], c[1..cut]);
  }

  lemma TruncatedScriptIff(s: Script, cut: nat)
    requires Fits(s) && 0 < cut < |CompressScript(s)|
    ensures DecodeScriptSize(CompressScript(s)[..cut]) <= cut <==> CompressScript(s)[..cut] == UNNOTICED
  {
    hide Decode, Encode, DecodeScriptSize;
    if IsPubKeyHash(s) || IsScriptHash(s) || IsCompressedPubKey(s) || IsUncompressedPubKey(s) {
      TruncatedSpecial(s, cut);
    } else {
      TruncatedGeneral(s, cut);
    }
  }

  /** A truncated output is refused, except when it is cut after a first script byte 0x85: then it decodes
      to the amount with an empty script. */
  lemma TruncationDetectedIff(amount: nat, s: Script, cut: nat)
    requires Fits(s) && cut < |EncodeTxOut(amount, s)|
    ensures var first := |Encode(CompressAmount(amount))|;
            var result := DecodeTxOut(EncodeTxOut(amount, s)[..cut]);
            if cut <= first then result == EndAfterAmount(cut)
            else if CompressScript(s)[..cut - first] == UNNOTICED then result == Output(Surviving(amount), [], cut)
            else result == EndAfterScriptSize(first)
  {
    hide Decode, Encode, CompressScript, DecodeScriptSize, DecompressScript, Amount.Compress, Amount.Decompress;
    var c := CompressAmount(amount);
    var first, script := |Encode(c)|, CompressScript(s);
    var p := EncodeTxOut(amount, s)[..cut];
    if cut < first {
      PrefixIsOpen(c, cut);
      assert p == Encode(c)[..cut];
    } else {
      var q := script[..cut - first];
      assert p == Encode(c) + q;
      DecodeEncode(c, q);
      if cut > first {
        assert p[first..] == q;
        TruncatedScriptIff(s, cut - first);
        UnnoticedPrefix();
        assert q[..|q|] == q;
      }
    }
  }

  // ---- writing into a buffer ----

  /** Copies data into the buffer at `at`. */
  method CopyInto(target: array<Byte>, at: nat, data: seq<Byte>)
    requires at + |data| <= target.Length
    modifies target
    ensures target[at..at + |data|] == data
    ensures target[..at] == old(target[..at]) && target[at + |data|..] == old(target[at + |data|..])
  {
    forall i | 0 <= i < |data| {
      target[at + i] := data[i];
    }
  }

  method CompressedScriptSize(s: Script) returns (size: nat)
    ensures size == |CompressScript(s)|
  {
    if IsPubKeyHash(s) {
      return 21;
    }
    if IsScriptHash(s) {
      return 21;
    }
    if IsUncompressedPubKey(s) {
      return 65;
    }
    if IsCompressedPubKey(s) {
      return 33;
    }
    var prefix := SerializeSizeVLQ(|s| + SPECIAL_SCRIPTS);
    return prefix + |s|;
  }

  /** Writes the type byte and then the data. */
  method PutTagged(target: array<Byte>, at: nat, tag: Byte, data: seq<Byte>) returns (size: nat)
    requires at + 1 + |data| <= target.Length
    modifies target
    ensures size == 1 + |data| && target[at..at + size] == [tag] + data
    ensures target[..at] == old(target[..at]) && target[at + size..] == old(target[at + size..])
  {
    target[at] := tag;
    CopyInto(target, at + 1, data);
    assert target[at] == target[..at + 1][at] == tag;
    size := 1 + |data|;
    KeptBefore(old(target[..]), target[..], at, size, [tag] + data);
  }

  lemma KeptBefore(was: seq<Byte>, now: seq<Byte>, at: nat, size: nat, data: seq<Byte>)
    requires |was| == |now| && 1 <= size == |data| && at + size <= |now|
    requires now[at] == data[0] && now[at + 1..at + size] == data[1..]
    requires now[..at + 1][..at] == was[..at] && now[at + size..] == was[at + size..]
    ensures now[at..at + size] == data && now[..at] == was[..at]
  {
    assert now[at..at + size] == [now[at]] + now[at + 1..at + size];
    assert now[..at + 1][..at] == now[..at];
  }

  /** Writes the compressed script at `at`; nothing else changes. */
  method PutCompressedScript(target: array<Byte>, at: nat, s: Script) returns (size: nat)
    requires at + |CompressScript(s)| <= target.Length
    modifies target
    ensures size == |CompressScript(s)| && target[at..at + size] == CompressScript(s)
    ensures target[..at] == old(target[..at]) && target[at + size..] == old(target[at + size..])
  {
    hide Encode;
    if IsPubKeyHash(s) {
      size := PutTagged(target, at, 0, s[3..23]);
    } else if IsScriptHash(s) {
      size := PutTagged(target, at, 1, s[2..22]);
    } else if IsCompressedPubKey(s) {
      assert s[1..34] == [s[1]] + s[2..34];
      size := PutTagged(target, at, s[1], s[2..34]);
    } else if IsUncompressedPubKey(s) {
      assert s[1..66] == [s[1]] + s[2..66];
      size := PutTagged(target, at, s[1], s[2..66]);
    } else {
      size := PutTwo(target, at, |s| + SPECIAL_SCRIPTS, s);
    }
  }

  /** Writes a length prefix and then the data. */
  method PutTwo(target: array<Byte>, at: nat, n: nat, data: seq<Byte>) returns (size: nat)
    requires at + |Encode(n) + data| <= target.Length
    modifies target
    ensures size == |Encode(n) + data| && target[at..at + size] == Encode(n) + data
    ensures target[..at] == old(target[..at]) && target[at + size..] == old(target[at + size..])
  {
    hide Encode;
    var first := PutVLQ(target, at, n);
    ghost var mid := target[..];
    CopyInto(target, at + first, data);
    size := first + |data|;
    Joined(old(target[..]), mid, target[..], at, Encode(n), data);
  }

  /** Writing `first` at `at` and then `second` right behind it. */
  lemma Joined(was: seq<Byte>, mid: seq<Byte>, now: seq<Byte>, at: nat, first: seq<Byte>, second: seq<Byte>)
    requires |was| == |mid| == |now| && at + |first| + |second| <= |now|
    requires mid[at..at + |first|] == first && mid[..at] == was[..at] && mid[at + |first|..] == was[at + |first|..]
    requires now[at + |first|..at + |first| + |second|] == second && now[..at + |first|] == mid[..at + |first|]
    requires now[at + |first| + |second|..] == mid[at + |first| + |second|..]
    ensures now[at..at + |first| + |second|] == first + second
    ensures now[..at] == was[..at] && now[at + |first| + |second|..] == was[at + |first| + |second|..]
  {
    var a, b := at + |first|, at + |first| + |second|;
    assert now[at..a] == now[..a][at..] == mid[..a][at..] == first;
    assert now[at..b] == now[at..a] + now[a..b];
    assert now[..at] == now[..a][..at] == mid[..a][..at] == mid[..at];
    assert mid[b..] == mid[a..][|second|..] == was[a..][|second|..] == was[b..];
  }

  /** Writes the output at `at`: what DecodeTxOut reads back. */
  method PutCompressedTxOut(target: array<Byte>, at: nat, amount: nat, s: Script) returns (size: nat)
    requires amount < UINT64 && at + |EncodeTxOut(amount, s)| <= target.Length
    modifies target
    ensures size == |EncodeTxOut(amount, s)| && target[at..at + size] == EncodeTxOut(amount, s)
    ensures target[..at] == old(target[..at]) && target[at + size..] == old(target[at + size..])
  {
    hide Encode, CompressScript, Amount.Compress;
    var c := Amount.CompressTxOutAmount(amount);
    var first := PutVLQ(target, at, c);
    ghost var mid := target[..];
    var second := PutCompressedScript(target, at + first, s);
    size := first + second;
    Joined(old(target[..]), mid, target[..], at, Encode(c), CompressScript(s));
  }
}
