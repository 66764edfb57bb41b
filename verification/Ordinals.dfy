/** The ordinals envelope parser: opcodes, fields and the scan over a whole script, as functions. */
module Ordinals {
  import opened Maps
  import opened Vlq
  import opened Wire

  const OP_PUSHDATA1: Byte := 0x4c
  const OP_PUSHDATA2: Byte := 0x4d
  const OP_PUSHDATA4: Byte := 0x4e
  const OP_1NEGATE: Byte := 0x4f
  const OP_1: Byte := 0x51
  const OP_8: Byte := 0x58
  const OP_16: Byte := 0x60
  const OP_IF: Byte := 0x63
  const OP_ENDIF: Byte := 0x68
  const OP_CHECKSIGVERIFY: Byte := 0xad

  const ORD: seq<Byte> := [0x6f, 0x72, 0x64]

  const TAG_CONTENT_TYPE: Byte := 1
  const TAG_POINTER: Byte := 2
  const TAG_PARENT: Byte := 3
  const TAG_METADATA: Byte := 5
  const TAG_METAPROTOCOL: Byte := 7
  const TAG_CONTENT_ENCODING: Byte := 9
  const TAG_DELEGATE: Byte := 11

  // ---- opcodes ----

  /** Payload length and header length of a data push; (0, 0) when the header is cut off. */
  function PushHeader(raw: seq<Byte>): (nat, nat) {
    if |raw| < 1 then (0, 0)
    else if raw[0] < OP_PUSHDATA1 then (raw[0], 1)
    else if raw[0] == OP_PUSHDATA1 then if |raw| < 2 then (0, 0) else (raw[1], 2)
    else if raw[0] == OP_PUSHDATA2 then if |raw| < 3 then (0, 0) else (Number(raw[1..3]), 3)
    else if raw[0] == OP_PUSHDATA4 then if |raw| < 5 then (0, 0) else (Number(raw[1..5]), 5)
    else (0, 0)
  }

  datatype Opcode = Invalid | Opcode(size: nat, data: seq<Byte>, isPush: bool, isOpcode: bool)

  /** The first opcode of a script. What is valid lies inside the script and is not empty. */
  function GetOpcode(raw: seq<Byte>): (r: Opcode)
    ensures r.Opcode? ==> 1 <= r.size <= |raw|
    ensures r.Opcode? && !r.isPush ==> |r.data| == 1
  {
    if |raw| < 1 then Invalid
    else
      var c := raw[0];
      if c > OP_16 then Opcode(1, [c], false, true)
      else if c >= OP_1 then Opcode(1, [c - OP_1 + 1], true, true)
      else if c == 0 then Opcode(1, [], true, true)
      else if c < OP_1NEGATE then
        var (count, header) := PushHeader(raw);
        if header + count == 0 || header + count > |raw| then Invalid
        else Opcode(header + count, raw[header..header + count], true, false)
      else Opcode(1, raw[..1], true, true)
  }

  datatype Item = Fail | Finish(size: nat) | Other(size: nat) | Push(data: seq<Byte>, size: nat, op: bool)

  function Next(raw: seq<Byte>): (r: Item)
    ensures !r.Fail? ==> 1 <= r.size <= |raw|
  {
    match GetOpcode(raw)
    case Invalid => Fail
    case Opcode(size, data, isPush, isOpcode) =>
      if isPush then Push(data, size, isOpcode)
      else if data[0] == OP_ENDIF then Finish(size)
      else Other(size)
  }

  // ---- one envelope ----

  datatype Nft = Nft(
    tapScriptPk: seq<Byte>,
    isKeyVerify: bool,
    isStutter: bool,
    isPushnum: bool,
    isUnrecognizedEven: bool,
    isDuplicateField: bool,
    isIncompleteField: bool,
    contentType: seq<Byte>,
    contentEncoding: Option<seq<Byte>>,
    delegate: Option<seq<Byte>>,
    parents: seq<seq<Byte>>,
    metadata: Option<seq<Byte>>,
    metaProtocol: Option<seq<Byte>>,
    pointer: Option<nat>,
    contentBody: seq<Byte>)

  /** Whether a delegate or parent value is an inscription id. */
  predicate IsNftId(v: seq<Byte>) {
    32 <= |v| <= 36 && (32 < |v| < 36 ==> v[|v| - 1] != 0)
  }

  function PointerOf(v: seq<Byte>): nat {
    Number(if |v| > 8 then v[..8] else v)
  }

  predicate UnrecognizedEven(tag: seq<Byte>) {
    |tag| > 0 && tag[0] % 2 == 0 && !(|tag| == 1 && tag[0] == TAG_POINTER)
  }

  /** A number opcode counts as pushnum unless it is the one-byte empty push. */
  predicate Pushnum(data: seq<Byte>, size: nat, op: bool) {
    op && !(size == 1 && |data| == 0)
  }

  function AddBody(n: Nft, data: seq<Byte>, size: nat, op: bool): Nft {
    n.(isPushnum := n.isPushnum || Pushnum(data, size, op), contentBody := n.contentBody + data)
  }

  function AddTag(n: Nft, tag: seq<Byte>, op: bool, dup: bool): Nft {
    n.(isPushnum := n.isPushnum || op,
       isUnrecognizedEven := n.isUnrecognizedEven || UnrecognizedEven(tag),
       isDuplicateField := n.isDuplicateField || dup)
  }

  function SetFirst(n: Nft, tag: Byte, v: seq<Byte>): Nft {
    if tag == TAG_CONTENT_TYPE then n.(contentType := v)
    else if tag == TAG_CONTENT_ENCODING then n.(contentEncoding := Some(v))
    else if tag == TAG_DELEGATE then if IsNftId(v) then n.(delegate := Some(v)) else n
    else if tag == TAG_PARENT then if IsNftId(v) then n.(parents := n.parents + [v]) else n
    else if tag == TAG_METADATA then n.(metadata := Some(v))
    else if tag == TAG_METAPROTOCOL then n.(metaProtocol := Some(v))
    else if tag == TAG_POINTER then n.(pointer := Some(PointerOf(v)))
    else n
  }

  function SetAgain(n: Nft, tag: Byte, v: seq<Byte>): Nft {
    if tag == TAG_METADATA then n.(metadata := Some((if n.metadata.Some? then n.metadata.value else []) + v))
    else if tag == TAG_PARENT then if IsNftId(v) then n.(parents := n.parents + [v]) else n
    else n
  }

  /** Only one-byte tags have a meaning. */
  function TagByte(tag: seq<Byte>): Option<Byte> {
    if |tag| == 1 then Some(tag[0]) else None
  }

  function AddValue(n: Nft, tag: seq<Byte>, v: seq<Byte>, size: nat, op: bool, dup: bool): Nft {
    var m := n.(isPushnum := n.isPushnum || Pushnum(v, size, op));
    match TagByte(tag)
    case None => m
    case Some(b) => if dup then SetAgain(m, b, v) else SetFirst(m, b, v)
  }

  /** The item, whether its end was found, and what follows. */
  datatype Parse = Parse(nft: Nft, found: bool, rest: seq<Byte>)

  function ParseBody(s: seq<Byte>, n: Nft): (r: Parse)
    ensures |r.rest| <= |s|
    decreases |s|
  {
    match Next(s)
    case Fail => Parse(n, false, s)
    case Finish(k) => Parse(n, true, s[k..])
    case Other(k) => Parse(n, false, s[k..])
    case Push(data, k, op) => ParseBody(s[k..], AddBody(n, data, k, op))
  }

  function ParseFields(s: seq<Byte>, n: Nft, tags: set<seq<Byte>>): (r: Parse)
    ensures |r.rest| <= |s|
    decreases |s|
  {
    match Next(s)
    case Fail => Parse(n, false, s)
    case Finish(k) => Parse(n, true, s[k..])
    case Other(k) => Parse(n, false, s[k..])
    case Push(tag, k, op) =>
      if tag == [] then ParseBody(s[k..], n)
      else ParseValue(s[k..], AddTag(n, tag, op, tag in tags), tags, tag)
  }

  /** After a tag: its value, then the other fields. */
  function ParseValue(s: seq<Byte>, n: Nft, tags: set<seq<Byte>>, tag: seq<Byte>): (r: Parse)
    ensures |r.rest| <= |s|
    decreases |s|
  {
    match Next(s)
    case Fail => Parse(n, false, s)
    case Finish(k) => Parse(n.(isIncompleteField := true), true, s[k..])
    case Other(k) => Parse(n, false, s[k..])
    case Push(v, k, op) => ParseFields(s[k..], AddValue(n, tag, v, k, op, tag in tags), tags + {tag})
  }

  // ---- the scan ----

  /** What the scan remembers of the opcodes just before. */
  datatype Mark = NoMark | FalseMark | IfMark

  predicate Stutters(before: Mark, earlier: Mark) {
    before == FalseMark || (earlier == FalseMark && before == IfMark)
  }

  predicate IsIf(op: Opcode) {
    op.Opcode? && !op.isPush && op.isOpcode && op.size == 1 && op.data == [OP_IF]
  }

  predicate IsOrd(op: Opcode) {
    op.Opcode? && op.isPush && op.data == ORD
  }

  /** All items of a script whose envelopes start from `base`. */
  function Scan(s: seq<Byte>, before: Mark, earlier: Mark, base: Nft): seq<Nft>
    decreases |s|
  {
    var first := GetOpcode(s);
    if first.Invalid? then []
    else
      var s1 := s[first.size..];
      if !first.isPush || first.data != [] then Scan(s1, NoMark, NoMark, base)
      else if |s1| < 6 then []
      else
        var second := GetOpcode(s1);
        if second.Invalid? then []
        else if !IsIf(second) then Scan(s1, FalseMark, before, base)
        else
          var s2 := s1[second.size..];
          var third := GetOpcode(s2);
          if third.Invalid? then []
          else if !IsOrd(third) then Scan(s2, IfMark, FalseMark, base)
          else
            var r := ParseFields(s2[third.size..], base.(isStutter := Stutters(before, earlier)), {});
            (if r.found then [r.nft] else []) + Scan(r.rest, NoMark, NoMark, base)
  }

  const BLANK: Nft := Nft([], false, false, false, false, false, false, [], None, None, [], None, None, None, [])

  /** The key check of a tapscript applies to every item of the script. */
  function Base(script: seq<Byte>): Nft {
    if |script| > 35 && script[0] == 32 then
      BLANK.(tapScriptPk := script[..35],
             isKeyVerify := script[33] == OP_CHECKSIGVERIFY && OP_1 <= script[34] <= OP_8)
    else BLANK
  }

  function Items(script: seq<Byte>): seq<Nft> {
    Scan(script, NoMark, NoMark, Base(script))
  }
}
