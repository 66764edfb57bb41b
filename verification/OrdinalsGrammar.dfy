/** Well-formed envelopes as a grammar, what each one means, and the theorem that the parser finds exactly
    them: one item per envelope, in order, with that meaning. */
module OrdinalsGrammar {
  import opened Maps
  import opened Vlq
  import opened Wire
  import opened Ordinals

  // ---- push tokens ----

  /** The end and the start of an envelope, and the letters "ord". */
  const END: Byte := 0x68
  const IF: Byte := 0x63
  const MAGIC: seq<Byte> := [0x6f, 0x72, 0x64]

  /** A push: the empty push, a number opcode, or data behind a header of 0, 1, 2 or 4 length bytes. */
  datatype Token = Code(c: Byte) | Data(form: nat, payload: seq<Byte>)

  predicate GoodToken(t: Token) {
    match t
    case Code(c) => c == 0 || 0x4f <= c <= 0x60
    case Data(form, payload) =>
      || (form == 0 && 1 <= |payload| < 0x4c)
      || (form == 1 && |payload| < 0x100)
      || (form == 2 && |payload| < 0x1_0000)
      || (form == 4 && |payload| < 0x1_0000_0000)
  }

  function HeaderOf(form: nat, n: nat): seq<Byte> {
    if form == 0 then [n % 256]
    else if form == 1 then [0x4c, n % 256]
    else if form == 2 then [0x4d] + LittleEndian(n, 2)
    else [0x4e] + LittleEndian(n, 4)
  }

  function TokenBytes(t: Token): seq<Byte> {
    match t
    case Code(c) => [c]
    case Data(form, payload) => HeaderOf(form, |payload|) + payload
  }

  /** What the token pushes. */
  function Pushed(t: Token): seq<Byte> {
    match t
    case Code(c) => if c == 0 then [] else if c >= 0x51 then [c - 0x50] else [c]
    case Data(_, payload) => payload
  }

  /** A number opcode other than the empty push. */
  predicate IsNumber(t: Token) {
    t.Code? && t.c != 0
  }

  lemma HeaderReadsBack(form: nat, payload: seq<Byte>, tail: seq<Byte>)
    requires GoodToken(Data(form, payload))
    ensures PushHeader(HeaderOf(form, |payload|) + (payload + tail)) == (|payload|, |HeaderOf(form, |payload|)|)
  {
    hide LittleEndian, Number;
    Powers();
    var n := |payload|;
    var s := HeaderOf(form, n) + (payload + tail);
    if form == 2 {
      assert s[1..3] == LittleEndian(n, 2);
      NumberOfLittleEndian(n, 2);
    } else if form == 4 {
      assert s[1..5] == LittleEndian(n, 4);
      NumberOfLittleEndian(n, 4);
    }
  }

  /** Every token is recognised, whatever follows. */
  lemma OpcodeOfToken(t: Token, tail: seq<Byte>)
    requires GoodToken(t)
    ensures GetOpcode(TokenBytes(t) + tail) == Opcode(|TokenBytes(t)|, Pushed(t), true, t.Code?)
    ensures (TokenBytes(t) + tail)[|TokenBytes(t)|..] == tail
    ensures |TokenBytes(t)| >= 1
  {
    if t.Data? {
      OpcodeOfData(t.form, t.payload, tail);
    } else {
      OpcodeOfCode(t.c, tail);
    }
    TokenIsPrefix(TokenBytes(t), tail);
  }

  lemma TokenIsPrefix(b: seq<Byte>, tail: seq<Byte>)
    ensures (b + tail)[|b|..] == tail
  {
  }

  lemma OpcodeOfCode(c: Byte, tail: seq<Byte>)
    requires GoodToken(Code(c))
    ensures GetOpcode([c] + tail) == Opcode(1, Pushed(Code(c)), true, true)
  {
    assert ([c] + tail)[..1] == [c];
  }

  lemma OpcodeOfData(form: nat, payload: seq<Byte>, tail: seq<Byte>)
    requires GoodToken(Data(form, payload))
    ensures var b := TokenBytes(Data(form, payload));
            GetOpcode(b + tail) == Opcode(|b|, payload, true, false)
  {
    hide PushHeader, LittleEndian;
    var header := HeaderOf(form, |payload|);
    var s := header + payload + tail;
    Assoc(header, payload, tail);
    HeaderReadsBack(form, payload, tail);
    assert s[|header|..|header| + |payload|] == payload;
    assert 0 < s[0] == header[0] < OP_1NEGATE;
  }

  lemma NextToken(t: Token, tail: seq<Byte>)
    requires GoodToken(t)
    ensures Next(TokenBytes(t) + tail) == Push(Pushed(t), |TokenBytes(t)|, t.Code?)
    ensures (TokenBytes(t) + tail)[|TokenBytes(t)|..] == tail
    ensures Pushnum(Pushed(t), |TokenBytes(t)|, t.Code?) == IsNumber(t)
  {
    hide GetOpcode;
    OpcodeOfToken(t, tail);
  }

  lemma NextEnd(tail: seq<Byte>)
    ensures Next([END] + tail) == Finish(1) && ([END] + tail)[1..] == tail
  {
  }

  // ---- envelopes ----

  datatype Field = Field(tag: Token, value: Token)

  /** How an envelope ends: after its fields, after a body, or after a tag without value. */
  datatype Ending = Closed | Body(mark: Token, pushes: seq<Token>) | Incomplete(tag: Token)

  datatype Envelope = Envelope(start: Token, magic: Token, fields: seq<Field>, ending: Ending)

  predicate GoodTag(t: Token) {
    GoodToken(t) && Pushed(t) != []
  }

  predicate GoodField(f: Field) {
    GoodTag(f.tag) && GoodToken(f.value)
  }

  predicate GoodEnding(e: Ending) {
    match e
    case Closed => true
    case Body(mark, pushes) =>
      GoodToken(mark) && Pushed(mark) == [] && forall i :: 0 <= i < |pushes| ==> GoodToken(pushes[i])
    case Incomplete(tag) => GoodTag(tag)
  }

  predicate GoodEnvelope(e: Envelope) {
    && GoodToken(e.start) && Pushed(e.start) == [] && GoodToken(e.magic) && Pushed(e.magic) == MAGIC
    && (forall i :: 0 <= i < |e.fields| ==> GoodField(e.fields[i]))
    && GoodEnding(e.ending)
  }

  function TokensBytes(ts: seq<Token>): seq<Byte> {
    if ts == [] then [] else TokenBytes(ts[0]) + TokensBytes(ts[1..])
  }

  function FieldsBytes(fs: seq<Field>): seq<Byte> {
    if fs == [] then [] else TokenBytes(fs[0].tag) + (TokenBytes(fs[0].value) + FieldsBytes(fs[1..]))
  }

  function EndingBytes(e: Ending): seq<Byte> {
    match e
    case Closed => [END]
    case Body(mark, pushes) => TokenBytes(mark) + (TokensBytes(pushes) + [END])
    case Incomplete(tag) => TokenBytes(tag) + [END]
  }

  function EnvelopeBytes(e: Envelope): seq<Byte> {
    TokenBytes(e.start) + ([IF] + (TokenBytes(e.magic) + (FieldsBytes(e.fields) + EndingBytes(e.ending))))
  }

  // ---- what an envelope means ----

  function Concat(ts: seq<Token>): seq<Byte> {
    if ts == [] then [] else Pushed(ts[0]) + Concat(ts[1..])
  }

  predicate IsField(f: Field, tag: Byte) {
    Pushed(f.tag) == [tag]
  }

  /** A tag of even first byte other than the pointer's. */
  predicate IsEven(tag: seq<Byte>) {
    tag != [] && tag[0] % 2 == 0 && tag != [2]
  }

  /** A transaction id of 32 bytes and an index of up to 4, written without trailing zeros when it is cut short. */
  predicate IsId(v: seq<Byte>) {
    32 <= |v| <= 36 && (|v| == 32 || |v| == 36 || v[|v| - 1] != 0)
  }

  /** The number that the first eight bytes are, the least significant first. */
  function LowEight(v: seq<Byte>): nat {
    Weighted(v, if |v| > 8 then 8 else |v|)
  }

  /** The values of all fields with a one-byte tag, in order. */
  function Values(fs: seq<Field>, tag: Byte): seq<seq<Byte>> {
    if fs == [] then []
    else (if IsField(fs[0], tag) then [Pushed(fs[0].value)] else []) + Values(fs[1..], tag)
  }

  function First(vs: seq<seq<Byte>>): Option<seq<Byte>> {
    if vs == [] then None else Some(vs[0])
  }

  function OrEmpty(v: Option<seq<Byte>>): seq<Byte> {
    if v.Some? then v.value else []
  }

  function Flat(vs: seq<seq<Byte>>): seq<Byte> {
    if vs == [] then [] else Flat(vs[..|vs| - 1]) + vs[|vs| - 1]
  }

  function Ids(vs: seq<seq<Byte>>): seq<seq<Byte>> {
    if vs == [] then [] else Ids(vs[..|vs| - 1]) + (if IsId(vs[|vs| - 1]) then [vs[|vs| - 1]] else [])
  }

  /** All tags of the envelope, the one without value last. */
  function Tags(fs: seq<Field>, ending: Ending): seq<Token> {
    seq(|fs|, i requires 0 <= i < |fs| => fs[i].tag) + (if ending.Incomplete? then [ending.tag] else [])
  }

  function Tokens(ending: Ending): seq<Token> {
    if ending.Body? then ending.pushes else []
  }

  predicate SomeEven(ts: seq<Token>) {
    exists i :: 0 <= i < |ts| && IsEven(Pushed(ts[i]))
  }

  predicate SomeRepeat(ts: seq<Token>) {
    exists i, j :: 0 <= i < j < |ts| && Pushed(ts[i]) == Pushed(ts[j])
  }

  predicate SomeNumber(ts: seq<Token>) {
    exists i :: 0 <= i < |ts| && IsNumber(ts[i])
  }

  function ValueTokens(fs: seq<Field>): (r: seq<Token>)
    ensures |r| == |fs|
  {
    seq(|fs|, i requires 0 <= i < |fs| => fs[i].value)
  }

  /** The first value of a tag counts, except that metadata is joined and parents are collected; delegates
      and parents must be inscription ids. */
  function TypeOf(fs: seq<Field>): seq<Byte> {
    OrEmpty(First(Values(fs, 1)))
  }

  function DelegateOf(fs: seq<Field>): Option<seq<Byte>> {
    var first := First(Values(fs, 11));
    if first.Some? && IsId(first.value) then first else None
  }

  function ParentsOf(fs: seq<Field>): seq<seq<Byte>> {
    Ids(Values(fs, 3))
  }

  function MetadataOf(fs: seq<Field>): Option<seq<Byte>> {
    if Values(fs, 5) == [] then None else Some(Flat(Values(fs, 5)))
  }

  function PointerAt(fs: seq<Field>): Option<nat> {
    var first := First(Values(fs, 2));
    if first.Some? then Some(LowEight(first.value)) else None
  }

  /** The item an envelope stands for: flags by the shape of the field list, values by tag, body by
      concatenation. */
  function Meaning(base: Nft, stutter: bool, fs: seq<Field>, ending: Ending): Nft {
    var tags := Tags(fs, ending);
    Nft(base.tapScriptPk, base.isKeyVerify, stutter,
        SomeNumber(tags) || SomeNumber(ValueTokens(fs)) || SomeNumber(Tokens(ending)),
        SomeEven(tags),
        SomeRepeat(tags),
        ending.Incomplete?,
        TypeOf(fs),
        First(Values(fs, 9)),
        DelegateOf(fs),
        ParentsOf(fs),
        MetadataOf(fs),
        First(Values(fs, 7)),
        PointerAt(fs),
        Concat(Tokens(ending)))
  }
}
