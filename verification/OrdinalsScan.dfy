/** Scanning a script made of well-formed envelopes, with anything harmless between them: one item per
    envelope, in order. */
module OrdinalsScan {
  import opened Maps
  import opened Vlq
  import opened Wire
  import opened Ordinals
  import opened OrdinalsGrammar
  import opened OrdinalsMeaning

  // ---- one envelope ----

  lemma {:induction false} BodyParses(ts: seq<Token>, n: Nft, tail: seq<Byte>)
    requires forall i :: 0 <= i < |ts| ==> GoodToken(ts[i])
    ensures ParseBody((TokensBytes(ts) + [END]) + tail, n) ==
            Parse(n.(isPushnum := n.isPushnum || SomeNumber(ts), contentBody := n.contentBody + Concat(ts)), true, tail)
    decreases |ts|
  {
    hide TokenBytes, Pushed, Next, Pushnum, IsNumber, GoodToken;
    if ts == [] {
      assert (TokensBytes(ts) + [END]) + tail == [END] + tail;
      NextEnd(tail);
      assert n.contentBody + Concat(ts) == n.contentBody;
    } else {
      var rest := TokensBytes(ts[1..]) + [END];
      Assoc(TokenBytes(ts[0]), TokensBytes(ts[1..]), [END]);
      Assoc(TokenBytes(ts[0]), rest, tail);
      NextToken(ts[0], rest + tail);
      BodyParses(ts[1..], AddBody(n, Pushed(ts[0]), |TokenBytes(ts[0])|, ts[0].Code?), tail);
      SomeNumberFirst(ts);
      Assoc(n.contentBody, Pushed(ts[0]), Concat(ts[1..]));
    }
  }

  lemma SomeNumberFirst(ts: seq<Token>)
    requires ts != []
    ensures SomeNumber(ts) == (IsNumber(ts[0]) || SomeNumber(ts[1..]))
  {
    if SomeNumber(ts) {
      var i :| 0 <= i < |ts| && IsNumber(ts[i]);
      assert i > 0 ==> ts[1..][i - 1] == ts[i];
    }
    if SomeNumber(ts[1..]) {
      var i :| 0 <= i < |ts[1..]| && IsNumber(ts[1..][i]);
      assert ts[i + 1] == ts[1..][i];
    }
  }

  lemma BodyMeaning(base: Nft, stutter: bool, fs: seq<Field>, mark: Token, ts: seq<Token>)
    ensures var n := Meaning(base, stutter, fs, Closed);
            n.(isPushnum := n.isPushnum || SomeNumber(ts), contentBody := n.contentBody + Concat(ts))
            == Meaning(base, stutter, fs, Body(mark, ts))
  {
    hide SomeEven, SomeRepeat, TypeOf, DelegateOf, ParentsOf, MetadataOf, PointerAt, First, Values;
    assert Tags(fs, Closed) == Tags(fs, Body(mark, ts));
    assert !SomeNumber([]);
    assert Concat([]) + Concat(ts) == Concat(ts);
  }

  /** The end of an envelope, after its fields fs. */
  lemma EndingParses(base: Nft, stutter: bool, fs: seq<Field>, e: Ending, tail: seq<Byte>)
    requires GoodEnding(e)
    ensures ParseFields(EndingBytes(e) + tail, Meaning(base, stutter, fs, Closed), TagSet(Tags(fs, Closed)))
            == Parse(Meaning(base, stutter, fs, e), true, tail)
  {
    hide Meaning, TokenBytes, Next, ParseBody, GoodToken, Pushed, TagSet, AddTag;
    var n, tags := Meaning(base, stutter, fs, Closed), TagSet(Tags(fs, Closed));
    NextEnd(tail);
    match e
    case Closed =>
    case Body(mark, ts) =>
      var rest := TokensBytes(ts) + [END];
      Assoc(TokenBytes(mark), rest, tail);
      NextToken(mark, rest + tail);
      BodyParses(ts, n, tail);
      BodyMeaning(base, stutter, fs, mark, ts);
    case Incomplete(tag) =>
      Assoc(TokenBytes(tag), [END], tail);
      NextToken(tag, [END] + tail);
      AddTagMeaning(base, stutter, fs, tag);
      IncompleteMeaning(base, stutter, fs, tag);
  }

  lemma IncompleteMeaning(base: Nft, stutter: bool, fs: seq<Field>, tag: Token)
    ensures Tagged(base, stutter, fs, tag).(isIncompleteField := true) == Meaning(base, stutter, fs, Incomplete(tag))
  {
  }

  ghost predicate GoodFields(fs: seq<Field>) {
    forall i :: 0 <= i < |fs| ==> GoodField(fs[i])
  }

  /** After the fields fs have been read, the fields gs and the ending give the meaning of all of them. */
  lemma {:induction false} FieldsParse(base: Nft, stutter: bool, fs: seq<Field>, gs: seq<Field>, e: Ending,
                                       tail: seq<Byte>)
    requires GoodFields(gs) && GoodEnding(e)
    ensures ParseFields((FieldsBytes(gs) + EndingBytes(e)) + tail, Meaning(base, stutter, fs, Closed),
                        TagSet(Tags(fs, Closed)))
            == Parse(Meaning(base, stutter, fs + gs, e), true, tail)
    decreases |gs|
  {
    hide Meaning, TokenBytes, Next, GoodToken, Pushed, TagSet, AddTag, AddValue, EndingBytes, GoodEnding, Tagged,
         ParseFields, ParseValue;
    if gs == [] {
      assert (FieldsBytes(gs) + EndingBytes(e)) + tail == EndingBytes(e) + tail;
      assert fs + gs == fs;
      EndingParses(base, stutter, fs, e, tail);
    } else {
      var g, others := gs[0], FieldsBytes(gs[1..]);
      FieldSplit(TokenBytes(g.tag), TokenBytes(g.value), others, EndingBytes(e), tail);
      FieldParses(base, stutter, fs, g, (others + EndingBytes(e)) + tail);
      FieldsParse(base, stutter, fs + [g], gs[1..], e, tail);
      assert fs + gs == (fs + [g]) + gs[1..];
    }
  }

  lemma FieldSplit(a: seq<Byte>, b: seq<Byte>, c: seq<Byte>, d: seq<Byte>, tail: seq<Byte>)
    ensures ((a + (b + c)) + d) + tail == a + (b + ((c + d) + tail))
  {
  }

  /** Reading one field moves the meaning of fs to that of fs + [f]. */
  lemma FieldParses(base: Nft, stutter: bool, fs: seq<Field>, f: Field, rest: seq<Byte>)
    requires GoodField(f)
    ensures ParseFields(TokenBytes(f.tag) + (TokenBytes(f.value) + rest), Meaning(base, stutter, fs, Closed),
                        TagSet(Tags(fs, Closed)))
            == ParseFields(rest, Meaning(base, stutter, fs + [f], Closed), TagSet(Tags(fs + [f], Closed)))
  {
    hide Meaning, TokenBytes, Next, GoodToken, Pushed, TagSet, AddTag, AddValue, Tags, Tagged;
    NextToken(f.tag, TokenBytes(f.value) + rest);
    NextToken(f.value, rest);
    AddTagMeaning(base, stutter, fs, f.tag);
    AddValueMeaning(base, stutter, fs, f);
    TagsAppend(fs, f);
    RepeatAppend(Tags(fs, Closed), f.tag);
  }

  lemma NoFields(base: Nft, stutter: bool)
    requires base == BLANK.(tapScriptPk := base.tapScriptPk, isKeyVerify := base.isKeyVerify)
    ensures base.(isStutter := stutter) == Meaning(base, stutter, [], Closed)
    ensures TagSet(Tags([], Closed)) == {}
  {
    assert Tags([], Closed) == [];
  }

  /** An envelope is parsed to its meaning and exactly its bytes are consumed. */
  lemma EnvelopeParses(base: Nft, stutter: bool, e: Envelope, tail: seq<Byte>)
    requires base == BLANK.(tapScriptPk := base.tapScriptPk, isKeyVerify := base.isKeyVerify) && GoodEnvelope(e)
    ensures ParseFields((FieldsBytes(e.fields) + EndingBytes(e.ending)) + tail, base.(isStutter := stutter), {})
            == Parse(Meaning(base, stutter, e.fields, e.ending), true, tail)
  {
    hide Meaning, ParseFields, FieldsBytes, EndingBytes, TagSet, Tags, GoodEnding;
    NoFields(base, stutter);
    FieldsParse(base, stutter, [], e.fields, e.ending, tail);
    assert [] + e.fields == e.fields;
  }

  // ---- a whole script ----

  /** A script in pieces: opcodes that start nothing, a lone empty push, a lone empty push with IF, and
      envelopes. */
  datatype Piece =
    | SkipPush(token: Token)
    | SkipOp(c: Byte)
    | Lone(start: Token)
    | LoneIf(start: Token)
    | Item(envelope: Envelope)

  function PieceBytes(p: Piece): seq<Byte> {
    match p
    case SkipPush(t) => TokenBytes(t)
    case SkipOp(c) => [c]
    case Lone(t) => TokenBytes(t)
    case LoneIf(t) => TokenBytes(t) + [IF]
    case Item(e) => EnvelopeBytes(e)
  }

  function PiecesBytes(ps: seq<Piece>): seq<Byte> {
    if ps == [] then [] else PieceBytes(ps[0]) + PiecesBytes(ps[1..])
  }

  /** The piece is what it says, given what follows: a lone empty push has no IF behind it, a lone IF no
      magic, and both have room for an envelope, for otherwise the scan gives up. */
  predicate GoodPiece(p: Piece, rest: seq<Byte>) {
    match p
    case SkipPush(t) => GoodToken(t) && Pushed(t) != []
    case SkipOp(c) => c > 0x60
    case Lone(t) => GoodToken(t) && Pushed(t) == [] && |rest| >= 6 && GetOpcode(rest).Opcode? && !IsIf(GetOpcode(rest))
    case LoneIf(t) => GoodToken(t) && Pushed(t) == [] && |rest| >= 5 && GetOpcode(rest).Opcode? &&
                      !IsOrd(GetOpcode(rest))
    case Item(e) => GoodEnvelope(e)
  }

  predicate GoodPieces(ps: seq<Piece>) {
    ps == [] || (GoodPiece(ps[0], PiecesBytes(ps[1..])) && GoodPieces(ps[1..]))
  }

  /** The items of the envelopes, in order; an envelope stutters exactly when the piece right before it is
      a lone empty push, with or without IF. */
  function Expected(ps: seq<Piece>, stutter: bool, base: Nft): seq<Nft> {
    if ps == [] then []
    else
      (if ps[0].Item? then [Meaning(base, stutter, ps[0].envelope.fields, ps[0].envelope.ending)] else [])
      + Expected(ps[1..], ps[0].Lone? || ps[0].LoneIf?, base)
  }

  lemma SkipScans(p: Piece, rest: seq<Byte>, before: Mark, earlier: Mark, base: Nft)
    requires GoodPiece(p, rest) && (p.SkipPush? || p.SkipOp?)
    ensures Scan(PieceBytes(p) + rest, before, earlier, base) == Scan(rest, NoMark, NoMark, base)
  {
    hide TokenBytes, Pushed, GoodToken, ParseFields;
    if p.SkipPush? {
      OpcodeOfToken(p.token, rest);
    } else {
      assert (([p.c] + rest)[1..]) == rest;
    }
  }

  lemma LoneScans(t: Token, rest: seq<Byte>, before: Mark, earlier: Mark, base: Nft)
    requires GoodPiece(Lone(t), rest)
    ensures Scan(TokenBytes(t) + rest, before, earlier, base) == Scan(rest, FalseMark, before, base)
  {
    hide TokenBytes, Pushed, GoodToken, ParseFields, GetOpcode;
    OpcodeOfToken(t, rest);
  }

  lemma IfOpcode(rest: seq<Byte>)
    ensures IsIf(GetOpcode([IF] + rest)) && GetOpcode([IF] + rest).size == 1 && ([IF] + rest)[1..] == rest
  {
  }

  lemma LoneIfScans(t: Token, rest: seq<Byte>, before: Mark, earlier: Mark, base: Nft)
    requires GoodPiece(LoneIf(t), rest)
    ensures Scan((TokenBytes(t) + [IF]) + rest, before, earlier, base) == Scan(rest, IfMark, FalseMark, base)
  {
    hide TokenBytes, Pushed, GoodToken, ParseFields, GetOpcode, IsIf, IsOrd;
    Assoc(TokenBytes(t), [IF], rest);
    OpcodeOfToken(t, [IF] + rest);
    IfOpcode(rest);
  }

  lemma ItemSplit(a: seq<Byte>, b: seq<Byte>, c: seq<Byte>, d: seq<Byte>, rest: seq<Byte>)
    ensures (a + (b + (c + d))) + rest == a + (b + (c + (d + rest)))
  {
  }

  lemma ItemScans(e: Envelope, rest: seq<Byte>, before: Mark, earlier: Mark, base: Nft)
    requires base == BLANK.(tapScriptPk := base.tapScriptPk, isKeyVerify := base.isKeyVerify) && GoodEnvelope(e)
    ensures Scan(EnvelopeBytes(e) + rest, before, earlier, base) ==
            [Meaning(base, Stutters(before, earlier), e.fields, e.ending)] + Scan(rest, NoMark, NoMark, base)
  {
    hide TokenBytes, Pushed, GoodToken, ParseFields, GetOpcode, IsIf, FieldsBytes, EndingBytes, Meaning, GoodEnding;
    var inside := FieldsBytes(e.fields) + EndingBytes(e.ending);
    ItemSplit(TokenBytes(e.start), [IF], TokenBytes(e.magic), inside, rest);
    OpcodeOfToken(e.start, [IF] + (TokenBytes(e.magic) + (inside + rest)));
    IfOpcode(TokenBytes(e.magic) + (inside + rest));
    OpcodeOfToken(e.magic, inside + rest);
    EnvelopeParses(base, Stutters(before, earlier), e, rest);
    MagicIsLong(e.magic);
    EndingIsLong(e.ending);
  }

  lemma MagicIsLong(t: Token)
    requires GoodToken(t) && Pushed(t) == MAGIC
    ensures |TokenBytes(t)| >= 4
  {
  }

  lemma EndingIsLong(e: Ending)
    ensures |EndingBytes(e)| >= 1
  {
  }

  /** Scanning the pieces finds exactly the envelopes. */
  lemma {:induction false} ScanFindsEnvelopes(ps: seq<Piece>, before: Mark, earlier: Mark, base: Nft)
    requires base == BLANK.(tapScriptPk := base.tapScriptPk, isKeyVerify := base.isKeyVerify) && GoodPieces(ps)
    ensures Scan(PiecesBytes(ps), before, earlier, base) == Expected(ps, Stutters(before, earlier), base)
    decreases |ps|
  {
    hide Scan, GoodPiece, PieceBytes, Meaning;
    if ps == [] {
      ScanNothing(before, earlier, base);
    } else {
      var p, rest := ps[0], PiecesBytes(ps[1..]);
      PieceScans(p, rest, before, earlier, base);
      ScanFindsEnvelopes(ps[1..], NoMark, NoMark, base);
      ScanFindsEnvelopes(ps[1..], FalseMark, before, base);
      ScanFindsEnvelopes(ps[1..], IfMark, FalseMark, base);
    }
  }

  lemma ScanNothing(before: Mark, earlier: Mark, base: Nft)
    ensures Scan([], before, earlier, base) == []
  {
  }

  lemma PieceScans(p: Piece, rest: seq<Byte>, before: Mark, earlier: Mark, base: Nft)
    requires base == BLANK.(tapScriptPk := base.tapScriptPk, isKeyVerify := base.isKeyVerify) && GoodPiece(p, rest)
    ensures Scan(PieceBytes(p) + rest, before, earlier, base) ==
            match p
            case Item(e) =>
              [Meaning(base, Stutters(before, earlier), e.fields, e.ending)] + Scan(rest, NoMark, NoMark, base)
            case Lone(_) => Scan(rest, FalseMark, before, base)
            case LoneIf(_) => Scan(rest, IfMark, FalseMark, base)
            case _ => Scan(rest, NoMark, NoMark, base)
  {
    hide Scan, Meaning, GoodEnvelope, GetOpcode, IsIf, IsOrd, GoodToken, Pushed, TokenBytes, EnvelopeBytes;
    match p
    case SkipPush(_) => SkipScans(p, rest, before, earlier, base);
    case SkipOp(_) => SkipScans(p, rest, before, earlier, base);
    case Lone(t) => LoneScans(t, rest, before, earlier, base);
    case LoneIf(t) => LoneIfScans(t, rest, before, earlier, base);
    case Item(e) => ItemScans(e, rest, before, earlier, base);
  }

  /** The parser returns one item per envelope, in order, with its meaning and the script's key check. */
  lemma ItemsOfScript(ps: seq<Piece>)
    requires GoodPieces(ps)
    ensures Items(PiecesBytes(ps)) == Expected(ps, false, Base(PiecesBytes(ps)))
  {
    hide Scan, Expected, GoodPieces, PiecesBytes;
    ScanFindsEnvelopes(ps, NoMark, NoMark, Base(PiecesBytes(ps)));
  }

  function AsPieces(es: seq<Envelope>): (r: seq<Piece>)
    ensures |r| == |es|
  {
    seq(|es|, i requires 0 <= i < |es| => Item(es[i]))
  }

  lemma {:induction false} EnvelopesArePieces(es: seq<Envelope>, base: Nft)
    requires forall i :: 0 <= i < |es| ==> GoodEnvelope(es[i])
    ensures GoodPieces(AsPieces(es))
    ensures var items := Expected(AsPieces(es), false, base);
            |items| == |es| && forall i :: 0 <= i < |es| ==>
                      items[i] == Meaning(base, false, es[i].fields, es[i].ending)
    decreases |es|
  {
    hide Meaning, GoodEnvelope, PiecesBytes, GetOpcode, GoodToken, Pushed;
    if es != [] {
      assert AsPieces(es)[1..] == AsPieces(es[1..]);
      EnvelopesArePieces(es[1..], base);
    }
  }

  /** On any concatenation of well-formed envelopes the parser returns one item per envelope, in order. */
  lemma OneItemPerEnvelope(es: seq<Envelope>)
    requires forall i :: 0 <= i < |es| ==> GoodEnvelope(es[i])
    ensures var script := PiecesBytes(AsPieces(es));
            |Items(script)| == |es|
            && forall i :: 0 <= i < |es| ==>
                           Items(script)[i] == Meaning(Base(script), false, es[i].fields, es[i].ending)
  {
    hide Meaning, GoodEnvelope, PiecesBytes, Expected, Items, Base, GoodPieces;
    EnvelopesArePieces(es, Base(PiecesBytes(AsPieces(es))));
    ItemsOfScript(AsPieces(es));
  }

  /** The key check of a script: a 32-byte key, 0xad and a number from 1 to 8, and something after them. */
  lemma KeyCheckIff(script: seq<Byte>)
    ensures Base(script).isKeyVerify <==>
            exists key, n, rest :: |key| == 32 && 1 <= n <= 8 && rest != [] && script == Keyed(key, n, rest)
    ensures Base(script).tapScriptPk == if |script| > 35 && script[0] == 0x20 then script[..35] else []
    ensures Base(script) == BLANK.(tapScriptPk := Base(script).tapScriptPk, isKeyVerify := Base(script).isKeyVerify)
  {
    if Base(script).isKeyVerify {
      assert script == Keyed(script[1..33], script[34] - 0x50, script[35..]);
    }
  }

  function Keyed(key: seq<Byte>, n: nat, rest: seq<Byte>): seq<Byte>
    requires n <= 8
  {
    [0x20] + key + [0xad, 0x50 + n] + rest
  }
}
