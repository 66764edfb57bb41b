/** The parser invents nothing: every push it reads is a token, it finds the end of exactly the well-formed
    envelopes, and every item of any script is the meaning of an envelope in it. */
module OrdinalsComplete {
  import opened Maps
  import opened Vlq
  import opened Wire
  import opened Ordinals
  import opened OrdinalsGrammar
  import opened OrdinalsMeaning
  import opened OrdinalsScan

  // ---- opcodes ----

  lemma CodeOf(s: seq<Byte>) returns (t: Token)
    requires |s| >= 1 && (s[0] == 0 || 0x4f <= s[0] <= 0x60)
    ensures GoodToken(t) && t.Code? && TokenBytes(t) == s[..1]
    ensures GetOpcode(s) == Opcode(1, Pushed(t), true, true)
  {
    t := Code(s[0]);
    assert s[..1] == [s[0]];
  }

  lemma DataOf(s: seq<Byte>) returns (t: Token)
    requires |s| >= 1 && 0 < s[0] < 0x4f && GetOpcode(s).Opcode?
    ensures GoodToken(t) && t.Data? && TokenBytes(t) == s[..GetOpcode(s).size]
    ensures GetOpcode(s) == Opcode(|TokenBytes(t)|, Pushed(t), true, false)
  {
    hide Number, LittleEndian, Pow256;
    Powers();
    var (count, header) := PushHeader(s);
    var form := if s[0] < 0x4c then 0 else if s[0] == 0x4c then 1 else if s[0] == 0x4d then 2 else 4;
    t := Data(form, s[header..header + count]);
    HeaderOfPush(s, form);
    assert s[..header + count] == s[..header] + s[header..header + count];
  }

  lemma HeaderOfPush(s: seq<Byte>, form: nat)
    requires |s| >= 1 && 0 < s[0] < 0x4f && PushHeader(s).1 > 0
    requires form == if s[0] < 0x4c then 0 else if s[0] == 0x4c then 1 else if s[0] == 0x4d then 2 else 4
    ensures var (count, header) := PushHeader(s);
            && header <= |s| && HeaderOf(form, count) == s[..header]
            && (form == 0 ==> 1 <= count < 0x4c) && (form == 1 ==> count < 0x100)
            && (form == 2 ==> count < 0x1_0000) && (form == 4 ==> count < 0x1_0000_0000)
  {
    hide Number, LittleEndian;
    Powers();
    if form == 2 {
      LittleEndianOfNumber(s[1..3]);
      assert s[..3] == [s[0]] + s[1..3];
    } else if form == 4 {
      LittleEndianOfNumber(s[1..5]);
      assert s[..5] == [s[0]] + s[1..5];
    }
  }

  /** Every push is a token, and everything above the number opcodes is none. */
  lemma PushIsToken(s: seq<Byte>) returns (t: Token)
    requires GetOpcode(s).Opcode? && GetOpcode(s).isPush
    ensures GoodToken(t) && TokenBytes(t) == s[..GetOpcode(s).size]
    ensures GetOpcode(s) == Opcode(|TokenBytes(t)|, Pushed(t), true, t.Code?)
  {
    hide TokenBytes, Pushed, GoodToken;
    if s[0] == 0 || 0x4f <= s[0] <= 0x60 {
      t := CodeOf(s);
    } else {
      t := DataOf(s);
    }
  }

  lemma OtherOpcodes(s: seq<Byte>)
    requires |s| >= 1 && s[0] > 0x60
    ensures GetOpcode(s) == Opcode(1, [s[0]], false, true)
    ensures Next(s) == if s[0] == 0x68 then Finish(1) else Other(1)
  {
  }

  /** A script starts with a push exactly when it starts with a token, and with nothing valid exactly when it is
      empty or starts with a push that is cut off. */
  lemma PushIff(s: seq<Byte>)
    ensures GetOpcode(s).Opcode? && GetOpcode(s).isPush <==>
            exists t, tail :: GoodToken(t) && s == TokenBytes(t) + tail
    ensures GetOpcode(s).Invalid? <==> s == [] || (s[0] <= 0x60 && !(GetOpcode(s).Opcode? && GetOpcode(s).isPush))
  {
    hide TokenBytes, GoodToken;
    if GetOpcode(s).Opcode? && GetOpcode(s).isPush {
      var t := PushIsToken(s);
      assert s == TokenBytes(t) + s[GetOpcode(s).size..];
    }
    if t, tail :| GoodToken(t) && s == TokenBytes(t) + tail {
      OpcodeOfToken(t, tail);
    }
  }

  // ---- envelopes ----

  /** What Next reads, as bytes. */
  lemma NextPush(s: seq<Byte>) returns (t: Token)
    requires Next(s).Push?
    ensures GoodToken(t) && s == TokenBytes(t) + s[Next(s).size..] && Pushed(t) == Next(s).data
  {
    hide TokenBytes, Pushed, GoodToken, GetOpcode;
    t := PushIsToken(s);
  }

  lemma NextFinish(s: seq<Byte>)
    requires Next(s).Finish?
    ensures s == [END] + s[Next(s).size..]
  {
  }

  lemma {:induction false} BodyFound(s: seq<Byte>, n: Nft) returns (ts: seq<Token>)
    requires ParseBody(s, n).found
    ensures forall i :: 0 <= i < |ts| ==> GoodToken(ts[i])
    ensures s == (TokensBytes(ts) + [END]) + ParseBody(s, n).rest
    decreases |s|
  {
    hide Next, GoodToken, Pushed, TokenBytes, AddBody;
    var item := Next(s);
    if item.Finish? {
      NextFinish(s);
      ts := [];
    } else {
      var t := NextPush(s);
      var more := BodyFound(s[item.size..], AddBody(n, item.data, item.size, item.op));
      ts := [t] + more;
      assert ts[1..] == more;
      JoinFront(TokenBytes(t), TokensBytes(more), [END], ParseBody(s, n).rest);
    }
  }

  lemma JoinFront(a: seq<Byte>, b: seq<Byte>, c: seq<Byte>, d: seq<Byte>)
    ensures a + ((b + c) + d) == ((a + b) + c) + d
  {
  }

  lemma {:induction false} FieldsFound(s: seq<Byte>, n: Nft, tags: set<seq<Byte>>)
    returns (fs: seq<Field>, e: Ending)
    requires ParseFields(s, n, tags).found
    ensures GoodFields(fs) && GoodEnding(e)
    ensures s == (FieldsBytes(fs) + EndingBytes(e)) + ParseFields(s, n, tags).rest
    decreases |s|
  {
    hide Next, GoodToken, Pushed, TokenBytes, AddTag, AddValue, ParseBody, TokensBytes;
    var item := Next(s);
    var rest := ParseFields(s, n, tags).rest;
    fs := [];
    if item.Finish? {
      NextFinish(s);
      e := Closed;
    } else {
      var tag := NextPush(s);
      var s1 := s[item.size..];
      if item.data == [] {
        var ts := BodyFound(s1, n);
        e := Body(tag, ts);
        JoinEnding(TokenBytes(tag), TokensBytes(ts) + [END], rest);
      } else {
        fs, e := ValueFound(s1, AddTag(n, item.data, item.op, item.data in tags), tags, tag);
        assert [] + EndingBytes(e) == EndingBytes(e);
      }
    }
  }

  lemma JoinEnding(a: seq<Byte>, b: seq<Byte>, rest: seq<Byte>)
    ensures a + (b + rest) == ([] + (a + b)) + rest
  {
  }

  /** After a tag: its value and the other fields, or the end. */
  lemma {:induction false} ValueFound(s: seq<Byte>, n: Nft, tags: set<seq<Byte>>, tag: Token)
    returns (fs: seq<Field>, e: Ending)
    requires ParseValue(s, n, tags, Pushed(tag)).found && GoodTag(tag)
    ensures GoodFields(fs) && GoodEnding(e)
    ensures TokenBytes(tag) + s == (FieldsBytes(fs) + EndingBytes(e)) + ParseValue(s, n, tags, Pushed(tag)).rest
    decreases |s|
  {
    hide Next, GoodToken, Pushed, TokenBytes, AddValue, ParseFields, TokensBytes;
    var item := Next(s);
    var rest := ParseValue(s, n, tags, Pushed(tag)).rest;
    if item.Finish? {
      NextFinish(s);
      fs, e := [], Incomplete(tag);
      JoinEnding(TokenBytes(tag), [END], rest);
    } else {
      var value := NextPush(s);
      var dup := Pushed(tag) in tags;
      var gs, ending :=
        FieldsFound(s[item.size..], AddValue(n, Pushed(tag), item.data, item.size, item.op, dup),
                    tags + {Pushed(tag)});
      fs, e := [Field(tag, value)] + gs, ending;
      assert fs[1..] == gs;
      FieldSplit(TokenBytes(tag), TokenBytes(value), FieldsBytes(gs), EndingBytes(e), rest);
    }
  }

  /** The parser finds the end of an envelope exactly where one is written, and gives that envelope's meaning. */
  lemma FoundIff(base: Nft, stutter: bool, s: seq<Byte>)
    requires base == BLANK.(tapScriptPk := base.tapScriptPk, isKeyVerify := base.isKeyVerify)
    ensures var r := ParseFields(s, base.(isStutter := stutter), {});
            r.found <==> exists fs, e, tail :: Written(s, fs, e, tail)
  {
    hide ParseFields, FieldsBytes, EndingBytes, Meaning, GoodEnding;
    var r := ParseFields(s, base.(isStutter := stutter), {});
    if r.found {
      var fs, e := FieldsFound(s, base.(isStutter := stutter), {});
      assert Written(s, fs, e, r.rest);
    }
    if fs, e, tail :| Written(s, fs, e, tail) {
      WrittenParses(base, stutter, s, fs, e, tail);
    }
  }

  ghost predicate Written(s: seq<Byte>, fs: seq<Field>, e: Ending, tail: seq<Byte>) {
    GoodFields(fs) && GoodEnding(e) && s == (FieldsBytes(fs) + EndingBytes(e)) + tail
  }

  lemma WrittenParses(base: Nft, stutter: bool, s: seq<Byte>, fs: seq<Field>, e: Ending, tail: seq<Byte>)
    requires base == BLANK.(tapScriptPk := base.tapScriptPk, isKeyVerify := base.isKeyVerify)
    requires Written(s, fs, e, tail)
    ensures ParseFields(s, base.(isStutter := stutter), {}) == Parse(Meaning(base, stutter, fs, e), true, tail)
  {
    hide ParseFields, FieldsBytes, EndingBytes, Meaning, GoodEnding, TagSet, Tags;
    NoFields(base, stutter);
    FieldsParse(base, stutter, [], fs, e, tail);
    assert [] + fs == fs;
  }

  ghost predicate IsSuffix(r: seq<Byte>, s: seq<Byte>) {
    |r| <= |s| && r == s[|s| - |r|..]
  }

  lemma SuffixOfTail(r: seq<Byte>, s: seq<Byte>, k: nat)
    requires k <= |s| && IsSuffix(r, s[k..])
    ensures IsSuffix(r, s)
  {
  }

  lemma {:induction false} BodyLeavesSuffix(s: seq<Byte>, n: Nft)
    ensures IsSuffix(ParseBody(s, n).rest, s)
    decreases |s|
  {
    hide Next, AddBody;
    var item := Next(s);
    if item.Push? {
      BodyLeavesSuffix(s[item.size..], AddBody(n, item.data, item.size, item.op));
      SuffixOfTail(ParseBody(s, n).rest, s, item.size);
    }
  }

  /** What the field loop leaves is the end of what it was given. */
  lemma {:induction false} FieldsLeaveSuffix(s: seq<Byte>, n: Nft, tags: set<seq<Byte>>)
    ensures IsSuffix(ParseFields(s, n, tags).rest, s)
    decreases |s|
  {
    hide Next, AddTag, AddValue, ParseBody;
    var item := Next(s);
    if item.Push? {
      var s1 := s[item.size..];
      if item.data == [] {
        BodyLeavesSuffix(s1, n);
      } else {
        var value := Next(s1);
        if value.Push? {
          var dup := item.data in tags;
          FieldsLeaveSuffix(s1[value.size..],
                            AddValue(AddTag(n, item.data, item.op, dup), item.data, value.data, value.size, value.op,
                                     dup),
                            tags + {item.data});
          SuffixOfTail(ParseFields(s, n, tags).rest, s1, value.size);
        }
      }
      SuffixOfTail(ParseFields(s, n, tags).rest, s, item.size);
    }
  }

  // ---- whole scripts ----

  /** The item is the meaning of an envelope that stands somewhere in the script. */
  ghost predicate FromEnvelope(s: seq<Byte>, item: Nft, base: Nft) {
    exists before: seq<Byte>, e: Envelope, after: seq<Byte>, stutter: bool ::
      GoodEnvelope(e) && s == before + (EnvelopeBytes(e) + after) && item == Meaning(base, stutter, e.fields, e.ending)
  }

  lemma FromTail(s: seq<Byte>, k: nat, item: Nft, base: Nft)
    requires k <= |s| && FromEnvelope(s[k..], item, base)
    ensures FromEnvelope(s, item, base)
  {
    hide Meaning, EnvelopeBytes, GoodEnvelope;
    var before: seq<Byte>, e: Envelope, after: seq<Byte>, stutter: bool :|
      GoodEnvelope(e) && s[k..] == before + (EnvelopeBytes(e) + after)
      && item == Meaning(base, stutter, e.fields, e.ending);
    assert s == (s[..k] + before) + (EnvelopeBytes(e) + after);
  }

  /** An empty push, IF and the magic, and fields whose end is found: an envelope. */
  lemma EnvelopeAt(s: seq<Byte>, base: Nft, stutter: bool)
    requires base == BLANK.(tapScriptPk := base.tapScriptPk, isKeyVerify := base.isKeyVerify)
    requires GetOpcode(s).Opcode? && GetOpcode(s).isPush && GetOpcode(s).data == []
    requires var s1 := s[GetOpcode(s).size..];
             && IsIf(GetOpcode(s1))
             && var s2 := s1[GetOpcode(s1).size..];
                && IsOrd(GetOpcode(s2))
                && ParseFields(s2[GetOpcode(s2).size..], base.(isStutter := stutter), {}).found
    ensures var s1 := s[GetOpcode(s).size..];
            var s2 := s1[GetOpcode(s1).size..];
            FromEnvelope(s, ParseFields(s2[GetOpcode(s2).size..], base.(isStutter := stutter), {}).nft, base)
  {
    hide Meaning, GetOpcode, ParseFields, TokenBytes, Pushed, GoodToken, FieldsBytes, EndingBytes, GoodEnding;
    var s1 := s[GetOpcode(s).size..];
    var s2 := s1[GetOpcode(s1).size..];
    var inside := s2[GetOpcode(s2).size..];
    var start := PushIsToken(s);
    var magic := PushIsToken(s2);
    var fs, e := FieldsFound(inside, base.(isStutter := stutter), {});
    var tail := ParseFields(inside, base.(isStutter := stutter), {}).rest;
    WrittenParses(base, stutter, inside, fs, e, tail);
    var envelope := Envelope(start, magic, fs, e);
    assert s1 == [IF] + s2 by { IfByte(s1); }
    ItemSplit(TokenBytes(start), [IF], TokenBytes(magic), FieldsBytes(fs) + EndingBytes(e), tail);
    assert s == [] + (EnvelopeBytes(envelope) + tail);
  }

  lemma IfByte(s: seq<Byte>)
    requires IsIf(GetOpcode(s))
    ensures s == [IF] + s[GetOpcode(s).size..]
  {
  }

  /** Every item of a scan, from any state, is the meaning of an envelope in the script. */
  lemma {:induction false} ScanInventsNothing(s: seq<Byte>, before: Mark, earlier: Mark, base: Nft, k: nat)
    requires base == BLANK.(tapScriptPk := base.tapScriptPk, isKeyVerify := base.isKeyVerify)
    requires k < |Scan(s, before, earlier, base)|
    ensures FromEnvelope(s, Scan(s, before, earlier, base)[k], base)
    decreases |s|
  {
    hide GetOpcode, IsIf, IsOrd, ParseFields, FromEnvelope, Meaning, Stutters;
    var first := GetOpcode(s);
    var s1 := s[first.size..];
    var item := Scan(s, before, earlier, base)[k];
    if !first.isPush || first.data != [] {
      ScanInventsNothing(s1, NoMark, NoMark, base, k);
      FromTail(s, first.size, item, base);
    } else {
      var second := GetOpcode(s1);
      if !IsIf(second) {
        ScanInventsNothing(s1, FalseMark, before, base, k);
        FromTail(s, first.size, item, base);
      } else {
        AfterIf(s, before, earlier, base, k);
      }
    }
  }

  lemma {:induction false} AfterIf(s: seq<Byte>, before: Mark, earlier: Mark, base: Nft, k: nat)
    requires base == BLANK.(tapScriptPk := base.tapScriptPk, isKeyVerify := base.isKeyVerify)
    requires k < |Scan(s, before, earlier, base)|
    requires GetOpcode(s).Opcode? && GetOpcode(s).isPush && GetOpcode(s).data == []
    requires IsIf(GetOpcode(s[GetOpcode(s).size..]))
    ensures FromEnvelope(s, Scan(s, before, earlier, base)[k], base)
    decreases |s|, 0
  {
    hide GetOpcode, IsIf, IsOrd, ParseFields, FromEnvelope, Meaning, Stutters;
    var first := GetOpcode(s);
    var s1 := s[first.size..];
    var second := GetOpcode(s1);
    var s2 := s1[second.size..];
    var third := GetOpcode(s2);
    var item := Scan(s, before, earlier, base)[k];
    if !IsOrd(third) {
      ScanInventsNothing(s2, IfMark, FalseMark, base, k);
      FromTail(s1, second.size, item, base);
      FromTail(s, first.size, item, base);
    } else {
      var r := ParseFields(s2[third.size..], base.(isStutter := Stutters(before, earlier)), {});
      if r.found && k == 0 {
        EnvelopeAt(s, base, Stutters(before, earlier));
      } else {
        ScanInventsNothing(r.rest, NoMark, NoMark, base, if r.found then k - 1 else k);
        var inside := s2[third.size..];
        FieldsLeaveSuffix(inside, base.(isStutter := Stutters(before, earlier)), {});
        FromTail(inside, |inside| - |r.rest|, item, base);
        FromTail(s2, third.size, item, base);
        FromTail(s1, second.size, item, base);
        FromTail(s, first.size, item, base);
      }
    }
  }

  /** Every item the parser returns, for any script whatever, is the meaning of an envelope in it. */
  lemma NothingInvented(script: seq<Byte>, k: nat)
    requires k < |Items(script)|
    ensures FromEnvelope(script, Items(script)[k], Base(script))
  {
    hide Scan, FromEnvelope;
    ScanInventsNothing(script, NoMark, NoMark, Base(script), k);
  }
}
