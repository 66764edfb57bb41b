/** Parsing the bytes of a well-formed envelope gives its meaning, field by field. */
module OrdinalsMeaning {
  import opened Maps
  import opened Vlq
  import opened Wire
  import opened Ordinals
  import opened OrdinalsGrammar

  // ---- the meaning of a longer field list ----

  ghost function TagSet(ts: seq<Token>): set<seq<Byte>> {
    set i | 0 <= i < |ts| :: Pushed(ts[i])
  }

  lemma SomeAppend(ts: seq<Token>, t: Token)
    ensures SomeEven(ts + [t]) == (SomeEven(ts) || IsEven(Pushed(t)))
    ensures SomeNumber(ts + [t]) == (SomeNumber(ts) || IsNumber(t))
  {
    hide IsEven, Pushed;
    var r := ts + [t];
    assert r[|ts|] == t;
    forall i | 0 <= i < |ts| ensures r[i] == ts[i] { }
    if SomeEven(ts) {
      var i :| 0 <= i < |ts| && IsEven(Pushed(ts[i]));
      assert IsEven(Pushed(r[i]));
    }
    if SomeNumber(ts) {
      var i :| 0 <= i < |ts| && IsNumber(ts[i]);
      assert IsNumber(r[i]);
    }
  }

  lemma RepeatAppend(ts: seq<Token>, t: Token)
    ensures SomeRepeat(ts + [t]) == (SomeRepeat(ts) || Pushed(t) in TagSet(ts))
    ensures TagSet(ts + [t]) == TagSet(ts) + {Pushed(t)}
  {
    hide Pushed;
    var r := ts + [t];
    assert r[|ts|] == t;
    forall i | 0 <= i < |ts| ensures r[i] == ts[i] { }
    if Pushed(t) in TagSet(ts) {
      var i :| 0 <= i < |ts| && Pushed(ts[i]) == Pushed(t);
      assert Pushed(r[i]) == Pushed(r[|ts|]);
    }
    if SomeRepeat(ts) {
      var i, j :| 0 <= i < j < |ts| && Pushed(ts[i]) == Pushed(ts[j]);
      assert Pushed(r[i]) == Pushed(r[j]);
    }
    forall x | x in TagSet(ts) + {Pushed(t)} ensures x in TagSet(r) {
      if x in TagSet(ts) {
        var i :| 0 <= i < |ts| && Pushed(ts[i]) == x;
        assert Pushed(r[i]) == x;
      } else {
        assert Pushed(r[|ts|]) == x;
      }
    }
  }

  lemma {:induction false} ValuesAppend(fs: seq<Field>, f: Field, tag: Byte)
    ensures Values(fs + [f], tag) == Values(fs, tag) + (if IsField(f, tag) then [Pushed(f.value)] else [])
  {
    hide Pushed;
    if fs == [] {
      assert fs + [f] == [f] && [f][1..] == [];
    } else {
      assert (fs + [f])[1..] == fs[1..] + [f];
      ValuesAppend(fs[1..], f, tag);
    }
  }

  lemma {:induction false} ValuesPresent(fs: seq<Field>, tag: Byte)
    ensures Values(fs, tag) != [] <==> [tag] in TagSet(Tags(fs, Closed))
  {
    hide Pushed;
    if fs == [] {
      assert Tags(fs, Closed) == [];
    } else {
      var ts := Tags(fs[1..], Closed);
      assert Tags(fs, Closed) == [fs[0].tag] + ts;
      TagSetPrepend(fs[0].tag, ts);
      assert IsField(fs[0], tag) <==> Pushed(fs[0].tag) == [tag];
      ValuesPresent(fs[1..], tag);
    }
  }

  lemma TagSetPrepend(t: Token, ts: seq<Token>)
    ensures TagSet([t] + ts) == {Pushed(t)} + TagSet(ts)
  {
    hide Pushed;
    var r := [t] + ts;
    assert r[0] == t;
    forall i | 0 <= i < |ts| ensures r[i + 1] == ts[i] { }
    forall x | x in TagSet(ts) ensures x in TagSet(r) {
      var i :| 0 <= i < |ts| && Pushed(ts[i]) == x;
      assert Pushed(r[i + 1]) == x;
    }
    forall x | x in TagSet(r) ensures x in {Pushed(t)} + TagSet(ts) {
      var i :| 0 <= i < |r| && Pushed(r[i]) == x;
      if i > 0 { assert ts[i - 1] == r[i]; }
    }
  }

  lemma FlatAppend(vs: seq<seq<Byte>>, v: seq<Byte>)
    ensures Flat(vs + [v]) == Flat(vs) + v
    ensures Ids(vs + [v]) == Ids(vs) + (if IsId(v) then [v] else [])
    ensures First(vs + [v]) == if vs == [] then Some(v) else First(vs)
  {
    assert (vs + [v])[..|vs|] == vs;
  }

  lemma TagsAppend(fs: seq<Field>, f: Field)
    ensures Tags(fs + [f], Closed) == Tags(fs, Incomplete(f.tag)) == Tags(fs, Closed) + [f.tag]
    ensures ValueTokens(fs + [f]) == ValueTokens(fs) + [f.value]
  {
  }

  /** The meaning of fields fs followed by a tag whose value has not been read. */
  function Tagged(base: Nft, stutter: bool, fs: seq<Field>, tag: Token): Nft {
    Meaning(base, stutter, fs, Incomplete(tag)).(isIncompleteField := false)
  }

  /** The parser's tests are those of the grammar. */
  lemma EvenIs(tag: seq<Byte>)
    ensures UnrecognizedEven(tag) <==> IsEven(tag)
  {
  }

  lemma IdIs(v: seq<Byte>)
    ensures IsNftId(v) <==> IsId(v)
  {
  }

  lemma PointerIs(v: seq<Byte>)
    ensures PointerOf(v) == LowEight(v)
  {
    var k := if |v| > 8 then 8 else |v|;
    assert v[..|v|] == v;
    NumberIsWeighted(v[..k]);
    WeightedPrefix(v, k, k);
  }

  lemma TagByteIs(tag: seq<Byte>)
    ensures forall b :: TagByte(tag) == Some(b) <==> tag == [b]
  {
  }

  lemma AddTagMeaning(base: Nft, stutter: bool, fs: seq<Field>, tag: Token)
    requires GoodTag(tag)
    ensures AddTag(Meaning(base, stutter, fs, Closed), Pushed(tag), tag.Code?, Pushed(tag) in TagSet(Tags(fs, Closed)))
            == Tagged(base, stutter, fs, tag)
  {
    hide Values, First, UnrecognizedEven, IsEven, SomeEven, SomeNumber, SomeRepeat, TagSet, Concat, TypeOf, DelegateOf,
         ParentsOf, MetadataOf, PointerAt;
    TagsAppend(fs, Field(tag, tag));
    EvenIs(Pushed(tag));
    SomeAppend(Tags(fs, Closed), tag);
    RepeatAppend(Tags(fs, Closed), tag);
  }

  /** One field more: only what its tag governs changes. */
  lemma ValuesStep(fs: seq<Field>, f: Field, tag: Byte)
    ensures var vs, ws := Values(fs, tag), Values(fs + [f], tag);
            && (!IsField(f, tag) ==> ws == vs)
            && (IsField(f, tag) ==>
                  && First(ws) == (if vs == [] then Some(Pushed(f.value)) else First(vs))
                  && Flat(ws) == Flat(vs) + Pushed(f.value)
                  && Ids(ws) == Ids(vs) + (if IsId(Pushed(f.value)) then [Pushed(f.value)] else [])
                  && ws != []
                  && (vs != [] <==> Pushed(f.tag) in TagSet(Tags(fs, Closed))))
  {
    hide Pushed, Values, First, Flat, Ids, IsId, TagSet;
    ValuesAppend(fs, f, tag);
    ValuesPresent(fs, tag);
    FlatAppend(Values(fs, tag), Pushed(f.value));
    assert Values(fs, tag) + [] == Values(fs, tag);
    assert IsField(f, tag) ==> Pushed(f.tag) == [tag];
  }

  lemma FirstValuesStep(fs: seq<Field>, f: Field)
    ensures var t, v, seen := Pushed(f.tag), Pushed(f.value), TagSet(Tags(fs, Closed));
            && TypeOf(fs + [f]) == (if IsField(f, 1) && t !in seen then v else TypeOf(fs))
            && First(Values(fs + [f], 9)) ==
               (if IsField(f, 9) &&
                t !in seen then Some(v) else First(Values(fs, 9)))
            && First(Values(fs + [f], 7)) ==
               (if IsField(f, 7) && t !in seen then Some(v) else First(Values(fs, 7)))
            && PointerAt(fs + [f]) ==
              (if IsField(f, 2) && t !in seen then Some(LowEight(v)) else PointerAt(fs))
  {
    hide Pushed, Values, Flat, Ids, IsId, TagSet, LowEight, Tags;
    ValuesStep(fs, f, 1);
    ValuesStep(fs, f, 2);
    ValuesStep(fs, f, 7);
    ValuesStep(fs, f, 9);
  }

  lemma OtherValuesStep(fs: seq<Field>, f: Field)
    ensures var t, v, seen := Pushed(f.tag), Pushed(f.value), TagSet(Tags(fs, Closed));
            && DelegateOf(fs + [f]) ==
              (if IsField(f, 11) && t !in seen && IsId(v) then Some(v) else DelegateOf(fs))
            && ParentsOf(fs + [f]) ==
              (if IsField(f, 3) && IsId(v) then ParentsOf(fs) + [v] else ParentsOf(fs))
            && MetadataOf(fs + [f]) ==
              (if IsField(f, 5) then Some(OrEmpty(MetadataOf(fs)) + v) else MetadataOf(fs))
            && (IsField(f, 5) && t !in seen ==> MetadataOf(fs) == None)
  {
    hide Pushed, Values, Flat, Ids, IsId, TagSet, Tags;
    ValuesStep(fs, f, 3);
    ValuesStep(fs, f, 5);
    ValuesStep(fs, f, 11);
    NothingFlat();
    assert ParentsOf(fs) + [] == ParentsOf(fs);
  }

  lemma NothingFlat()
    ensures Flat([]) == []
  {
  }

  lemma SetFirstByComponent(n: Nft, b: Byte, v: seq<Byte>)
    ensures SetFirst(n, b, v) ==
            n.(contentType := if b == TAG_CONTENT_TYPE then v else n.contentType,
               contentEncoding := if b == TAG_CONTENT_ENCODING then Some(v) else n.contentEncoding,
               delegate := if b == TAG_DELEGATE && IsNftId(v) then Some(v) else n.delegate,
               parents := if b == TAG_PARENT && IsNftId(v) then n.parents + [v] else n.parents,
               metadata := if b == TAG_METADATA then Some(v) else n.metadata,
               metaProtocol := if b == TAG_METAPROTOCOL then Some(v) else n.metaProtocol,
               pointer := if b == TAG_POINTER then Some(PointerOf(v)) else n.pointer)
  {
    hide IsNftId, PointerOf;
  }

  lemma SetAgainByComponent(n: Nft, b: Byte, v: seq<Byte>)
    ensures SetAgain(n, b, v) ==
            n.(parents := if b == TAG_PARENT && IsNftId(v) then n.parents + [v] else n.parents,
               metadata := if b == TAG_METADATA then Some(OrEmpty(n.metadata) + v) else n.metadata)
  {
    hide IsNftId;
  }

  /** A value, component by component. */
  lemma ValueByComponent(n: Nft, tag: seq<Byte>, v: seq<Byte>, size: nat, op: bool, dup: bool)
    ensures var b := TagByte(tag);
            AddValue(n, tag, v, size, op, dup) ==
            n.(isPushnum := n.isPushnum || Pushnum(v, size, op),
               contentType := if b == Some(TAG_CONTENT_TYPE) && !dup then v else n.contentType,
               contentEncoding := if b == Some(TAG_CONTENT_ENCODING) && !dup then Some(v) else n.contentEncoding,
               delegate := if b == Some(TAG_DELEGATE) && !dup && IsNftId(v) then Some(v) else n.delegate,
               parents := if b == Some(TAG_PARENT) && IsNftId(v) then n.parents + [v] else n.parents,
               metadata := if b == Some(TAG_METADATA) then Some(if dup then OrEmpty(n.metadata) + v else v)
                           else n.metadata,
               metaProtocol := if b == Some(TAG_METAPROTOCOL) && !dup then Some(v) else n.metaProtocol,
               pointer := if b == Some(TAG_POINTER) && !dup then Some(PointerOf(v)) else n.pointer)
  {
    hide TagByte, IsNftId, PointerOf, Pushnum, SetFirst, SetAgain, OrEmpty;
    if TagByte(tag).Some? {
      var m := n.(isPushnum := n.isPushnum || Pushnum(v, size, op));
      SetFirstByComponent(m, TagByte(tag).value, v);
      SetAgainByComponent(m, TagByte(tag).value, v);
    }
  }

  lemma AddValueMeaning(base: Nft, stutter: bool, fs: seq<Field>, f: Field)
    requires GoodField(f)
    ensures AddValue(Tagged(base, stutter, fs, f.tag), Pushed(f.tag), Pushed(f.value), |TokenBytes(f.value)|,
                     f.value.Code?,
                     Pushed(f.tag) in TagSet(Tags(fs, Closed)))
            == Meaning(base, stutter, fs + [f], Closed)
  {
    hide Pushed, TokenBytes, GoodToken, Values, First, IsNftId, IsId, PointerOf, LowEight, SomeEven, SomeNumber,
         SomeRepeat, TagSet, Concat, Pushnum, IsNumber, TagByte, AddValue, TypeOf, DelegateOf, ParentsOf, MetadataOf,
         PointerAt, Tags, ValueTokens;
    var t, v := Pushed(f.tag), Pushed(f.value);
    assert [] + v == v;
    TagsAppend(fs, f);
    SomeAppend(ValueTokens(fs), f.value);
    NextToken(f.value, []);
    IdIs(v);
    PointerIs(v);
    TagByteIs(t);
    FirstValuesStep(fs, f);
    OtherValuesStep(fs, f);
    ValueByComponent(Tagged(base, stutter, fs, f.tag), t, v, |TokenBytes(f.value)|, f.value.Code?,
                     t in TagSet(Tags(fs, Closed)));
  }
}
