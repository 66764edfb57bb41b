/** The envelope parser as the program runs it: nested loops that advance offsets into the script. Every
    iteration consumes at least one byte and every read stays inside the script. */
module OrdinalsFlow {
  import opened Maps
  import opened Vlq
  import opened Ordinals

  lemma SliceOfSlice(s: seq<Byte>, i: nat, k: nat)
    requires i + k <= |s|
    ensures s[i..][k..] == s[i + k..]
  {
  }

  /** The content loop: from `start` to the end marker, an opcode that is no push, or the end. */
  method ReadContent(script: seq<Byte>, start: nat, n: Nft) returns (nft: Nft, found: bool, offset: nat)
    requires start <= |script|
    ensures start <= offset <= |script| && Parse(nft, found, script[offset..]) == ParseBody(script[start..], n)
  {
    hide Next;
    nft, found, offset := n, false, start;
    while offset < |script|
      invariant start <= offset <= |script| && ParseBody(script[start..], n) == ParseBody(script[offset..], nft)
      decreases |script| - offset
    {
      var item := Next(script[offset..]);
      if item.Fail? {
        return;
      }
      SliceOfSlice(script, offset, item.size);
      offset := offset + item.size;
      if item.Finish? {
        return nft, true, offset;
      }
      if item.Other? {
        return;
      }
      nft := AddBody(nft, item.data, item.size, item.op);
    }
    NothingNext(script[offset..]);
  }

  lemma NothingNext(s: seq<Byte>)
    requires s == []
    ensures Next(s) == Fail
  {
  }

  /** The field loop: tag, value, tag, value, until the end marker or the body. */
  method ReadFields(script: seq<Byte>, start: nat, n: Nft) returns (nft: Nft, found: bool, offset: nat)
    requires start <= |script|
    ensures start <= offset <= |script| && Parse(nft, found, script[offset..]) == ParseFields(script[start..], n, {})
  {
    hide Next, ParseBody, AddTag, AddValue, AddBody;
    nft, found, offset := n, false, start;
    var tags: set<seq<Byte>> := {};
    while offset < |script|
      invariant start <= offset <= |script| &&
                ParseFields(script[start..], n, {}) == ParseFields(script[offset..], nft, tags)
      decreases |script| - offset
    {
      var item := Next(script[offset..]);
      if item.Fail? {
        return;
      }
      SliceOfSlice(script, offset, item.size);
      offset := offset + item.size;
      if item.Finish? {
        return nft, true, offset;
      }
      if item.Other? {
        return;
      }
      var tag := item.data;
      if |tag| == 0 {
        nft, found, offset := ReadContent(script, offset, nft);
        return;
      }
      var dup := tag in tags;
      nft := AddTag(nft, tag, item.op, dup);
      var value := Next(script[offset..]);
      if value.Fail? {
        return;
      }
      SliceOfSlice(script, offset, value.size);
      offset := offset + value.size;
      if value.Finish? {
        nft := nft.(isIncompleteField := true);
        return nft, true, offset;
      }
      if value.Other? {
        return;
      }
      nft := AddValue(nft, tag, value.data, value.size, value.op, dup);
      tags := tags + {tag};
    }
    NothingNext(script[offset..]);
  }

  lemma NothingToScan(s: seq<Byte>, before: Mark, earlier: Mark, base: Nft)
    requires s == []
    ensures Scan(s, before, earlier, base) == []
  {
  }

  lemma ScanAll(script: seq<Byte>)
    ensures Items(script) == [] + Scan(script[0..], NoMark, NoMark, Base(script))
  {
    assert script[0..] == script;
  }

  lemma AppendItem(nfts: seq<Nft>, nft: Nft, others: seq<Nft>)
    ensures nfts + ([nft] + others) == (nfts + [nft]) + others
    ensures nfts + ([] + others) == nfts + others
  {
  }

  /** The scan over the whole script. */
  method ExtractPkScriptForNFTJubilee(script: seq<Byte>) returns (nfts: seq<Nft>)
    ensures nfts == Items(script)
  {
    hide GetOpcode, ParseFields, IsIf, IsOrd, Stutters, Base, Items;
    nfts := [];
    var base := Base(script);
    var p, before, earlier := 0, NoMark, NoMark;
    ScanAll(script);
    ghost var all := Items(script);
    while p < |script|
      invariant p <= |script| && all == nfts + Scan(script[p..], before, earlier, base)
      decreases |script| - p
    {
      var stutter := Stutters(before, earlier);
      var first := GetOpcode(script[p..]);
      if first.Invalid? {
        return;
      }
      SliceOfSlice(script, p, first.size);
      p := p + first.size;
      if !first.isPush || first.data != [] {
        before, earlier := NoMark, NoMark;
        continue;
      }
      earlier, before := before, FalseMark;
      if p + 6 > |script| {
        return;
      }
      var second := GetOpcode(script[p..]);
      if second.Invalid? {
        return;
      }
      if !IsIf(second) {
        continue;
      }
      SliceOfSlice(script, p, second.size);
      p := p + second.size;
      earlier, before := before, IfMark;
      var third := GetOpcode(script[p..]);
      if third.Invalid? {
        return;
      }
      if !IsOrd(third) {
        continue;
      }
      SliceOfSlice(script, p, third.size);
      p := p + third.size;
      before, earlier := NoMark, NoMark;
      var nft, found, offset := ReadFields(script, p, base.(isStutter := stutter));
      AppendItem(nfts, nft, Scan(script[offset..], NoMark, NoMark, base));
      if found {
        nfts := nfts + [nft];
      }
      p := offset;
    }
    NothingToScan(script[p..], before, earlier, base);
  }
}
