/** Proof resolution as the program runs it: a grouping loop over the query result, then loops over the
    groups in any order that write statuses and collect the valid proofs. */
module ProofFlow {
  import opened Maps
  import opened Text
  import opened Penalty
  import opened Proofs

  datatype Group = Group(latest: Proof, duplicates: seq<Proof>)
  type Groups = map<string, map<string, Group>>

  ghost function ToSet<T>(s: seq<T>): set<T> {
    set i | 0 <= i < |s| :: s[i]
  }

  lemma ToSetAppend<T>(s: seq<T>, x: T)
    ensures ToSet(s + [x]) == ToSet(s) + {x}
  {
    forall y | y in ToSet(s) + {x} ensures y in ToSet(s + [x]) {
      if y in ToSet(s) {
        var i :| 0 <= i < |s| && s[i] == y;
        assert (s + [x])[i] == y;
      } else {
        assert (s + [x])[|s|] == y;
      }
    }
  }

  lemma ToSetPrefix<T>(s: seq<T>, n: nat)
    requires n < |s|
    ensures ToSet(s[..n + 1]) == ToSet(s[..n]) + {s[n]}
  {
    assert s[..n + 1] == s[..n] + [s[n]];
    ToSetAppend(s[..n], s[n]);
  }

  ghost predicate NoRepeats<T>(s: seq<T>) {
    forall i, j :: 0 <= i < j < |s| ==> s[i] != s[j]
  }

  lemma NoRepeatsAppend<T>(s: seq<T>, x: T)
    requires NoRepeats(s) && x !in ToSet(s)
    ensures NoRepeats(s + [x])
  {
    forall i | 0 <= i < |s| ensures s[i] != x {
      assert s[i] in ToSet(s);
    }
  }

  function Lookup(groups: Groups, indexer: string, hash: string): Option<Group> {
    if indexer in groups && hash in groups[indexer] then Some(groups[indexer][hash]) else None
  }

  function Put(groups: Groups, indexer: string, hash: string, g: Group): (r: Groups)
    ensures forall i, h :: Lookup(r, i, h) == if i == indexer && h == hash then Some(g) else Lookup(groups, i, h)
  {
    var byHash := if indexer in groups then groups[indexer] else map[];
    groups[indexer := byHash[hash := g]]
  }

  /** g holds exactly the proofs of a group, the earliest one apart. */
  ghost predicate Represents(g: Option<Group>, members: set<Proof>) {
    match g
    case None => members == {}
    case Some(g) => IsEarliest(members, g.latest) && ToSet(g.duplicates) == members - {g.latest} &&
                    NoRepeats(g.duplicates)
  }

  ghost predicate Grouped(groups: Groups, s: set<Proof>) {
    forall i, h :: Represents(Lookup(groups, i, h), Members(s, i, h))
  }

  /** One step of the grouping loop. */
  function AddToGroup(g: Option<Group>, p: Proof): Group {
    match g
    case None => Group(p, [])
    case Some(g) =>
      if Earlier(p, g.latest) then Group(p, g.duplicates + [g.latest]) else Group(g.latest, g.duplicates + [p])
  }

  lemma AddKeepsGroup(g: Option<Group>, members: set<Proof>, p: Proof)
    requires Represents(g, members) && p !in members && DistinctTxids(members + {p})
    ensures Represents(Some(AddToGroup(g, p)), members + {p})
  {
    match g
    case None =>
      assert members + {p} == {p};
    case Some(g) =>
      EarlierTotal(p, g.latest);
      if Earlier(p, g.latest) {
        ToSetAppend(g.duplicates, g.latest);
        NoRepeatsAppend(g.duplicates, g.latest);
        forall q | q in members && q != g.latest ensures Earlier(p, q) { EarlierTransitive(p, g.latest, q); }
        EarlierIrreflexive(p);
        assert members + {p} - {p} == members - {g.latest} + {g.latest};
      } else {
        ToSetAppend(g.duplicates, p);
        NoRepeatsAppend(g.duplicates, p);
        assert members + {p} - {g.latest} == members - {g.latest} + {p};
      }
  }

  lemma MembersAdd(s: set<Proof>, p: Proof, i: string, h: string)
    ensures Members(s + {p}, i, h) == if p.indexer == i && p.hash == h then Members(s, i, h) + {p} else Members(s, i, h)
  {
  }

  lemma GroupStep(groups: Groups, s: set<Proof>, p: Proof)
    requires Grouped(groups, s) && p !in s && DistinctTxids(s + {p})
    ensures Grouped(Put(groups, p.indexer, p.hash, AddToGroup(Lookup(groups, p.indexer, p.hash), p)), s + {p})
  {
    hide Represents, AddToGroup, Members, Lookup;
    var r := Put(groups, p.indexer, p.hash, AddToGroup(Lookup(groups, p.indexer, p.hash), p));
    MembersWithin(s, p);
    forall i, h ensures Represents(Lookup(r, i, h), Members(s + {p}, i, h)) {
      MembersAdd(s, p, i, h);
      if p.indexer == i && p.hash == h {
        AddKeepsGroup(Lookup(groups, i, h), Members(s, i, h), p);
      }
    }
  }

  lemma MembersWithin(s: set<Proof>, p: Proof)
    requires p !in s && DistinctTxids(s + {p})
    ensures p !in Members(s, p.indexer, p.hash) && DistinctTxids(Members(s, p.indexer, p.hash) + {p})
  {
  }

  lemma FreshNext(proofs: seq<Proof>, n: nat)
    requires n < |proofs| && NoRepeats(proofs)
    ensures proofs[n] !in ToSet(proofs[..n])
  {
  }

  lemma PrefixWithin<T>(s: seq<T>, n: nat)
    requires n <= |s|
    ensures ToSet(s[..n]) <= ToSet(s)
  {
    forall x | x in ToSet(s[..n]) ensures x in ToSet(s) {
      var i :| 0 <= i < n && s[..n][i] == x;
      assert s[i] == x;
    }
  }

  /** The grouping loop. */
  method GroupProofs(proofs: seq<Proof>) returns (groups: Groups)
    requires NoRepeats(proofs) && DistinctTxids(ToSet(proofs))
    ensures Grouped(groups, ToSet(proofs))
  {
    hide Grouped, ToSet, NoRepeats, Lookup;
    groups := map[];
    assert proofs[..0] == [];
    NothingGrouped();
    for n := 0 to |proofs|
      invariant Grouped(groups, ToSet(proofs[..n]))
    {
      var p := proofs[n];
      FreshNext(proofs, n);
      ToSetPrefix(proofs, n);
      PrefixWithin(proofs, n + 1);
      GroupStep(groups, ToSet(proofs[..n]), p);
      groups := Put(groups, p.indexer, p.hash, AddToGroup(Lookup(groups, p.indexer, p.hash), p));
    }
    assert proofs[..|proofs|] == proofs;
  }

  lemma NothingGrouped()
    ensures Grouped(map[], ToSet([]))
  {
  }

  // ---- writing the verdicts ----

  /** After the proofs `done`: their verdicts by transaction id, and the valid ones among them once each. */
  ghost predicate Resolved(r: Rules, s: set<Proof>, done: set<Proof>, updates: map<string, Status>,
                           valid: seq<Settled>) {
    && updates.Keys == (set p | p in done :: p.txid)
    && (forall p :: p in done ==> updates[p.txid] == Verdict(r, s, p))
    && ToSet(valid) == ValidAmong(r, s, done)
    && NoRepeats(valid)
  }

  /** Recording one more proof; a valid one is also appended. */
  lemma RecordStep(r: Rules, s: set<Proof>, done: set<Proof>, updates: map<string, Status>, valid: seq<Settled>,
                   p: Proof)
    requires Resolved(r, s, done, updates, valid) && done <= s && p in s && p !in done && DistinctTxids(s)
    ensures var v := Verdict(r, s, p);
            Resolved(r, s, done + {p}, updates[p.txid := v],
                     if v in {Valid, ValidDelayed} then valid + [Settled(p, v)] else valid)
  {
    hide Verdict;
    var v := Verdict(r, s, p);
    forall q | q in done ensures q.txid != p.txid {
      assert q in s;
    }
    if v in {Valid, ValidDelayed} {
      ToSetAppend(valid, Settled(p, v));
      assert ValidAmong(r, s, done + {p}) == ValidAmong(r, s, done) + {Settled(p, v)};
      NoRepeatsAppend(valid, Settled(p, v));
    } else {
      assert ValidAmong(r, s, done + {p}) == ValidAmong(r, s, done);
    }
  }

  lemma VerdictsInGroup(r: Rules, s: set<Proof>, g: Group, indexer: string, hash: string, p: Proof)
    requires Represents(Some(g), Members(s, indexer, hash)) && p in Members(s, indexer, hash)
    ensures Matches(r, p) <==> EqualFold(hash, Expected(r.digest, indexer, r.blockHash, r.stateHash))
    ensures Verdict(r, s, p) ==
            (if !Matches(r, p) then InvalidHash else if p == g.latest then MatchedStatus(r, p) else InvalidDuplicate)
  {
    hide MatchedStatus, Matches;
    MatchesByKey(r, p);
    if Canonical(s, p) {
      EarliestUnique(Members(s, indexer, hash), p, g.latest);
    }
  }

  lemma MatchesByKey(r: Rules, p: Proof)
    ensures Matches(r, p) <==> EqualFold(p.hash, Expected(r.digest, p.indexer, r.blockHash, r.stateHash))
  {
  }

  lemma GroupOf(g: Group, members: set<Proof>)
    requires Represents(Some(g), members)
    ensures g.latest in members && g.latest !in ToSet(g.duplicates) && members == {g.latest} + ToSet(g.duplicates)
    ensures NoRepeats(g.duplicates)
  {
  }

  /** Writes the verdicts of one group. */
  method ResolveGroup(r: Rules, g: Group, hash: string, expected: string, updates: map<string, Status>,
                      valid: seq<Settled>,
                      ghost s: set<Proof>, ghost indexer: string, ghost done: set<Proof>)
    returns (updates': map<string, Status>, valid': seq<Settled>)
    requires DistinctTxids(s) && Represents(Some(g), Members(s, indexer, hash))
    requires expected == Expected(r.digest, indexer, r.blockHash, r.stateHash)
    requires done <= s && done !! Members(s, indexer, hash) && Resolved(r, s, done, updates, valid)
    ensures Resolved(r, s, done + Members(s, indexer, hash), updates', valid')
  {
    hide Resolved, Represents, Verdict, Expected, EqualFold, MatchedStatus, Matches, NoRepeats, ToSet, DistinctTxids;
    updates', valid' := updates, valid;
    ghost var members := Members(s, indexer, hash);
    GroupOf(g, members);
    VerdictsInGroup(r, s, g, indexer, hash, g.latest);
    RecordStep(r, s, done, updates, valid, g.latest);
    var duplicateStatus := InvalidHash;
    if EqualFold(hash, expected) {
      var status := MatchedStatus(r, g.latest);
      StatusIsOneOf(r, g.latest);
      updates' := updates'[g.latest.txid := status];
      if status != Expired {
        valid' := valid' + [Settled(g.latest, status)];
      }
      duplicateStatus := InvalidDuplicate;
    } else {
      updates' := updates'[g.latest.txid := InvalidHash];
    }
    ghost var first := done + {g.latest};
    NoneOf(first, g.duplicates);
    for k := 0 to |g.duplicates|
      invariant Resolved(r, s, first + ToSet(g.duplicates[..k]), updates', valid')
    {
      var d := g.duplicates[k];
      NextDuplicate(g, k);
      VerdictsInGroup(r, s, g, indexer, hash, d);
      RecordStep(r, s, first + ToSet(g.duplicates[..k]), updates', valid', d);
      updates' := updates'[d.txid := duplicateStatus];
      assert first + ToSet(g.duplicates[..k]) + {d} == first + ToSet(g.duplicates[..k + 1]);
    }
    assert g.duplicates[..|g.duplicates|] == g.duplicates;
    assert first + ToSet(g.duplicates) == done + members;
  }

  lemma StatusIsOneOf(r: Rules, p: Proof)
    ensures MatchedStatus(r, p) in {Valid, ValidDelayed, Expired}
  {
    StatusIsMatching(r.config, p.prove, p.height);
  }

  lemma NoneOf(s: set<Proof>, d: seq<Proof>)
    ensures s + ToSet(d[..0]) == s
  {
  }

  lemma NextDuplicate(g: Group, k: nat)
    requires k < |g.duplicates| && NoRepeats(g.duplicates) && g.latest !in ToSet(g.duplicates)
    ensures g.duplicates[k] in ToSet(g.duplicates) && g.duplicates[k] != g.latest
    ensures g.duplicates[k] !in ToSet(g.duplicates[..k])
    ensures ToSet(g.duplicates[..k]) <= ToSet(g.duplicates)
    ensures ToSet(g.duplicates[..k + 1]) == ToSet(g.duplicates[..k]) + {g.duplicates[k]}
  {
    FreshNext(g.duplicates, k);
    PrefixWithin(g.duplicates, k);
    ToSetPrefix(g.duplicates, k);
    PrefixWithin(g.duplicates, k + 1);
  }

  ghost function ByIndexer(s: set<Proof>, indexers: set<string>): set<Proof> {
    set p | p in s && p.indexer in indexers
  }

  ghost function ByHash(s: set<Proof>, indexer: string, hashes: set<string>): set<Proof> {
    set p | p in s && p.indexer == indexer && p.hash in hashes
  }

  /** Writes the verdicts of all groups of one indexer. */
  method ResolveIndexer(r: Rules, byHash: map<string, Group>, indexer: string, updates: map<string, Status>,
                        valid: seq<Settled>,
                        ghost s: set<Proof>, ghost done: set<Proof>)
    returns (updates': map<string, Status>, valid': seq<Settled>)
    requires DistinctTxids(s) && done <= s && done !! ByIndexer(s, {indexer}) && Resolved(r, s, done, updates, valid)
    requires forall h :: h in byHash ==> Represents(Some(byHash[h]), Members(s, indexer, h))
    requires forall p :: p in s && p.indexer == indexer ==> p.hash in byHash
    ensures Resolved(r, s, done + ByIndexer(s, {indexer}), updates', valid')
  {
    hide Resolved, Represents, Expected, DistinctTxids, ByHash, ByIndexer, Members;
    updates', valid' := updates, valid;
    var expected := Expected(r.digest, indexer, r.blockHash, r.stateHash);
    var todo := byHash.Keys;
    ghost var hashes: set<string> := {};
    NoHashes(s, done, indexer);
    while todo != {}
      invariant hashes + todo == byHash.Keys && hashes !! todo
      invariant Resolved(r, s, done + ByHash(s, indexer, hashes), updates', valid')
      decreases |todo|
    {
      var hash :| hash in todo;
      HashStep(s, done, indexer, hashes, hash);
      updates', valid' := ResolveGroup(r, byHash[hash], hash, expected, updates', valid', s, indexer,
                                       done + ByHash(s, indexer, hashes));
      todo := todo - {hash};
      hashes := hashes + {hash};
    }
    AllHashes(s, indexer, hashes);
  }

  lemma NoHashes(s: set<Proof>, done: set<Proof>, indexer: string)
    ensures done + ByHash(s, indexer, {}) == done
  {
  }

  lemma AllHashes(s: set<Proof>, indexer: string, hashes: set<string>)
    requires forall p :: p in s && p.indexer == indexer ==> p.hash in hashes
    ensures ByHash(s, indexer, hashes) == ByIndexer(s, {indexer})
  {
  }

  lemma HashStep(s: set<Proof>, done: set<Proof>, indexer: string, hashes: set<string>, hash: string)
    requires done <= s && done !! ByIndexer(s, {indexer}) && hash !in hashes
    ensures done + ByHash(s, indexer, hashes) <= s
    ensures done + ByHash(s, indexer, hashes) !! Members(s, indexer, hash)
    ensures done + ByHash(s, indexer, hashes) + Members(s, indexer, hash) == done + ByHash(s, indexer, hashes + {hash})
  {
    forall p | p in Members(s, indexer, hash) ensures p !in done && p !in ByHash(s, indexer, hashes) {
      assert p in ByIndexer(s, {indexer});
    }
  }

  lemma IndexerStep(s: set<Proof>, indexers: set<string>, indexer: string)
    requires indexer !in indexers
    ensures ByIndexer(s, indexers) <= s && ByIndexer(s, indexers) !! ByIndexer(s, {indexer})
    ensures ByIndexer(s, indexers) + ByIndexer(s, {indexer}) == ByIndexer(s, indexers + {indexer})
  {
  }

  lemma GroupsOfIndexer(groups: Groups, s: set<Proof>, indexer: string)
    requires Grouped(groups, s) && indexer in groups
    ensures forall h :: h in groups[indexer] ==> Represents(Some(groups[indexer][h]), Members(s, indexer, h))
    ensures forall p :: p in s && p.indexer == indexer ==> p.hash in groups[indexer]
  {
    forall h | h in groups[indexer] ensures Represents(Some(groups[indexer][h]), Members(s, indexer, h)) {
      assert Represents(Lookup(groups, indexer, h), Members(s, indexer, h));
    }
    forall p | p in s && p.indexer == indexer ensures p.hash in groups[indexer] {
      assert p in Members(s, indexer, p.hash) &&
             Represents(Lookup(groups, indexer, p.hash), Members(s, indexer, p.hash));
    }
  }

  lemma EveryIndexerGrouped(groups: Groups, s: set<Proof>)
    requires Grouped(groups, s)
    ensures ByIndexer(s, groups.Keys) == s
  {
    forall p | p in s ensures p.indexer in groups {
      assert p in Members(s, p.indexer, p.hash) &&
             Represents(Lookup(groups, p.indexer, p.hash), Members(s, p.indexer, p.hash));
    }
  }

  lemma NothingResolved(r: Rules, s: set<Proof>)
    ensures ByIndexer(s, {}) == {} && Resolved(r, s, {}, map[], [])
  {
  }

  datatype Resolution = BlockHashEmpty | StateHashEmpty | Resolution(valid: seq<Settled>, updates: map<string, Status>)

  /** Every proof gets exactly its verdict and every valid proof is returned once, whatever the order of the
      query result and of the map iterations. The query returns every row once and transaction ids are the
      table's key. */
  method ResolveStakeProofValidity(r: Rules, proofs: seq<Proof>) returns (result: Resolution)
    requires NoRepeats(proofs) && DistinctTxids(ToSet(proofs))
    ensures result.BlockHashEmpty? <==> Trim(r.blockHash) == ""
    ensures result.StateHashEmpty? <==> Trim(r.blockHash) != "" && Trim(r.stateHash) == ""
    ensures result.Resolution? ==> Resolved(r, ToSet(proofs), ToSet(proofs), result.updates, result.valid)
  {
    hide Resolved, Grouped, ToSet, NoRepeats, DistinctTxids, Trim, Lookup, ByIndexer, Represents, Members;
    if Trim(r.blockHash) == "" {
      return BlockHashEmpty;
    }
    if Trim(r.stateHash) == "" {
      return StateHashEmpty;
    }
    var groups := GroupProofs(proofs);
    ghost var s := ToSet(proofs);
    var updates: map<string, Status>, valid: seq<Settled> := map[], [];
    NothingResolved(r, s);
    var todo := groups.Keys;
    ghost var indexers: set<string> := {};
    while todo != {}
      invariant indexers + todo == groups.Keys && indexers !! todo
      invariant Resolved(r, s, ByIndexer(s, indexers), updates, valid)
      decreases |todo|
    {
      var indexer :| indexer in todo;
      IndexerStep(s, indexers, indexer);
      GroupsOfIndexer(groups, s, indexer);
      updates, valid := ResolveIndexer(r, groups[indexer], indexer, updates, valid, s, ByIndexer(s, indexers));
      todo := todo - {indexer};
      indexers := indexers + {indexer};
    }
    EveryIndexerGrouped(groups, s);
    return Resolution(valid, updates);
  }

  // ---- the percent per indexer ----

  /** What the loop does with one settled proof. */
  function BestOf(c: Config, allowed: set<string>, m: map<string, nat>, v: Settled): map<string, nat> {
    var id := Trim(v.proof.indexer);
    if id == "" || id !in allowed then m
    else if id !in m || SettledPercent(c, v) > m[id] then m[id := SettledPercent(c, v)]
    else m
  }

  lemma CountsForAdd(s: set<Settled>, v: Settled, id: string)
    ensures CountsFor(s + {v}, id) == if Trim(v.proof.indexer) == id then CountsFor(s, id) + {v} else CountsFor(s, id)
  {
    hide Trim;
  }

  lemma BestStep(c: Config, allowed: set<string>, s: set<Settled>, m: map<string, nat>, v: Settled)
    requires BestPercents(c, allowed, s, m)
    ensures BestPercents(c, allowed, s + {v}, BestOf(c, allowed, m, v))
  {
    hide Trim, CountsFor, SettledPercent;
    var n := BestOf(c, allowed, m, v);
    var own := Trim(v.proof.indexer);
    forall id ensures CountsFor(s + {v}, id) == if own == id then CountsFor(s, id) + {v} else CountsFor(s, id) {
      CountsForAdd(s, v, id);
    }
    forall id | id in n ensures exists w :: w in CountsFor(s + {v}, id) && SettledPercent(c, w) == n[id] {
      if id == own && (id !in m || SettledPercent(c, v) > m[id]) {
        assert v in CountsFor(s + {v}, id);
      } else {
        var w :| w in CountsFor(s, id) && SettledPercent(c, w) == m[id];
        assert w in CountsFor(s + {v}, id);
      }
    }
  }

  lemma NoPercents(c: Config, allowed: set<string>)
    ensures BestPercents(c, allowed, ToSet([]), map[])
  {
    hide Trim;
  }

  /** The highest percent per allowed indexer; `allowed` is the allowlist at the reward height. */
  method ResolveStakePercents(c: Config, allowed: set<string>, proofs: seq<Settled>) returns (m: map<string, nat>)
    ensures BestPercents(c, allowed, ToSet(proofs), m)
  {
    hide BestPercents, ToSet, BestOf, SettledPercent, Trim;
    m := map[];
    assert proofs[..0] == [];
    NoPercents(c, allowed);
    for i := 0 to |proofs|
      invariant BestPercents(c, allowed, ToSet(proofs[..i]), m)
    {
      BestStep(c, allowed, ToSet(proofs[..i]), m, proofs[i]);
      ToSetPrefix(proofs, i);
      m := BestOf(c, allowed, m, proofs[i]);
    }
    assert proofs[..|proofs|] == proofs;
  }
}
