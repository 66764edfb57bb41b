/** Stake proofs: which proof of each (indexer, hash) group is canonical, and what every proof's verdict is.
    The specification is over the set of proofs, so it knows nothing about their order. */
module Proofs {
  import opened Words
  import opened Text
  import opened Penalty

  datatype Proof = Proof(indexer: string, prove: nat, hash: string, txid: string, height: nat, txIdx: nat)

  predicate Earlier(p: Proof, q: Proof) {
    if p.height != q.height then p.height < q.height
    else if p.txIdx != q.txIdx then p.txIdx < q.txIdx
    else Less(p.txid, q.txid)
  }

  /** The hash a proof of the indexer must carry; `digest` is the hex SHA-256 of a text, in lower case. */
  function Expected(digest: string -> string, indexer: string, blockHash: string, stateHash: string): string {
    digest(Lower(Trim(indexer)) + ":" + Lower(Trim(blockHash)) + ":" + Lower(Trim(stateHash)))
  }

  /** Everything the resolution is relative to. */
  datatype Rules = Rules(config: Config, digest: string -> string, blockHash: string, stateHash: string)

  predicate Matches(r: Rules, p: Proof) {
    EqualFold(p.hash, Expected(r.digest, p.indexer, r.blockHash, r.stateHash))
  }

  function MatchedStatus(r: Rules, p: Proof): Status {
    MatchingStatus(r.config, p.prove, p.height)
  }

  ghost predicate DistinctTxids(s: set<Proof>) {
    forall p, q :: p in s && q in s && p.txid == q.txid ==> p == q
  }

  ghost function Members(s: set<Proof>, indexer: string, hash: string): set<Proof> {
    set p | p in s && p.indexer == indexer && p.hash == hash
  }

  ghost predicate IsEarliest(g: set<Proof>, p: Proof) {
    p in g && forall q :: q in g && q != p ==> Earlier(p, q)
  }

  ghost predicate Canonical(s: set<Proof>, p: Proof) {
    IsEarliest(Members(s, p.indexer, p.hash), p)
  }

  /** The verdict on proof p among the proofs s. */
  ghost function Verdict(r: Rules, s: set<Proof>, p: Proof): Status {
    if !Matches(r, p) then InvalidHash
    else if Canonical(s, p) then MatchedStatus(r, p)
    else InvalidDuplicate
  }

  datatype Settled = Settled(proof: Proof, status: Status)

  ghost function ValidAmong(r: Rules, s: set<Proof>, done: set<Proof>): set<Settled> {
    set p | p in done && Verdict(r, s, p) in {Valid, ValidDelayed} :: Settled(p, Verdict(r, s, p))
  }

  ghost function ValidProofs(r: Rules, s: set<Proof>): set<Settled> {
    ValidAmong(r, s, s)
  }

  // ---- the order on proofs ----

  lemma EarlierTotal(p: Proof, q: Proof)
    ensures p.txid == q.txid || Earlier(p, q) || Earlier(q, p)
  {
    LessTotal(p.txid, q.txid);
  }

  lemma EarlierTransitive(p: Proof, q: Proof, o: Proof)
    requires Earlier(p, q) && Earlier(q, o)
    ensures Earlier(p, o)
  {
    if p.height == q.height == o.height && p.txIdx == q.txIdx == o.txIdx {
      LessTransitive(p.txid, q.txid, o.txid);
    }
  }

  lemma EarlierIrreflexive(p: Proof)
    ensures !Earlier(p, p)
  {
    LessIrreflexive(p.txid);
  }

  lemma EarliestUnique(g: set<Proof>, p: Proof, q: Proof)
    requires IsEarliest(g, p) && IsEarliest(g, q)
    ensures p == q
  {
    if p != q {
      EarlierTransitive(p, q, p);
      EarlierIrreflexive(p);
    }
  }

  lemma {:induction false} EarliestExists(g: set<Proof>) returns (p: Proof)
    requires g != {} && DistinctTxids(g)
    ensures IsEarliest(g, p)
    decreases |g|
  {
    var x :| x in g;
    var rest := g - {x};
    if rest == {} {
      assert g == {x} + rest;
      p := x;
    } else {
      p := EarliestExists(rest);
      EarlierTotal(p, x);
      if Earlier(x, p) {
        forall q | q in rest && q != p ensures Earlier(x, q) { EarlierTransitive(x, p, q); }
        p := x;
      }
    }
  }

  /** p was mined before q: in an earlier block, or earlier in the block, or with the lesser id. */
  predicate MinedBefore(p: Proof, q: Proof) {
    || p.height < q.height
    || (p.height == q.height && p.txIdx < q.txIdx)
    || (p.height == q.height && p.txIdx == q.txIdx && Less(p.txid, q.txid))
  }

  /** Among the proofs of one indexer and one spelled hash, the one mined first is canonical, and only that one. */
  lemma CanonicalIsFirstMined(s: set<Proof>, p: Proof)
    requires p in s
    ensures Canonical(s, p) <==>
            forall q :: q in s && q.indexer == p.indexer && q.hash == p.hash && q != p ==> MinedBefore(p, q)
  {
    forall q | q in s && q.indexer == p.indexer && q.hash == p.hash ensures Earlier(p, q) <==> MinedBefore(p, q) {
    }
    if forall q :: q in s && q.indexer == p.indexer && q.hash == p.hash && q != p ==> MinedBefore(p, q) {
      forall q | q in Members(s, p.indexer, p.hash) && q != p ensures Earlier(p, q) {
        assert MinedBefore(p, q);
      }
    } else {
      var q :| q in s && q.indexer == p.indexer && q.hash == p.hash && q != p && !MinedBefore(p, q);
      assert q in Members(s, p.indexer, p.hash);
    }
  }

  /** A valid proof was mined before every other one of its indexer with that hash. */
  lemma ValidIsFirstMined(r: Rules, s: set<Proof>, v: Settled, p: Proof)
    requires v in ValidProofs(r, s) && p in s && p.indexer == v.proof.indexer && p.hash == v.proof.hash && p != v.proof
    ensures MinedBefore(v.proof, p) && Verdict(r, s, p) == InvalidDuplicate
  {
    hide MatchedStatus, MatchingStatus, Expected;
    ValidIsCanonicalAlive(r, s, v);
    CanonicalIsFirstMined(s, v.proof);
    if Canonical(s, p) {
      CanonicalUnique(s, v.proof, p);
    }
  }

  /** A proof matches when its hash is, but for case, the digest of indexer, block hash and state hash. */
  lemma MatchesIff(r: Rules, p: Proof)
    requires Trim(p.indexer) == p.indexer && Trim(r.blockHash) == r.blockHash && Trim(r.stateHash) == r.stateHash
    requires IsLower(p.indexer) && IsLower(r.blockHash) && IsLower(r.stateHash)
    ensures Matches(r, p) <==> EqualFold(p.hash, r.digest(p.indexer + ":" + r.blockHash + ":" + r.stateHash))
  {
  }

  /** Case and surrounding blanks of the three parts do not matter. */
  lemma MatchesNormalised(r: Rules, p: Proof)
    ensures var r' := r.(blockHash := Lower(Trim(r.blockHash)), stateHash := Lower(Trim(r.stateHash)));
            Matches(r, p) <==> Matches(r', p.(indexer := Lower(Trim(p.indexer))))
  {
    hide Trim, Lower;
    NormalTwice(p.indexer);
    NormalTwice(r.blockHash);
    NormalTwice(r.stateHash);
  }

  // ---- what the verdicts mean ----

  /** Proofs for height `prove` that were mined in the window after it; the sum is a uint32. */
  function Selected(rows: set<Proof>, prove: nat, window: nat): set<Proof> {
    set p | p in rows && p.prove == prove && prove < p.height <= (prove + window) % UINT32
  }

  /** The proofs of a height mined in the blocks after it up to the end of the window; none at all when that end is
      beyond 32 bits. */
  lemma SelectedIff(rows: set<Proof>, prove: nat, window: nat, p: Proof)
    requires prove < 0x1_0000_0000 && window < 0x1_0000_0000
    ensures p in Selected(rows, prove, window) <==>
            p in rows && p.prove == prove && prove < p.height <= prove + window && prove + window < 0x1_0000_0000
  {
  }

  /** s is a set of proofs that the window query of a settlement at `prove` can return. */
  ghost predicate ForHeight(r: Rules, s: set<Proof>, prove: nat) {
    Loaded(r.config) && DistinctTxids(s) && s == Selected(s, prove, Window(r.config, prove))
  }

  /** What the query returns is such a set, whatever the table holds. */
  lemma SelectedForHeight(r: Rules, rows: set<Proof>, prove: nat)
    requires Loaded(r.config) && DistinctTxids(rows)
    ensures ForHeight(r, Selected(rows, prove, Window(r.config, prove)), prove)
  {
    hide Window;
  }

  lemma InWindow(r: Rules, s: set<Proof>, prove: nat, p: Proof)
    requires ForHeight(r, s, prove) && p in s
    ensures p.prove == prove && prove < p.height <= prove + Window(r.config, prove)
  {
    hide Window;
    assert p in Selected(s, prove, Window(r.config, prove));
  }

  /** A matching proof that is not expired on its own. */
  predicate Alive(r: Rules, p: Proof) {
    Matches(r, p) && MatchedStatus(r, p) != Expired
  }

  function EarnedPercent(r: Rules, p: Proof): nat {
    StakePercent(r.config, p.prove, p.height, MatchedStatus(r, p))
  }

  /** No settlement finds an expired proof: what matches is alive. */
  lemma NoneExpired(r: Rules, s: set<Proof>, prove: nat, p: Proof)
    requires ForHeight(r, s, prove) && p in s
    ensures Verdict(r, s, p) != Expired && (Matches(r, p) <==> Alive(r, p)) && EarnedPercent(r, p) > 0
  {
    hide Matches, Canonical, MatchingStatus, Window, DelayedPercent;
    InWindow(r, s, prove, p);
    WindowHoldsNoExpired(r.config, prove, p.height);
  }

  /** The canonical proof of p's group is no later than p and earns no less. */
  lemma CanonicalIsBest(r: Rules, s: set<Proof>, prove: nat, p: Proof) returns (c: Proof)
    requires ForHeight(r, s, prove) && p in s && Matches(r, p)
    ensures c in s && c.indexer == p.indexer && c.hash == p.hash && (c == p || Earlier(c, p))
    ensures Canonical(s, c) && Alive(r, c)
    ensures EarnedPercent(r, c) >= EarnedPercent(r, p)
  {
    hide MatchingStatus, StakePercent, Window, Selected;
    var g := Members(s, p.indexer, p.hash);
    assert p in g;
    c := EarliestExists(g);
    InWindow(r, s, prove, c);
    InWindow(r, s, prove, p);
    WindowHoldsNoExpired(r.config, prove, c.height);
    WindowHoldsNoExpired(r.config, prove, p.height);
    WindowKeepsNoMore(r.config, prove, c.height, p.height);
  }

  lemma ValidIsCanonicalAlive(r: Rules, s: set<Proof>, v: Settled)
    ensures v in ValidProofs(r, s)
            <==> && v.proof in s && Canonical(s, v.proof) && Alive(r, v.proof)
                 && v.status == MatchedStatus(r, v.proof)
  {
    StatusIsMatching(r.config, v.proof.prove, v.proof.height);
  }

  /** No discarded duplicate would have earned a higher stake percent than the proof that is kept. */
  lemma DuplicatesEarnNoMore(r: Rules, s: set<Proof>, prove: nat, d: Proof)
    requires ForHeight(r, s, prove) && d in s && Verdict(r, s, d) == InvalidDuplicate
    ensures exists v :: v in ValidProofs(r, s) && v.proof.indexer == d.indexer && v.proof.hash == d.hash
                        && Earlier(v.proof, d) && EarnedPercent(r, v.proof) >= EarnedPercent(r, d)
  {
    hide Matches, MatchedStatus, EarnedPercent;
    StatusIsMatching(r.config, d.prove, d.height);
    assert Matches(r, d) && !Canonical(s, d) by { VerdictOfDuplicate(r, s, d); }
    var c := CanonicalIsBest(r, s, prove, d);
    ValidIsCanonicalAlive(r, s, Settled(c, MatchedStatus(r, c)));
    assert Settled(c, MatchedStatus(r, c)) in ValidProofs(r, s);
  }

  lemma VerdictOfDuplicate(r: Rules, s: set<Proof>, d: Proof)
    requires Verdict(r, s, d) == InvalidDuplicate
    ensures Matches(r, d) && !Canonical(s, d)
  {
    StatusIsMatching(r.config, d.prove, d.height);
  }

  /** The valid proof kept for p's group earns at least what p would. */
  ghost predicate NothingLost(r: Rules, s: set<Proof>, p: Proof) {
    exists v :: v in ValidProofs(r, s) && v.proof.indexer == p.indexer && v.proof.hash == p.hash
                && EarnedPercent(r, v.proof) >= EarnedPercent(r, p)
  }

  /** Keeping the earliest proof of each group never costs anything, whatever the table holds. */
  lemma EarliestCostsNothing(r: Rules, rows: set<Proof>, prove: nat, p: Proof)
    requires Loaded(r.config) && DistinctTxids(rows)
    requires p in Selected(rows, prove, Window(r.config, prove)) && Matches(r, p)
    ensures NothingLost(r, Selected(rows, prove, Window(r.config, prove)), p)
  {
    hide Matches, MatchedStatus, EarnedPercent, ValidProofs, Canonical, Selected, Window;
    var s := Selected(rows, prove, Window(r.config, prove));
    SelectedForHeight(r, rows, prove);
    var c := CanonicalIsBest(r, s, prove, p);
    ValidIsCanonicalAlive(r, s, Settled(c, MatchedStatus(r, c)));
  }

  ghost predicate IsValidOf(r: Rules, s: set<Proof>, indexer: string, v: Settled) {
    v in ValidProofs(r, s) && v.proof.indexer == indexer
  }

  predicate IsMatchOf(r: Rules, s: set<Proof>, indexer: string, p: Proof) {
    p in s && Matches(r, p) && p.indexer == indexer
  }

  /** An indexer has at most one valid proof exactly when its matching proofs all spell the hash the same way. */
  lemma OneValidProofIff(r: Rules, s: set<Proof>, prove: nat, indexer: string)
    requires ForHeight(r, s, prove)
    ensures (forall v, w :: IsValidOf(r, s, indexer, v) && IsValidOf(r, s, indexer, w) ==> v == w)
            <==> (forall p, q :: IsMatchOf(r, s, indexer, p) && IsMatchOf(r, s, indexer, q) ==> p.hash == q.hash)
  {
    hide Matches, MatchedStatus, EarnedPercent, ValidProofs, Canonical;
    if forall p, q :: IsMatchOf(r, s, indexer, p) && IsMatchOf(r, s, indexer, q) ==> p.hash == q.hash {
      OneSpellingOneValid(r, s, indexer);
    } else {
      var p, q :| IsMatchOf(r, s, indexer, p) && IsMatchOf(r, s, indexer, q) && p.hash != q.hash;
      var c := CanonicalIsBest(r, s, prove, p);
      var d := CanonicalIsBest(r, s, prove, q);
      ValidIsCanonicalAlive(r, s, Settled(c, MatchedStatus(r, c)));
      ValidIsCanonicalAlive(r, s, Settled(d, MatchedStatus(r, d)));
      assert IsValidOf(r, s, indexer, Settled(c, MatchedStatus(r, c)));
      assert IsValidOf(r, s, indexer, Settled(d, MatchedStatus(r, d)));
    }
  }

  lemma OneSpellingOneValid(r: Rules, s: set<Proof>, indexer: string)
    requires forall p, q :: IsMatchOf(r, s, indexer, p) && IsMatchOf(r, s, indexer, q) ==> p.hash == q.hash
    ensures forall v, w :: IsValidOf(r, s, indexer, v) && IsValidOf(r, s, indexer, w) ==> v == w
  {
    hide Matches, MatchedStatus, ValidProofs, Canonical;
    forall v, w | IsValidOf(r, s, indexer, v) && IsValidOf(r, s, indexer, w) ensures v == w {
      ValidIsCanonicalAlive(r, s, v);
      ValidIsCanonicalAlive(r, s, w);
      assert IsMatchOf(r, s, indexer, v.proof) && IsMatchOf(r, s, indexer, w.proof);
      CanonicalUnique(s, v.proof, w.proof);
    }
  }

  lemma CanonicalUnique(s: set<Proof>, p: Proof, q: Proof)
    requires Canonical(s, p) && Canonical(s, q) && p.indexer == q.indexer && p.hash == q.hash
    ensures p == q
  {
    EarliestUnique(Members(s, p.indexer, p.hash), p, q);
  }

  /** With lower-case hashes, as honest submitters write them, there is at most one valid proof for an
      indexer, and it is the earliest of its matching proofs. */
  lemma LowerCaseGivesOneValid(r: Rules, s: set<Proof>, indexer: string)
    requires forall p :: p in s ==> IsLower(p.hash)
    ensures forall v, w :: IsValidOf(r, s, indexer, v) && IsValidOf(r, s, indexer, w) ==> v == w
    ensures forall v, p :: IsValidOf(r, s, indexer, v) && p in s && p.indexer == indexer && Matches(r, p) ==>
                             p == v.proof || Earlier(v.proof, p)
  {
    hide MatchedStatus, ValidProofs;
    OneSpellingOneValid(r, s, indexer);
    forall v, p | IsValidOf(r, s, indexer, v) && p in s && p.indexer == indexer && Matches(r, p)
      ensures p == v.proof || Earlier(v.proof, p)
    {
      ValidIsCanonicalAlive(r, s, v);
      assert p.hash == v.proof.hash;
      assert p in Members(s, v.proof.indexer, v.proof.hash);
    }
  }

  /** Two spellings of one hash make two valid proofs for the same indexer. */
  lemma TwoSpellingsTwoValid(r: Rules, p: Proof, q: Proof)
    requires p.indexer == q.indexer && p.txid != q.txid && Alive(r, p) && Alive(r, q) && p.hash != q.hash
    ensures Settled(p, MatchedStatus(r, p)) in ValidProofs(r, {p, q}) &&
            Settled(q, MatchedStatus(r, q)) in ValidProofs(r, {p, q})
  {
    hide MatchedStatus;
    assert Members({p, q}, p.indexer, p.hash) == {p} && Members({p, q}, q.indexer, q.hash) == {q};
    ValidIsCanonicalAlive(r, {p, q}, Settled(p, MatchedStatus(r, p)));
    ValidIsCanonicalAlive(r, {p, q}, Settled(q, MatchedStatus(r, q)));
  }

  // ---- the percent an indexer is rewarded with ----

  /** The proofs that count for the (trimmed) indexer id. */
  ghost function CountsFor(proofs: set<Settled>, id: string): set<Settled> {
    set v | v in proofs && Trim(v.proof.indexer) == id
  }

  function SettledPercent(c: Config, v: Settled): nat {
    StakePercent(c, v.proof.prove, v.proof.height, v.status)
  }

  /** m gives each allowed, non-blank indexer the highest percent among its settled proofs. */
  ghost predicate BestPercents(c: Config, allowed: set<string>, proofs: set<Settled>, m: map<string, nat>) {
    && (forall id :: id in m <==> id != "" && id in allowed && CountsFor(proofs, id) != {})
    && (forall id :: id in m ==> exists v :: v in CountsFor(proofs, id) && SettledPercent(c, v) == m[id])
    && (forall id, v :: id in m && v in CountsFor(proofs, id) ==> SettledPercent(c, v) <= m[id])
  }

  /** The matching proofs of an indexer, canonical or not. */
  ghost function MatchingFor(r: Rules, s: set<Proof>, id: string): set<Proof> {
    set p | p in s && Matches(r, p) && Trim(p.indexer) == id
  }

  /** Resolution followed by taking the maximum gives every allowed indexer exactly the best percent any of
      its matching proofs would earn: discarding duplicates costs nobody anything. */
  lemma SettledPercentIsBestEarned(r: Rules, s: set<Proof>, prove: nat, allowed: set<string>, m: map<string, nat>)
    requires ForHeight(r, s, prove) && BestPercents(r.config, allowed, ValidProofs(r, s), m)
    ensures forall id :: id in m <==> id != "" && id in allowed && MatchingFor(r, s, id) != {}
    ensures forall id :: id in m ==> exists p :: p in MatchingFor(r, s, id) && EarnedPercent(r, p) == m[id]
    ensures forall id, p :: id in m && p in MatchingFor(r, s, id) ==> EarnedPercent(r, p) <= m[id]
  {
    hide Alive, ValidProofs, EarnedPercent, SettledPercent;
    forall id ensures CountsFor(ValidProofs(r, s), id) != {} <==> MatchingFor(r, s, id) != {} {
      if p :| p in MatchingFor(r, s, id) {
        var v := CountedFor(r, s, prove, id, p);
      }
      if v :| v in CountsFor(ValidProofs(r, s), id) {
        CountedMatches(r, s, id, v);
      }
    }
    forall id | id in m ensures exists p :: p in MatchingFor(r, s, id) && EarnedPercent(r, p) == m[id] {
      var v :| v in CountsFor(ValidProofs(r, s), id) && SettledPercent(r.config, v) == m[id];
      CountedMatches(r, s, id, v);
    }
    forall id, p | id in m && p in MatchingFor(r, s, id) ensures EarnedPercent(r, p) <= m[id] {
      var v := CountedFor(r, s, prove, id, p);
    }
  }

  lemma CountedMatches(r: Rules, s: set<Proof>, id: string, v: Settled)
    requires v in CountsFor(ValidProofs(r, s), id)
    ensures v.proof in MatchingFor(r, s, id) && SettledPercent(r.config, v) == EarnedPercent(r, v.proof)
  {
    hide Alive;
    ValidIsCanonicalAlive(r, s, v);
  }

  lemma CountedFor(r: Rules, s: set<Proof>, prove: nat, id: string, p: Proof) returns (v: Settled)
    requires ForHeight(r, s, prove) && p in MatchingFor(r, s, id)
    ensures v in CountsFor(ValidProofs(r, s), id) && SettledPercent(r.config, v) >= EarnedPercent(r, p)
  {
    hide Alive;
    var c := CanonicalIsBest(r, s, prove, p);
    v := Settled(c, MatchedStatus(r, c));
    ValidIsCanonicalAlive(r, s, v);
  }
}
