/** What the rounds of the main loop rely on: which rows and heights belong together, where node and database
    differ first, and why the cache is right again after a reload. */
module RoundSteps {
  import opened Maps
  import opened Ledger
  import opened Balances
  import opened IndexerState
  import opened TableSteps

  // ---- loading a range of rows ----

  function RangeOf(rows: Rows, low: nat, high: nat): set<Address> {
    set a | a in rows && low < rows[a].height <= high
  }

  function LoadSome(bound: Bindings, rows: Rows, done: set<Address>): Bindings {
    bound + map a | a in rows && a in done :: rows[a].binding
  }

  lemma LoadStart(bound: Bindings, rows: Rows, low: nat, high: nat)
    ensures LoadSome(bound, rows, {}) == bound
    ensures LoadSome(bound, rows, RangeOf(rows, low, high)) == LoadRange(bound, rows, low, high)
    ensures RangeOf(rows, low, high) <= rows.Keys
  {
  }

  lemma LoadStep(bound: Bindings, rows: Rows, done: set<Address>, a: Address)
    requires a in rows
    ensures LoadSome(bound, rows, done + {a}) == LoadSome(bound, rows, done)[a := rows[a].binding]
  {
  }

  // ---- rows and committed heights ----

  /** Every binding was made at a committed height other than 0. */
  predicate RowsCommitted(rows: Rows, committed: set<nat>) {
    forall a :: a in rows ==> rows[a].height > 0 && rows[a].height in committed
  }

  predicate AtMost(committed: set<nat>, top: nat) {
    forall h :: h in committed ==> h <= top
  }

  predicate Above(start: nat, committed: set<nat>) {
    forall h :: h in committed ==> h < start
  }

  /** The block at height 0, whose rows no load would find, binds nothing. */
  predicate NoGenesisBinds(start: nat, blocks: seq<Block>) {
    start == 0 && blocks != [] ==> blocks[0].binds == map[]
  }

  lemma {:induction false} InsertedHeights(rows: Rows, committed: set<nat>, start: nat, blocks: seq<Block>)
    requires RowsCommitted(rows, committed) && Above(start, committed) && NoGenesisBinds(start, blocks)
    ensures RowsCommitted(InsertAll(rows, start, blocks), committed + Heights(start, |blocks|))
    ensures blocks != [] ==> HeightsWithin(InsertAll(rows, start, blocks), start + |blocks| - 1)
    ensures blocks != [] ==> AtMost(committed + Heights(start, |blocks|), start + |blocks| - 1)
    decreases |blocks|
  {
    if blocks != [] {
      var n := |blocks| - 1;
      InsertedHeights(rows, committed, start, blocks[..n]);
      var r := InsertAll(rows, start, blocks);
      forall a | a in r
        ensures r[a].height > 0 && r[a].height in committed + Heights(start, n + 1) && r[a].height <= start + n
      {
        if a in InsertAll(rows, start, blocks[..n]) {
          assert r[a] == InsertAll(rows, start, blocks[..n])[a];
        } else {
          assert a in blocks[n].binds;
        }
      }
    }
  }

  // ---- bindings derived from the stake address ----

  ghost predicate RowsDerived(rows: Rows, derive: Address -> Binding) {
    forall a :: a in rows ==> rows[a].binding == derive(a)
  }

  ghost predicate BlocksDerived(blocks: seq<Block>, derive: Address -> Binding) {
    forall i, a :: 0 <= i < |blocks| && a in blocks[i].binds ==> blocks[i].binds[a] == derive(a)
  }

  lemma DerivedIsConsistent(rows: Rows, blocks: seq<Block>, derive: Address -> Binding)
    requires RowsDerived(rows, derive) && BlocksDerived(blocks, derive)
    ensures ConsistentBinds(blocks)
    ensures forall i, a :: 0 <= i < |blocks| && a in blocks[i].binds && a in rows ==>
                           rows[a].binding == blocks[i].binds[a]
  {
    forall i, j, a | 0 <= i < |blocks| && 0 <= j < |blocks| && a in blocks[i].binds && a in blocks[j].binds
      ensures blocks[i].binds[a] == blocks[j].binds[a]
    {
      assert blocks[i].binds[a] == derive(a);
    }
  }

  lemma {:induction false} DerivedStays(rows: Rows, start: nat, blocks: seq<Block>, derive: Address -> Binding)
    requires RowsDerived(rows, derive) && BlocksDerived(blocks, derive)
    ensures RowsDerived(InsertAll(rows, start, blocks), derive)
    decreases |blocks|
  {
    if blocks != [] {
      assert BlocksDerived(blocks[..|blocks| - 1], derive);
      DerivedStays(rows, start, blocks[..|blocks| - 1], derive);
    }
  }

  // ---- comparing with the node ----

  /** The two sides disagree about a height: one of them has no hash, or the hashes differ. */
  predicate Differs(node: map<nat, string>, db: map<nat, string>, h: nat) {
    h !in node || h !in db || node[h] != db[h]
  }

  function CheckStart(latest: nat, lookback: nat, floorHeight: nat): nat {
    var back := if lookback == 0 then 100 else lookback;
    var start := if latest + 1 > back then latest + 1 - back else 0;
    if start < floorHeight then floorHeight else start
  }

  /** The lowest height from h to latest where the two sides differ. */
  function LowestFrom(h: nat, latest: nat, node: map<nat, string>, db: map<nat, string>): (r: Option<nat>)
    ensures r.Some? ==> h <= r.value <= latest && Differs(node, db, r.value)
    ensures forall x :: h <= x < (if r.Some? then r.value else latest + 1) ==> !Differs(node, db, x)
    decreases latest - h
  {
    if h > latest then None else if Differs(node, db, h) then Some(h) else LowestFrom(h + 1, latest, node, db)
  }

  function LowestDifference(latest: Option<nat>, lookback: nat, floorHeight: nat, node: map<nat, string>, db: map<nat,
                            string>): Option<nat> {
    if latest.None? then None else LowestFrom(CheckStart(latest.value, lookback, floorHeight), latest.value, node, db)
  }

  /** Height h is one of the last `lookback` committed ones (100 when that is 0), and not below the floor. */
  ghost predicate Checked(committed: set<nat>, lookback: nat, floorHeight: nat, h: nat) {
    && floorHeight <= h && (exists x :: x in committed && h <= x)
    && forall x :: x in committed ==> x < h + if lookback == 0 then 100 else lookback
  }

  predicate SameHash(node: map<nat, string>, db: map<nat, string>, h: nat) {
    h in node && h in db && node[h] == db[h]
  }

  /** The lowest checked height where the hashes are not the same on both sides, if there is one. */
  ghost predicate IsFirstDifference(committed: set<nat>, lookback: nat, floorHeight: nat, node: map<nat, string>,
                                    db: map<nat, string>, found: Option<nat>) {
    match found
    case Some(h) =>
      && Checked(committed, lookback, floorHeight, h) && !SameHash(node, db, h)
      && forall x: nat :: x < h && Checked(committed, lookback, floorHeight, x) ==> SameHash(node, db, x)
    case None => forall x: nat :: Checked(committed, lookback, floorHeight, x) ==> SameHash(node, db, x)
  }

  lemma LowestIsFirstDifference(committed: set<nat>, lookback: nat, floorHeight: nat, node: map<nat, string>,
                                db: map<nat, string>)
    ensures IsFirstDifference(committed, lookback, floorHeight, node, db,
                              LowestDifference(Latest(committed), lookback, floorHeight, node, db))
  {
    hide SameHash, Differs;
    forall h ensures Differs(node, db, h) <==> !SameHash(node, db, h) {
      DiffersIff(node, db, h);
    }
    if committed != {} {
      var latest := Latest(committed).value;
      forall h ensures Checked(committed, lookback, floorHeight, h) <==>
                       CheckStart(latest, lookback, floorHeight) <= h <= latest {
        CheckedIff(committed, latest, lookback, floorHeight, h);
      }
    }
  }

  lemma DiffersIff(node: map<nat, string>, db: map<nat, string>, h: nat)
    ensures Differs(node, db, h) <==> !SameHash(node, db, h)
  {
  }

  lemma CheckedIff(committed: set<nat>, latest: nat, lookback: nat, floorHeight: nat, h: nat)
    requires latest in committed && forall x :: x in committed ==> x <= latest
    ensures Checked(committed, lookback, floorHeight, h) <==> CheckStart(latest, lookback, floorHeight) <= h <= latest
  {
    if CheckStart(latest, lookback, floorHeight) <= h <= latest {
      assert latest in committed && h <= latest;
    }
  }

  lemma LowestFromStep(h: nat, latest: nat, node: map<nat, string>, db: map<nat, string>)
    ensures LowestFrom(h, latest, node, db) ==
            if h > latest then None else if Differs(node, db, h) then Some(h) else LowestFrom(h + 1, latest, node, db)
  {
  }

  // ---- progress markers ----

  lemma LatestIs(committed: set<nat>, latest: Option<nat>)
    requires latest.None? <==> committed == {}
    requires latest.Some? ==> latest.value in committed && forall x :: x in committed ==> x <= latest.value
    ensures latest == Latest(committed)
  {
  }

  lemma AgreedMarkersIff(s: State, latest: nat)
    requires latest in s.committed && forall x :: x in s.committed ==> x <= latest
    ensures CursorsAgree(s) <==> s.utxoCursor == Some(latest) && s.balanceCursor == Some(latest)
  {
  }

  /** When the markers agree, nothing within RETENTION of the latest height is refused. */
  lemma NotRefused(s: State, latest: nat, from: nat)
    requires CursorsAgree(s) && latest in s.committed && from + RETENTION >= latest
    requires forall x :: x in s.committed ==> x <= latest
    ensures !RollbackRefused(s, from)
  {
    AgreedMarkersIff(s, latest);
  }

  // ---- the reload after a rollback ----

  function AtLeast(h: nat, startHeight: nat): nat {
    if h < startHeight then startHeight else h
  }

  function Before(next: nat): nat {
    if next > 0 then next - 1 else 0
  }

  ghost function NextHeight(committed: set<nat>, from: Option<nat>, startHeight: nat): nat {
    if from.Some? then AtLeast(from.value, startHeight)
    else AtLeast(if committed == {} then 0 else Latest(committed).value + 1, startHeight)
  }

  /** The next height: where the rollback started, or else the one after the last committed, but not below the start. */
  ghost predicate IsNext(committed: set<nat>, from: Option<nat>, startHeight: nat, next: nat) {
    match from
    case Some(h) => next == if h < startHeight then startHeight else h
    case None =>
      && startHeight <= next && (forall x :: x in committed ==> x < next)
      && (next == startHeight || exists x :: x in committed && next == x + 1)
  }

  lemma NextHeightIsNext(committed: set<nat>, from: Option<nat>, startHeight: nat)
    ensures IsNext(committed, from, startHeight, NextHeight(committed, from, startHeight))
  {
  }

  ghost function RolledBack(s: State, from: Option<nat>): State {
    if from.Some? then RollbackStep(s, from.value) else s
  }

  lemma RoundIsRolledBack(s: State, senders: set<Address>, from: Option<nat>, next: nat, blocks: seq<Block>)
    ensures AfterRound(s, senders, from, next, blocks)
            == if blocks == [] then RolledBack(s, from) else SubmitBatch(RolledBack(s, from), senders, next, blocks)
  {
    hide SubmitBatch, RollbackStep;
  }

  lemma RollbackTruncates(s: State, f: nat)
    requires CursorsAgree(s) && !RollbackRefused(s, f) && exists h :: h in s.committed && h >= f
    ensures RollbackStep(s, f).rows == RowsBelow(s.rows, f) &&
            RollbackStep(s, f).committed == HeightsBelow(s.committed, f)
  {
    hide UndoStoreDown, UndoAccountsDown, RowsBelow, TablesBelow, RowsUpTo, BindsOf, HeightsBelow;
  }

  /** After the optional rollback, loading up to the height before the next one gives exactly the table. */
  lemma ReadyToReload(s: State, bound: Bindings, loaded: nat, from: Option<nat>, startHeight: nat,
                      derive: Address -> Binding)
    requires CursorsAgree(s) && RowsCommitted(s.rows, s.committed) && RowsDerived(s.rows, derive)
    requires (bound == BindsOf(s.rows) && AtMost(s.committed, loaded)) || (loaded == 0 && bound == map[])
    requires from.Some? ==> startHeight <= from.value && !RollbackRefused(s, from.value)
    requires from.Some? ==> exists h :: h in s.committed && h >= from.value
    ensures var s1, next := RolledBack(s, from), NextHeight(s.committed, from, startHeight);
            && HeightsWithin(s1.rows, Before(next)) && Above(next, s1.committed)
            && RowsCommitted(s1.rows, s1.committed) && RowsDerived(s1.rows, derive)
            && Reloadable(bound, s1.rows, loaded, Before(next))
  {
    hide RollbackStep, CursorsAgree;
    if from.Some? {
      RollbackTruncates(s, from.value);
      var h :| h in s.committed && h >= from.value;
      assert h <= loaded || (loaded == 0 && bound == map[]);
      assert from.value == 0 && loaded == 0 ==> s.rows == map[] || bound == map[];
    }
  }

  lemma StepRefused(s: State, f: nat)
    requires RollbackRefused(s, f)
    ensures RollbackStep(s, f) == s
  {
  }

  lemma DifferenceInRange(committed: set<nat>, lookback: nat, startHeight: nat, node: map<nat, string>, db: map<nat,
                          string>)
    ensures var from := LowestDifference(Latest(committed), lookback, startHeight, node, db);
            from.Some? ==> startHeight <= from.value && exists h :: h in committed && h >= from.value
  {
  }

  lemma ReadyAgain(committed: set<nat>, next: nat)
    requires Above(next, committed)
    ensures AtMost(committed, Before(next))
  {
  }

  lemma OfferWithoutGenesis(next: nat, atZero: seq<Block>, blocks: seq<Block>)
    requires NoGenesisBinds(0, atZero) && (next == 0 ==> blocks == atZero)
    ensures NoGenesisBinds(next, blocks)
  {
  }
}
