/** The lagged reward consumer's in-memory stake map: rebuilt from snapshot balances, kept current by the
    per-block balance deltas, and equal to the snapshot balances after every block. */
module SlowStake {
  import opened Maps
  import opened Ledger
  import opened BatchRefinement
  import opened Balances
  import opened AccountSteps
  import opened Runs

  /** A row of the bindings table, which is keyed by stake address. */
  datatype BindingRow = BindingRow(height: nat, binding: Binding)

  type Stakes = map<IndexerId, map<Address, nat>>

  function StakeOf(stakes: Stakes, b: Binding): nat {
    if b.indexer in stakes && b.user in stakes[b.indexer] then stakes[b.indexer][b.user] else 0
  }

  function SetStake(stakes: Stakes, b: Binding, v: nat): (r: Stakes)
    ensures forall c :: StakeOf(r, c) == if c == b then v else StakeOf(stakes, c)
  {
    var users := if b.indexer in stakes then stakes[b.indexer] else map[];
    stakes[b.indexer := users[b.user := v]]
  }

  function DropStake(stakes: Stakes, b: Binding): (r: Stakes)
    ensures forall c :: StakeOf(r, c) == if c == b then 0 else StakeOf(stakes, c)
  {
    var users := if b.indexer in stakes then stakes[b.indexer] else map[];
    stakes[b.indexer := users - {b.user}]
  }

  /** A balance as the loader reads it: missing and negative texts parse to zero. */
  function AsStake(v: int): nat {
    if v < 0 then 0 else v
  }

  function Range(rows: map<Address, BindingRow>, low: nat, high: nat): set<Address> {
    set a | a in rows && low < rows[a].height <= high
  }

  /** All bindings up to a height. */
  function BoundUpTo(rows: map<Address, BindingRow>, height: nat): map<Address, Binding> {
    map a | a in rows && 0 < rows[a].height <= height :: rows[a].binding
  }

  /** One stake address per (indexer, user). */
  ghost predicate OneAddressEach(rows: map<Address, BindingRow>) {
    forall a, b :: a in rows && b in rows && rows[a].binding == rows[b].binding ==> a == b
  }

  ghost predicate Distinct(info: map<Address, Binding>) {
    forall a, b :: a in info && b in info && info[a] == info[b] ==> a == b
  }

  /** The map shows, for every bound stake address, its snapshot balance, and nothing for anyone else. */
  ghost predicate ShowsBalances(stakes: Stakes, info: map<Address, Binding>, snapshot: map<Address, int>) {
    && (forall a :: a in info ==> StakeOf(stakes, info[a]) == AsStake(Get(snapshot, a)))
    && (forall b :: (forall a :: a in info ==> info[a] != b) ==> StakeOf(stakes, b) == 0)
  }

  /** Addresses that share an (indexer, user) have the same balance. */
  ghost predicate SharersAgree(info: map<Address, Binding>, snapshot: map<Address, int>) {
    forall a, b :: a in info && b in info && info[a] == info[b] ==>
                   AsStake(Get(snapshot, a)) == AsStake(Get(snapshot, b))
  }

  /** What a stake map shows is determined by the bindings and the snapshot: a rebuilt map can differ from
      a maintained one only in explicit zero entries. */
  lemma ShownStakesUnique(s: Stakes, t: Stakes, info: map<Address, Binding>, snapshot: map<Address, int>, b: Binding)
    requires ShowsBalances(s, info, snapshot) && ShowsBalances(t, info, snapshot)
    ensures StakeOf(s, b) == StakeOf(t, b)
  {
    if a :| a in info && info[a] == b {
      assert StakeOf(s, info[a]) == StakeOf(t, info[a]);
    }
  }

  // ---- loading bindings ----

  function Loaded(info: map<Address, Binding>, rows: map<Address, BindingRow>, done: set<Address>): map<Address,
    Binding>
    requires done <= rows.Keys
  {
    map a | a in info.Keys + done :: if a in done then rows[a].binding else info[a]
  }

  lemma LoadedNone(info: map<Address, Binding>, rows: map<Address, BindingRow>)
    ensures Loaded(info, rows, {}) == info
  {
  }

  lemma LoadedStep(info: map<Address, Binding>, rows: map<Address, BindingRow>, done: set<Address>, a: Address)
    requires done <= rows.Keys && a in rows
    ensures Loaded(info, rows, done + {a}) == Loaded(info, rows, done)[a := rows[a].binding]
  {
  }

  lemma LoadedIsBound(rows: map<Address, BindingRow>, low: nat, high: nat)
    requires low <= high
    ensures Range(rows, low, high) <= rows.Keys
    ensures Loaded(BoundUpTo(rows, low), rows, Range(rows, low, high)) == BoundUpTo(rows, high)
    ensures forall a :: a in Range(rows, low, high) ==> a !in BoundUpTo(rows, low) && a in BoundUpTo(rows, high)
    ensures forall a :: a in BoundUpTo(rows, low) ==>
                        a in BoundUpTo(rows, high) && BoundUpTo(rows, high)[a] == BoundUpTo(rows, low)[a]
  {
  }

  lemma BoundDistinct(rows: map<Address, BindingRow>, height: nat)
    requires OneAddressEach(rows)
    ensures Distinct(BoundUpTo(rows, height))
  {
  }

  /** The stake map after the balances of the addresses `done` were read, in any order: whoever is touched shows
      the balance of one of its addresses, everyone else what was there before. */
  ghost predicate BalancesRead(before: Stakes, after: Stakes, info: map<Address, Binding>, snapshot: map<Address,
                               int>, done: set<Address>) {
    forall b :: ReadFor(before, after, info, snapshot, done, b)
  }

  ghost predicate ReadFor(before: Stakes, after: Stakes, info: map<Address, Binding>, snapshot: map<Address, int>,
                          done: set<Address>, b: Binding) {
    || (exists a :: a in done && a in info && info[a] == b && StakeOf(after, b) == AsStake(Get(snapshot, a)))
    || ((forall a :: a in done && a in info ==> info[a] != b) && StakeOf(after, b) == StakeOf(before, b))
  }

  lemma ReadStep(before: Stakes, stakes: Stakes, info: map<Address, Binding>, snapshot: map<Address, int>,
                 done: set<Address>, a: Address)
    requires BalancesRead(before, stakes, info, snapshot, done) && a in info
    ensures BalancesRead(before, SetStake(stakes, info[a], AsStake(Get(snapshot, a))), info, snapshot, done + {a})
  {
    hide StakeOf, AsStake, Get;
    var r := SetStake(stakes, info[a], AsStake(Get(snapshot, a)));
    forall b ensures ReadFor(before, r, info, snapshot, done + {a}, b) {
      assert ReadFor(before, stakes, info, snapshot, done, b);
      if b == info[a] {
        assert a in done + {a};
      } else if x :| x in done && x in info && info[x] == b && StakeOf(stakes, b) == AsStake(Get(snapshot, x)) {
        assert x in done + {a};
      }
    }
  }

  /** Loading shows every balance, also of the newly bound addresses, if and only if addresses that share an
      (indexer, user) have the same balance. */
  lemma LoadShowsIff(before: Stakes, after: Stakes, known: map<Address, Binding>, info: map<Address, Binding>,
                     snapshot: map<Address, int>, items: set<Address>)
    requires ShowsBalances(before, known, snapshot) && BalancesRead(before, after, info, snapshot, items)
    requires info.Keys == known.Keys + items && forall a :: a in known ==> info[a] == known[a]
    ensures ShowsBalances(after, info, snapshot) <==> SharersAgree(info, snapshot)
  {
    hide StakeOf, AsStake, Get;
    if SharersAgree(info, snapshot) {
      forall a | a in info ensures StakeOf(after, info[a]) == AsStake(Get(snapshot, a)) {
        assert ReadFor(before, after, info, snapshot, items, info[a]);
      }
      forall b | forall a :: a in info ==> info[a] != b ensures StakeOf(after, b) == 0 {
        assert ReadFor(before, after, info, snapshot, items, b);
      }
    }
  }

  /** The case the table allows: two stake addresses, of different address types, for one (indexer, user). From
      scratch, the loader shows one of the two balances, whichever it reads last, and loses the other. */
  lemma SharedBindingLosesOne(after: Stakes, p: Address, q: Address, b: Binding, x: nat, y: nat)
    requires p != q && x != y && BalancesRead(map[], after, map[p := b, q := b], map[p := x, q := y], {p, q})
    ensures StakeOf(after, b) == x || StakeOf(after, b) == y
    ensures !ShowsBalances(after, map[p := b, q := b], map[p := x, q := y])
  {
    var info, snapshot := map[p := b, q := b], map[p := x, q := y];
    assert ReadFor(map[], after, info, snapshot, {p, q}, b);
    assert p in info && q in info;
  }

  // ---- applying a block's deltas ----

  /** Decrement with a floor of zero. */
  function Clamped(current: nat, delta: int): nat {
    if current + delta < 0 then 0 else current + delta
  }

  ghost predicate DeltasApplied(before: Stakes, after: Stakes, info: map<Address, Binding>, d: map<Address, int>,
                                done: set<Address>) {
    && (forall a :: a in info ==>
          StakeOf(after, info[a]) ==
            if a in done then Clamped(StakeOf(before, info[a]), Get(d, a)) else StakeOf(before, info[a]))
    && (forall b :: (forall a :: a in info ==> info[a] != b) ==> StakeOf(after, b) == StakeOf(before, b))
  }

  function AddDelta(stakes: Stakes, info: map<Address, Binding>, a: Address, delta: int): Stakes {
    if delta == 0 || a !in info then stakes
    else
      var current := Clamped(StakeOf(stakes, info[a]), delta);
      if current == 0 then DropStake(stakes, info[a]) else SetStake(stakes, info[a], current)
  }

  lemma OwnDeltaStep(before: Stakes, stakes: Stakes, info: map<Address, Binding>, d: map<Address, int>,
                     done: set<Address>, a: Address)
    requires DeltasApplied(before, stakes, info, d, done) && Distinct(info) && a in d && a !in done
    ensures DeltasApplied(before, AddDelta(stakes, info, a, d[a]), info, d, done + {a})
  {
    hide StakeOf;
  }

  // -- several addresses for one (indexer, user) --

  /** The negative deltas. */
  function Debits(d: map<Address, int>): map<Address, int> {
    map a | a in d && d[a] < 0 :: d[a]
  }

  /** Everyone moves by the deltas of all its addresses together, or ends higher where the floor of zero cut in;
      it cannot cut in when the debits alone do not exceed what was there. */
  ghost predicate MovesBySum(before: Stakes, after: Stakes, info: map<Address, Binding>, d: map<Address, int>) {
    forall b :: MovesFor(before, after, info, d, b)
  }

  ghost predicate MovesFor(before: Stakes, after: Stakes, info: map<Address, Binding>, d: map<Address, int>,
                           b: Binding) {
    var sum, debits := GroupSum(d, info, b), GroupSum(Debits(d), info, b);
    && debits <= sum && StakeOf(after, b) >= StakeOf(before, b) + sum
    && (StakeOf(before, b) + debits >= 0 ==> StakeOf(after, b) == StakeOf(before, b) + sum)
  }

  lemma MovesStep(before: Stakes, stakes: Stakes, info: map<Address, Binding>, d: map<Address, int>, a: Address, v: int)
    requires MovesBySum(before, stakes, info, d) && a !in d
    ensures MovesBySum(before, AddDelta(stakes, info, a, v), info, d[a := v])
  {
    hide StakeOf, GroupSum;
    var r, d' := AddDelta(stakes, info, a, v), d[a := v];
    forall b ensures MovesFor(before, r, info, d', b) {
      assert MovesFor(before, stakes, info, d, b);
      GroupSumInsert(d, info, b, a, v);
      if v < 0 {
        GroupSumInsert(Debits(d), info, b, a, v);
        assert Debits(d') == Debits(d)[a := v];
      } else {
        assert Debits(d') == Debits(d);
      }
    }
  }

  lemma MovesStart(stakes: Stakes, info: map<Address, Binding>)
    ensures MovesBySum(stakes, stakes, info, map[])
  {
    forall b ensures MovesFor(stakes, stakes, info, map[], b) {
      var none: map<Address, int> := map[];
      assert Debits(none) == none && Members(none, info, b) == none;
    }
  }

  /** No bound address with a negative snapshot balance is credited; see SnapshotStep for why a chain's deltas
      always meet this. */
  ghost predicate ClampHarmless(info: map<Address, Binding>, snapshot: map<Address, int>, d: map<Address, int>) {
    forall a :: a in info ==> Get(snapshot, a) >= 0 || Get(d, a) <= 0
  }

  /** The map keeps following the snapshot exactly when no negative balance is credited: below zero the
      memory has forgotten the debt, the snapshot has not. */
  lemma DeltasKeepShowingIff(before: Stakes, after: Stakes, info: map<Address, Binding>, snapshot: map<Address, int>,
                             d: map<Address, int>)
    requires ShowsBalances(before, info, snapshot) && DeltasApplied(before, after, info, d, d.Keys)
    ensures ShowsBalances(after, info, AddDeltas(snapshot, d)) <==> ClampHarmless(info, snapshot, d)
  {
    hide StakeOf, AddDeltas;
    AddDeltasGet(snapshot, d);
    forall a | a in info
      ensures StakeOf(after, info[a]) == AsStake(Get(AddDeltas(snapshot, d), a))
              <==> Get(snapshot, a) >= 0 || Get(d, a) <= 0
    {
      assert Get(AddDeltas(snapshot, d), a) == Get(snapshot, a) + Get(d, a);
      assert a !in d.Keys ==> Get(d, a) == 0;
      assert StakeOf(before, info[a]) == AsStake(Get(snapshot, a));
    }
  }

  // ---- the snapshot along a chain ----

  /** The balance deltas of a block take the value held before it to the value held after it, and never credit a
      negative balance. */
  lemma SnapshotStep(c: seq<Block>, senders: set<Address>, k: nat, snapshot: map<Address, int>, info: map<Address,
                     Binding>)
    requires k < |c| && BalancesMatch(StoreAt(c[..k], senders), snapshot)
    ensures var d := Artifacts(c, senders)[k].deltas;
            ClampHarmless(info, snapshot, d) && BalancesMatch(StoreAt(c[..k + 1], senders), AddDeltas(snapshot, d))
  {
    hide StoreAt, Artifacts, AddrSum, AddDeltas;
    var d := Artifacts(c, senders)[k].deltas;
    forall a ensures Get(d, a) == AddrSum(StoreAt(c[..k + 1], senders), a) - AddrSum(StoreAt(c[..k], senders), a) {
      DeltaRowMeasures(c, senders, k, a);
    }
    AddDeltasGet(snapshot, d);
    forall a ensures Get(snapshot, a) >= 0 {
      AddrSumNonNegative(StoreAt(c[..k], senders), a);
    }
  }

  /** The snapshot after the first k blocks of a chain. */
  ghost function SnapshotAt(c: seq<Block>, senders: set<Address>, k: nat): map<Address, int>
    requires k <= |c|
  {
    if k == 0 then map[] else AddDeltas(SnapshotAt(c, senders, k - 1), Artifacts(c, senders)[k - 1].deltas)
  }

  /** Along every chain the snapshot is, at every height, the value held by each address, without zero entries. */
  lemma {:induction false} EverySnapshotIsValueHeld(c: seq<Block>, senders: set<Address>, k: nat)
    requires k <= |c|
    ensures BalancesMatch(StoreAt(c[..k], senders), SnapshotAt(c, senders, k))
  {
    hide BalancesMatch, StoreAt, Artifacts, AddDeltas;
    if k == 0 {
      NothingHeld(senders);
      assert c[..0] == [];
    } else {
      EverySnapshotIsValueHeld(c, senders, k - 1);
      SnapshotStep(c, senders, k - 1, SnapshotAt(c, senders, k - 1), map[]);
    }
  }

  lemma NothingHeld(senders: set<Address>)
    ensures BalancesMatch(StoreAt([], senders), map[])
  {
    forall a ensures AddrSum(map[], a) == 0 {
      AddrSumNonNegative(map[], a);
    }
  }

  // ---- the consumer ----

  class Consumer {
    // the manager's memory
    var loadedHeight: nat
    var info: map<Address, Binding>
    var stakes: Stakes
    // Redis
    var snapshot: map<Address, int>
    var cursor: Option<nat>
    // the tables it reads
    const rows: map<Address, BindingRow>
    const deltas: map<nat, map<Address, int>>

    constructor (rows: map<Address, BindingRow>, deltas: map<nat, map<Address, int>>)
      ensures Valid() && Shows() && this.rows == rows && this.deltas == deltas
      ensures snapshot == map[] && cursor == None && loadedHeight == 0
    {
      loadedHeight, info, stakes := 0, map[], map[];
      snapshot, cursor := map[], None;
      this.rows, this.deltas := rows, deltas;
    }

    /** The cached bindings are those of the table up to the loaded height. */
    ghost predicate Valid()
      reads this
    {
      info == BoundUpTo(rows, loadedHeight)
    }

    /** The stake per (indexer, user) equals the snapshot balance of its stake address. */
    ghost predicate Shows()
      reads this
    {
      ShowsBalances(stakes, info, snapshot)
    }

    function DeltasAt(height: nat): map<Address, int> {
      if height in deltas then deltas[height] else map[]
    }

    /** Makes the memory cache every binding up to `height`, from scratch when the height went back. Starting
        from scratch or from a memory that shows the balances, it shows them afterwards if and only if addresses
        that share an (indexer, user) have the same balance. */
    method LoadStakeBindingsToHeight(height: nat)
      requires Valid()
      modifies this`loadedHeight, this`info, this`stakes
      ensures Valid() && loadedHeight == height
      ensures height < old(loadedHeight) || old(Shows()) ==> (Shows() <==> SharersAgree(info, snapshot))
    {
      hide ShowsBalances, BoundUpTo, Range, Loaded, BalancesRead, SharersAgree;
      if height < loadedHeight {
        loadedHeight, info, stakes := 0, map[], map[];
        NothingBound(rows, snapshot);
      }
      if height == loadedHeight {
        ShownSharersAgree(stakes, info, snapshot);
        return;
      }
      var items := Range(rows, loadedHeight, height);
      LoadedIsBound(rows, loadedHeight, height);
      ghost var known, before := info, stakes;
      loadedHeight := height;
      CacheBindings(items);
      NewKeys(known, rows, items);
      ReadBalances(items);
      if ShowsBalances(before, known, snapshot) {
        LoadShowsIff(before, stakes, known, info, snapshot, items);
      }
    }

    /** Reads the snapshot balances of the given addresses in any order. */
    method ReadBalances(items: set<Address>)
      requires items <= info.Keys
      modifies this`stakes
      ensures BalancesRead(old(stakes), stakes, info, snapshot, items)
    {
      hide BalancesRead;
      ghost var before := stakes;
      ghost var done: set<Address> := {};
      NothingRead(before, info, snapshot);
      var todo := items;
      while todo != {}
        invariant done + todo == items && done !! todo
        invariant BalancesRead(before, stakes, info, snapshot, done)
        decreases |todo|
      {
        var a :| a in todo;
        ReadStep(before, stakes, info, snapshot, done, a);
        stakes := SetStake(stakes, info[a], AsStake(Get(snapshot, a)));
        todo := todo - {a};
        done := done + {a};
      }
    }

    method CacheBindings(items: set<Address>)
      requires items <= rows.Keys
      modifies this`info
      ensures info == Loaded(old(info), rows, items)
    {
      hide Loaded;
      var todo := items;
      ghost var done: set<Address> := {};
      LoadedNone(info, rows);
      while todo != {}
        invariant done + todo == items && done !! todo
        invariant info == Loaded(old(info), rows, done)
        decreases |todo|
      {
        var a :| a in todo;
        LoadedStep(old(info), rows, done, a);
        info := info[a := rows[a].binding];
        todo := todo - {a};
        done := done + {a};
      }
    }

    /** Applies a block's deltas in any order: everyone moves by the sum over its addresses, clamped at zero; with
        one address each, every address by its own delta. */
    method StageStakeBalanceDeltas(d: map<Address, int>)
      modifies this`stakes
      ensures MovesBySum(old(stakes), stakes, info, d)
      ensures Distinct(info) ==> DeltasApplied(old(stakes), stakes, info, d, d.Keys)
    {
      hide DeltasApplied, AddDelta, Distinct, MovesBySum, Only;
      ghost var before := stakes;
      ghost var done: set<Address> := {};
      NoDeltas(before, info, d);
      MovesStart(before, info);
      assert Only(d, done) == map[] by { OnlyNothing(d); }
      var todo := d.Keys;
      while todo != {}
        invariant done + todo == d.Keys && done !! todo
        invariant MovesBySum(before, stakes, info, Only(d, done)) && Only(d, done).Keys <= done
        invariant Distinct(info) ==> DeltasApplied(before, stakes, info, d, done)
        decreases |todo|
      {
        var a :| a in todo;
        OnlyPlus(d, done, a);
        MovesStep(before, stakes, info, Only(d, done), a, d[a]);
        if Distinct(info) {
          OwnDeltaStep(before, stakes, info, d, done, a);
        }
        stakes := AddDelta(stakes, info, a, d[a]);
        todo := todo - {a};
        done := done + {a};
      }
      OnlyEverything(d);
    }

    /** Consumes one committed block: the snapshot moves by the block's deltas. With one address for each
        (indexer, user), the memory goes on showing the balances if and only if no negative balance is credited. */
    method ConsumeBlock(height: nat)
      requires Valid()
      modifies this
      ensures Valid() && loadedHeight == height && cursor == Some(height)
      ensures snapshot == AddDeltas(old(snapshot), DeltasAt(height))
      ensures Distinct(info) && old(Shows()) ==> (Shows() <==> ClampHarmless(info, old(snapshot), DeltasAt(height)))
    {
      hide ShowsBalances, BoundUpTo, AddDeltas, Distinct, DeltasApplied, ClampHarmless, SharersAgree, MovesBySum;
      LoadStakeBindingsToHeight(height);
      ghost var before := stakes;
      StageStakeBalanceDeltas(DeltasAt(height));
      if Distinct(info) && old(Shows()) {
        DistinctAgree(info, snapshot);
        DeltasKeepShowingIff(before, stakes, info, snapshot, DeltasAt(height));
      }
      snapshot, cursor := AddDeltas(snapshot, DeltasAt(height)), Some(height);
    }

    /** A restart forgets the memory and rebuilds it from the cursor: the same bindings, and the same stakes up to
        zero entries where the memory showed the balances. */
    method Restart()
      requires Valid() && cursor == Some(loadedHeight)
      modifies this`loadedHeight, this`info, this`stakes
      ensures Valid() && loadedHeight == old(loadedHeight) && info == old(info)
      ensures Shows() <==> SharersAgree(info, snapshot)
      ensures old(Shows()) ==> Shows() && forall b :: StakeOf(stakes, b) == old(StakeOf(stakes, b))
    {
      hide ShowsBalances, BoundUpTo, SharersAgree;
      ghost var before, known := stakes, info;
      loadedHeight, info, stakes := 0, map[], map[];
      NothingBound(rows, snapshot);
      LoadStakeBindingsToHeight(cursor.value);
      if ShowsBalances(before, known, snapshot) {
        ShownSharersAgree(before, known, snapshot);
        forall b ensures StakeOf(stakes, b) == StakeOf(before, b) {
          ShownStakesUnique(stakes, before, info, snapshot, b);
        }
      }
    }

    // ---- following the indexed chain ----

    /** The tables hold the deltas of the chain c, whose first block has height `first`, and one stake address per
        (indexer, user); its first k blocks have been consumed: the snapshot is the value each address holds
        after them, and the memory shows it. */
    ghost predicate Follows(c: seq<Block>, first: nat, senders: set<Address>, k: nat)
      reads this
    {
      && k <= |c| && Valid() && Shows() && OneAddressEach(rows)
      && (forall i :: 0 <= i < |c| ==> DeltasAt(first + i) == Artifacts(c, senders)[i].deltas)
      && BalancesMatch(StoreAt(c[..k], senders), snapshot)
      && (k > 0 ==> cursor == Some(first + k - 1) && loadedHeight == first + k - 1)
    }

    /** Consumes the heights from first + k up to `end`, one by one, with a restart before any of the given heights.
        The stake per (indexer, user) is then the value its stake address holds on the chain at that height. */
    method ConsumeUpTo(end: nat, restarts: set<nat>, ghost c: seq<Block>, first: nat, ghost senders: set<Address>,
                       k: nat)
      requires Follows(c, first, senders, k) && first + k <= end + 1 <= first + |c|
      modifies this
      ensures Follows(c, first, senders, end + 1 - first)
      ensures forall a :: a in info ==> StakeOf(stakes, info[a]) == AddrSum(StoreAt(c[..end + 1 - first], senders), a)
    {
      hide ShowsBalances, BoundUpTo, AddDeltas, Distinct, ClampHarmless, OneAddressEach, BalancesMatch, StoreAt,
           Artifacts, AddrSum;
      var h := first + k;
      while h <= end
        invariant first + k <= h <= end + 1
        invariant Follows(c, first, senders, h - first)
      {
        if h in restarts && h > first {
          Restart();
        }
        BoundDistinct(rows, h);
        SnapshotStep(c, senders, h - first, snapshot, BoundUpTo(rows, h));
        ConsumeBlock(h);
        h := h + 1;
      }
      ShownIsValueHeld(stakes, info, snapshot, StoreAt(c[..end + 1 - first], senders));
    }
  }

  /** A new consumer follows every chain from its first height on, to any height and through any restarts. */
  method FollowChain(rows: map<Address, BindingRow>, deltas: map<nat, map<Address, int>>, restarts: set<nat>,
                     ghost c: seq<Block>, first: nat, ghost senders: set<Address>, n: nat)
    returns (consumer: Consumer)
    requires OneAddressEach(rows) && n <= |c|
    requires forall i :: 0 <= i < |c| ==> first + i in deltas && deltas[first + i] == Artifacts(c, senders)[i].deltas
    ensures fresh(consumer) && consumer.Follows(c, first, senders, n)
  {
    hide ShowsBalances, OneAddressEach, BalancesMatch, StoreAt, Artifacts;
    consumer := new Consumer(rows, deltas);
    NothingHeld(senders);
    assert c[..0] == [];
    if n > 0 {
      consumer.ConsumeUpTo(first + n - 1, restarts, c, first, senders, 0);
    }
  }

  lemma ShownIsValueHeld(stakes: Stakes, info: map<Address, Binding>, snapshot: map<Address, int>, store: Utxos)
    requires ShowsBalances(stakes, info, snapshot) && BalancesMatch(store, snapshot)
    ensures forall a :: a in info ==> StakeOf(stakes, info[a]) == AddrSum(store, a)
  {
    hide StakeOf, AddrSum;
    forall a | a in info ensures StakeOf(stakes, info[a]) == AddrSum(store, a) {
      AddrSumNonNegative(store, a);
      assert Get(snapshot, a) == AddrSum(store, a);
    }
  }

  lemma ShownSharersAgree(stakes: Stakes, info: map<Address, Binding>, snapshot: map<Address, int>)
    ensures ShowsBalances(stakes, info, snapshot) ==> SharersAgree(info, snapshot)
  {
    hide StakeOf, AsStake, Get;
  }

  lemma DistinctAgree(info: map<Address, Binding>, snapshot: map<Address, int>)
    requires Distinct(info)
    ensures SharersAgree(info, snapshot)
  {
  }

  lemma NothingRead(stakes: Stakes, info: map<Address, Binding>, snapshot: map<Address, int>)
    ensures BalancesRead(stakes, stakes, info, snapshot, {})
  {
  }

  lemma OnlyNothing(d: map<Address, int>)
    ensures Only(d, {}) == map[]
  {
  }

  lemma OnlyPlus(d: map<Address, int>, done: set<Address>, a: Address)
    requires a in d && a !in done
    ensures a !in Only(d, done) && Only(d, done + {a}) == Only(d, done)[a := d[a]]
    ensures Only(d, done + {a}).Keys <= done + {a}
  {
  }

  lemma OnlyEverything(d: map<Address, int>)
    ensures Only(d, d.Keys) == d
  {
  }

  lemma NothingBound(rows: map<Address, BindingRow>, snapshot: map<Address, int>)
    ensures BoundUpTo(rows, 0) == map[] && ShowsBalances(map[], map[], snapshot)
  {
  }

  lemma NewKeys(before: map<Address, Binding>, rows: map<Address, BindingRow>, items: set<Address>)
    requires items <= rows.Keys && before.Keys !! items
    ensures var info := Loaded(before, rows, items);
            info.Keys == before.Keys + items && forall a :: a in before ==> info[a] == before[a]
  {
  }

  lemma NoDeltas(stakes: Stakes, info: map<Address, Binding>, d: map<Address, int>)
    ensures DeltasApplied(stakes, stakes, info, d, {})
  {
  }
}
