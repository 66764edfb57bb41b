/** When a lagged consumer settles a height, is the set of proofs it selects final? The proofs table grows
    by commits and shrinks by rollbacks while the consumers run behind it. */
module Settlement {
  import opened Words
  import opened Penalty
  import opened Proofs
  import opened IndexerState

  /** The proofs table with the latest committed height and the highest height ever committed. */
  datatype Table = Table(rows: set<Proof>, latest: nat, high: nat)

  datatype Step = Commit(proofs: set<Proof>) | Rollback(from: nat)

  /** A commit adds the proofs of the next block; a rollback is accepted as the undo guard does. */
  predicate Allowed(t: Table, s: Step) {
    match s
    case Commit(proofs) => t.latest + 1 < UINT32 && forall p :: p in proofs ==> p.height == t.latest + 1
    case Rollback(from) => from <= t.latest && t.latest - from <= RETENTION
  }

  function Next(t: Table, s: Step): Table {
    match s
    case Commit(proofs) => Table(t.rows + proofs, t.latest + 1, if t.high > t.latest then t.high else t.latest + 1)
    case Rollback(from) =>
      Table(set p | p in t.rows && p.height < from, if from > 0 then from - 1 else 0, t.high)
  }

  /** The rollback starts within the retention distance of the highest height ever committed. */
  predicate Covered(t: Table, s: Step) {
    s.Rollback? ==> s.from >= MinKeepHeight(t.high)
  }

  function Exec(t: Table, steps: seq<Step>): Table
    decreases |steps|
  {
    if steps == [] then t else Exec(Next(t, steps[0]), steps[1..])
  }

  predicate AllAllowed(t: Table, steps: seq<Step>)
    decreases |steps|
  {
    steps == [] || (Allowed(t, steps[0]) && AllAllowed(Next(t, steps[0]), steps[1..]))
  }

  predicate AllCovered(t: Table, steps: seq<Step>)
    decreases |steps|
  {
    steps == [] || (Covered(t, steps[0]) && AllCovered(Next(t, steps[0]), steps[1..]))
  }

  predicate OnlyCommits(steps: seq<Step>) {
    forall i :: 0 <= i < |steps| ==> steps[i].Commit?
  }

  // ---- the consumers' height selection ----

  predicate CanProcess(c: Config, height: nat, indexed: nat)
    requires Loaded(c)
  {
    indexed > height && indexed - height >= Window(c, height)
  }

  /** The pending consumer's batch: every height in it may be processed, and it stops only at the batch
      limit or before a height that may not. */
  method SelectPendingEnd(c: Config, next: nat, indexed: nat, batch: nat) returns (end: nat)
    requires Loaded(c) && next < UINT32 && batch < UINT32 && indexed < UINT32 && CanProcess(c, next, indexed)
    ensures next <= end < UINT32 && forall h :: next <= h <= end ==> CanProcess(c, h, indexed)
    ensures batch > 0 && next + batch - 1 < UINT32 ==> end <= next + batch - 1
    ensures !CanProcess(c, end + 1, indexed) || (batch > 0 && end >= (next + batch - 1) % UINT32)
  {
    end := next;
    if batch > 0 {
      var batchEnd := (next + batch - 1) % UINT32;
      while end < batchEnd && CanProcess(c, end + 1, indexed)
        invariant next <= end && (end <= batchEnd || end == next)
        invariant forall h :: next <= h <= end ==> CanProcess(c, h, indexed)
        decreases batchEnd - end
      {
        end := end + 1;
      }
    } else {
      while end < indexed && CanProcess(c, end + 1, indexed)
        invariant next <= end <= indexed
        invariant forall h :: next <= h <= end ==> CanProcess(c, h, indexed)
      {
        end := end + 1;
      }
    }
  }

  /** The settling consumer's range (empty when end < next): its last height, hence every one,
      lags by at least `lag`. */
  method SelectSettledRange(cursor: nat, cursorExists: bool, start: nat, indexed: nat, lag: nat,
                            batch: nat) returns (next: nat, end: nat, ready: bool)
    requires cursor < UINT32 && start < UINT32 && indexed < UINT32 && batch < UINT32
    ensures next >= start && next == if cursorExists &&
            (cursor + 1) % UINT32 > start then (cursor + 1) % UINT32 else start
    ensures ready <==> indexed > lag && indexed - lag >= next
    ensures ready ==> indexed - end >= lag
    ensures ready && batch == 0 ==> end == indexed - lag
  {
    next := 0;
    if cursorExists {
      next := (cursor + 1) % UINT32;
    }
    if next < start {
      next := start;
    }
    end, ready := 0, false;
    if indexed <= lag {
      return;
    }
    var target := indexed - lag;
    if target < next {
      return;
    }
    end, ready := target, true;
    if batch > 0 {
      var batchEnd := (next + batch - 1) % UINT32;
      if batchEnd < end {
        end := batchEnd;
      }
    }
  }

  // ---- commits ----

  lemma CommitKeepsSelection(t: Table, s: Step, prove: nat, window: nat)
    requires s.Commit? && Allowed(t, s) && prove + window <= t.latest
    ensures Selected(Next(t, s).rows, prove, window) == Selected(t.rows, prove, window)
  {
  }

  /** A proof that the next commit could bring in. */
  function LateProof(t: Table, prove: nat): Proof {
    Proof("", prove, "", "", t.latest + 1, 0)
  }

  /** No next commit can change the selection exactly when the lag is at least the window. */
  lemma CommitsStableIff(t: Table, prove: nat, window: nat)
    requires t.latest + 1 < UINT32 && prove + window < UINT32 && prove <= t.latest
    requires forall p :: p in t.rows ==> p.height <= t.latest
    ensures (forall ps :: Allowed(t, Commit(ps)) ==>
                          Selected(Next(t, Commit(ps)).rows, prove, window) == Selected(t.rows, prove, window))
            <==> prove + window <= t.latest
  {
    if prove + window <= t.latest {
      forall ps | Allowed(t, Commit(ps)) ensures Selected(Next(t, Commit(ps)).rows, prove, window) ==
        Selected(t.rows, prove, window) {
        CommitKeepsSelection(t, Commit(ps), prove, window);
      }
    } else {
      var late := LateProof(t, prove);
      assert Allowed(t, Commit({late}));
      assert late in Selected(Next(t, Commit({late})).rows, prove, window) && late !in Selected(t.rows, prove, window);
    }
  }

  /** A height may be processed exactly when it is below the indexed one and no commit after that one can change
      the proofs selected for it: neither earlier nor later. */
  lemma CanProcessIff(c: Config, t: Table, prove: nat)
    requires Loaded(c) && t.latest + 1 < UINT32 && prove + Window(c, prove) < UINT32
    requires forall p :: p in t.rows ==> p.height <= t.latest
    ensures CanProcess(c, prove, t.latest) <==>
            && prove < t.latest
            && forall ps :: Allowed(t, Commit(ps)) ==>
                            Selected(Next(t, Commit(ps)).rows, prove, Window(c, prove)) ==
                            Selected(t.rows, prove, Window(c, prove))
  {
    hide Selected, Window, Next, Allowed;
    if prove < t.latest {
      CommitsStableIff(t, prove, Window(c, prove));
    }
  }

  /** Once a height may be processed, no sequence of later commits changes the proofs selected for it, nor
      therefore the verdicts and percents computed from them. */
  lemma {:induction false} ProcessedIsFinalUnderCommits(c: Config, t: Table, steps: seq<Step>, prove: nat)
    requires Loaded(c) && t.latest < UINT32 && CanProcess(c, prove, t.latest)
    requires OnlyCommits(steps) && AllAllowed(t, steps)
    ensures Selected(Exec(t, steps).rows, prove, Window(c, prove)) == Selected(t.rows, prove, Window(c, prove))
    decreases |steps|
  {
    hide Selected, Window;
    if steps != [] {
      CommitKeepsSelection(t, steps[0], prove, Window(c, prove));
      ProcessedIsFinalUnderCommits(c, Next(t, steps[0]), steps[1..], prove);
    }
  }

  // ---- rollbacks ----

  /** Deleting from `from` upwards leaves the selection alone exactly when nothing selected is that high. */
  lemma RollbackKeepsSelectionIff(t: Table, from: nat, prove: nat, window: nat)
    ensures Selected(Next(t, Rollback(from)).rows, prove, window) == Selected(t.rows, prove, window)
            <==> forall p :: p in Selected(t.rows, prove, window) ==> p.height < from
  {
    var after := Next(t, Rollback(from)).rows;
    assert Selected(after, prove, window) == set p | p in Selected(t.rows, prove, window) && p.height < from;
  }

  ghost predicate Deep(t: Table, prove: nat, window: nat) {
    && prove + window <= t.latest <= t.high && prove + window < UINT32
    && MinKeepHeight(t.high) > prove + window
  }

  lemma CoveredStepKeepsSelection(t: Table, s: Step, prove: nat, window: nat)
    requires Deep(t, prove, window) && Allowed(t, s) && Covered(t, s)
    ensures Selected(Next(t, s).rows, prove, window) == Selected(t.rows, prove, window)
    ensures Deep(Next(t, s), prove, window)
  {
    if s.Commit? {
      CommitKeepsSelection(t, s, prove, window);
    } else {
      RollbackKeepsSelectionIff(t, s.from, prove, window);
    }
  }

  /** If the lag exceeds the window plus the retention distance, no run of commits and covered rollbacks
      changes the selection or the valid proofs in it. */
  lemma {:induction false} SettledIsFinal(t: Table, steps: seq<Step>, prove: nat, window: nat)
    requires t.latest <= t.high && t.latest < UINT32 && t.latest > prove + window + 100
    requires AllAllowed(t, steps) && AllCovered(t, steps)
    ensures Selected(Exec(t, steps).rows, prove, window) == Selected(t.rows, prove, window)
    ensures forall r: Rules :: ValidProofs(r, Selected(Exec(t, steps).rows, prove, window)) ==
                               ValidProofs(r, Selected(t.rows, prove, window))
  {
    DeepRun(t, steps, prove, window);
  }

  lemma {:induction false} DeepRun(t: Table, steps: seq<Step>, prove: nat, window: nat)
    requires Deep(t, prove, window) && AllAllowed(t, steps) && AllCovered(t, steps)
    ensures Selected(Exec(t, steps).rows, prove, window) == Selected(t.rows, prove, window)
    decreases |steps|
  {
    hide Selected, Deep;
    if steps != [] {
      CoveredStepKeepsSelection(t, steps[0], prove, window);
      DeepRun(Next(t, steps[0]), steps[1..], prove, window);
    }
  }

  /** At the tip, a covered rollback can change the selection of some table exactly when the lag does not
      exceed the window plus the retention distance. */
  lemma RollbackStableIff(latest: nat, prove: nat, window: nat)
    requires latest < UINT32 && prove + window <= latest && window > 0
    ensures (forall rows: set<Proof>, from: nat ::
               var t := Table(rows, latest, latest);
               Allowed(t, Rollback(from)) && Covered(t, Rollback(from)) ==>
                 Selected(Next(t, Rollback(from)).rows, prove, window) == Selected(rows, prove, window))
            <==> latest > prove + window + 100
  {
    if latest > prove + window + RETENTION {
      forall rows: set<Proof>, from: nat | Allowed(Table(rows, latest, latest), Rollback(from)) &&
        Covered(Table(rows, latest, latest), Rollback(from))
        ensures Selected(Next(Table(rows, latest, latest), Rollback(from)).rows, prove, window) ==
                Selected(rows, prove, window)
      {
        RollbackKeepsSelectionIff(Table(rows, latest, latest), from, prove, window);
      }
    } else {
      var p := Proof("", prove, "", "", prove + window, 0);
      var t := Table({p}, latest, latest);
      RollbackKeepsSelectionIff(t, prove + window, prove, window);
      assert p in Selected({p}, prove, window);
      assert Allowed(t, Rollback(prove + window)) && Covered(t, Rollback(prove + window));
    }
  }

  /** The guard alone is relative to the current height, so accepted rollbacks in a row reach any height:
      without coverage no finite lag makes a selection final. */
  lemma {:induction false} GuardedRollbacksReach(t: Table, from: nat) returns (steps: seq<Step>)
    requires 0 < from <= t.latest
    ensures AllAllowed(t, steps) && steps != [] && steps[|steps| - 1] == Rollback(from)
    ensures Exec(t, steps).latest == from - 1
    ensures Exec(t, steps).rows == set p | p in t.rows && p.height < from
    decreases t.latest
  {
    if t.latest - from <= RETENTION {
      steps := [Rollback(from)];
      assert steps[1..] == [];
    } else {
      var first := Rollback(t.latest - RETENTION);
      var rest := GuardedRollbacksReach(Next(t, first), from);
      steps := [first] + rest;
      assert steps[1..] == rest;
    }
  }
}
