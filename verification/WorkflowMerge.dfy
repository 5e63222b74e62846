/** When a join merges, and what it draws. */
module WorkflowMerge {
  import opened Prelude
  import opened Lists
  import opened AttributeGuard
  import opened WorkflowModel
  import opened WorkflowHistory
  import opened WorkflowOrigins
  import opened WorkflowRuns
  import opened WorkflowJoin

  // ---------------------------------------------------------------- hypotheses

  /** Parallel states name at least one branch, none twice. */
  predicate GoodForks(def: Definition) {
    forall s <- def.states :: s.isParallel ==> s.branchStates != [] && Distinct(s.branchStates)
  }

  ghost predicate Single(execs: seq<Execution>, key: Key) {
    forall i, j | 0 <= i < j < |execs| :: !(execs[i].key == key && execs[j].key == key)
  }

  /** Marks are distinct branches that have rows; branch rows are of its branches; running means some mark missing. */
  ghost predicate Tracks(e: Execution, met: set<string>) {
    && e.active != [] && Distinct(e.active) && Distinct(e.completed)
    && (forall b <- e.completed :: b in e.active && b in met)
    && (forall b <- met :: b in e.active)
    && (e.status == Running <==> |e.completed| < |e.active|)
  }

  ghost predicate TracksAt(db: Db, key: Key, i: nat)
    requires i < |db.execs|
  {
    db.execs[i].key == key ==> Tracks(db.execs[i], Met(db.rows, key))
  }

  ghost predicate Balanced(db: Db, key: Key) {
    && (forall i | 0 <= i < |db.execs| :: TracksAt(db, key, i))
    && ((forall i | 0 <= i < |db.execs| :: db.execs[i].key != key) ==> Met(db.rows, key) == {})
  }

  // ---------------------------------------------------------------- which branches have rows

  function BranchOf(inst: Instance, key: Key): set<string> {
    if IsBranch(inst, key) then {inst.branchId.value} else {}
  }

  lemma InsertedMet(rows: seq<Instance>, inst: Instance, key: Key)
    ensures Met(Inserted(rows, inst), key) == Met(rows, key) + BranchOf(inst, key)
  {
    var after := Inserted(rows, inst);
    forall b | b in Met(rows, key) ensures b in Met(after, key) {
      var r :| r in rows && IsBranch(r, key) && r.branchId == Some(b);
      var i :| 0 <= i < |rows| && rows[i] == r;
      assert after[i] in after && IsBranch(after[i], key);
    }
    forall b | b in BranchOf(inst, key) ensures b in Met(after, key) {
      assert after[|rows|] in after && IsBranch(after[|rows|], key);
    }
    forall b | b in Met(after, key) ensures b in Met(rows, key) + BranchOf(inst, key) {
      var r :| r in after && IsBranch(r, key) && r.branchId == Some(b);
      var i :| 0 <= i < |after| && after[i] == r;
      if i < |rows| {
        assert rows[i] in rows && IsBranch(rows[i], key);
      }
    }
  }

  lemma HasMet(rows: seq<Instance>, existing: Instance, key: Key)
    requires Has(rows, existing, existing.key)
    ensures BranchOf(existing, key) <= Met(rows, key)
  {
    if IsBranch(existing, key) {
      assert rows[existing.id] in rows && IsBranch(rows[existing.id], key);
    }
  }

  lemma {:induction false} ForkMet(def: Definition, rows: seq<Instance>, existing: Instance, req: Request,
                                   branches: seq<string>, key: Key)
    ensures var after := Met(ForkRows(def, rows, existing, req, branches).0, key);
            && Met(rows, key) <= after
            && (existing.key != key ==> after == Met(rows, key))
            && (forall b <- after :: b in Met(rows, key) || b in branches)
    decreases |branches|
  {
    if branches != [] {
      var state := StateByCode(def.states, existing.key.tenant, existing.key.process, branches[0]);
      if state.Some? {
        var inst := BranchRow(existing, req, branches[0], state.value.id);
        InsertedMet(rows, inst, key);
        ForkMet(def, Inserted(rows, inst), existing, req, branches[1..], key);
      }
    }
  }

  lemma JoinMet(db: Db, existing: Instance, target: State, req: Request, key: Key)
    requires Has(db.rows, existing, existing.key)
    ensures Met(JoinStep(db, existing, target, req).db.rows, key) == Met(db.rows, key)
  {
    if existing.branchId.Some? {
      var inst := JoinStepRow(db, existing, target, req);
      InsertedMet(db.rows, inst, key);
      HasMet(db.rows, existing, key);
      SubBranch(inst, existing, key);
    }
  }

  lemma SubBranch(inst: Instance, existing: Instance, key: Key)
    requires existing.isParallelBranch && inst.key == existing.key
    requires inst.isParallelBranch ==> inst.branchId == existing.branchId
    ensures BranchOf(inst, key) <= BranchOf(existing, key)
  {
  }

  lemma LinearMet(def: Definition, db: Db, existing: Instance, req: Request, key: Key)
    requires Has(db.rows, existing, existing.key)
    ensures Met(LinearStep(def, db, existing, req).db.rows, key) == Met(db.rows, key)
  {
    var a := Followed(def, existing.key.tenant, existing.currentState, req.action);
    if a.Some? {
      InsertedMet(db.rows, LinearRow(existing, req, a.value.nextState), key);
      HasMet(db.rows, existing, key);
    }
  }

  /** Only a fork gives rows to new branches, and only to those of the execution it creates. */
  ghost predicate MetStep(db: Db, out: Outcome, existing: Instance, key: Key) {
    if out.kind != Fork || existing.key != key then Met(out.db.rows, key) == Met(db.rows, key)
    else |out.db.execs| == |db.execs| + 1 && Met(db.rows, key) <= Met(out.db.rows, key) &&
         forall b <- Met(out.db.rows, key) :: b in Met(db.rows, key) || b in out.db.execs[|db.execs|].active
  }

  lemma ForkStepMet(def: Definition, db: Db, existing: Instance, target: State, req: Request, key: Key)
    ensures MetStep(db, ForkStep(def, db, existing, target, req), existing, key)
  {
    ForkMet(def, db.rows, existing, req, target.branchStates, key);
  }

  lemma ActedMet(def: Definition, db: Db, existing: Instance, req: Request, key: Key)
    requires Has(db.rows, existing, req.key)
    ensures MetStep(db, Acted(def, db, existing, req), existing, key)
  {
    var a := Offered(def, req.key.tenant, existing.currentState, req.action);
    if a.Some? && GuardOk(req.attributes, a.value.required) {
      var target := StateByID(def.states, req.key.tenant, a.value.nextState);
      if target.Some? && target.value.isParallel {
        ForkStepMet(def, db, existing, target.value, req, key);
      } else if target.Some? && target.value.isJoin {
        JoinMet(db, existing, target.value, req, key);
      } else if target.Some? {
        LinearMet(def, db, existing, req, key);
      }
    }
  }

  // ---------------------------------------------------------------- one transition keeps the balance

  function Settled(e: Execution): Execution {
    if |e.completed| < |e.active| then e else e.(status := Finished)
  }

  lemma MarkTracks(e: Execution, met: set<string>, key: Key, branch: string)
    requires Tracks(e, met) && IsRunning(e, key) && branch in met
    ensures Tracks(Settled(MarkedExec(e, key, branch)), met)
  {
    var f := MarkedExec(e, key, branch);
    assert forall b <- f.completed :: b in e.completed || b == branch;
  }

  /** The execution of the key is the only one, so everything about the key is about it. */
  lemma OnlyOne(execs: seq<Execution>, key: Key, i: nat)
    requires Single(execs, key) && i < |execs| && execs[i].key == key
    ensures forall j | 0 <= j < |execs| && execs[j].key == key :: j == i
  {
  }

  lemma JoinBalanced(db: Db, after: Db, existing: Instance, kind: Kind, i: nat)
    requires ExecsStep(db.execs, after.execs, existing, kind, i) && (kind == Wait || kind == Merge)
    requires Balanced(db, existing.key) && Single(db.execs, existing.key)
    requires Met(after.rows, existing.key) == Met(db.rows, existing.key)
    requires existing.branchId.Some? && existing.branchId.value in Met(db.rows, existing.key)
    ensures Balanced(after, existing.key)
  {
    OnlyOne(db.execs, existing.key, i);
    assert TracksAt(db, existing.key, i);
    MarkTracks(db.execs[i], Met(db.rows, existing.key), existing.key, existing.branchId.value);
    assert after.execs[i] == Settled(MarkedExec(db.execs[i], existing.key, existing.branchId.value));
  }

  lemma ForkBalanced(def: Definition, db: Db, out: Outcome, existing: Instance)
    requires out.kind == Fork && ExecsStep(db.execs, out.db.execs, existing, Fork, 0)
    requires Balanced(db, existing.key) && Single(out.db.execs, existing.key) && MetStep(db, out, existing, existing.key)
    requires Distinct(out.db.execs[|db.execs|].active) && out.db.execs[|db.execs|].active != []
    ensures Balanced(out.db, existing.key)
  {
    var target, joinState :| Forked(db.execs, out.db.execs, existing.key, target, joinState);
    OnlyOne(out.db.execs, existing.key, |db.execs|);
    assert forall i | 0 <= i < |db.execs| :: out.db.execs[i] == db.execs[i];
  }

  lemma OtherKeyBalanced(db: Db, out: Outcome, existing: Instance, i: nat, key: Key)
    requires ExecsStep(db.execs, out.db.execs, existing, out.kind, i) && existing.key != key
    requires Balanced(db, key) && Met(out.db.rows, key) == Met(db.rows, key)
    ensures Balanced(out.db, key)
  {
    if out.kind == Fork {
      var target, joinState :| Forked(db.execs, out.db.execs, existing.key, target, joinState);
    }
    assert forall j | 0 <= j < |db.execs| :: out.db.execs[j].key == db.execs[j].key
             && (db.execs[j].key == key ==> out.db.execs[j] == db.execs[j]);
    assert forall j | 0 <= j < |db.execs| :: TracksAt(db, key, j) ==> TracksAt(out.db, key, j);
  }

  lemma ForkedActive(def: Definition, db: Db, existing: Instance, req: Request)
    requires GoodForks(def) && Acted(def, db, existing, req).kind == Fork
    ensures var execs := Acted(def, db, existing, req).db.execs;
            |execs| == |db.execs| + 1 && Distinct(execs[|db.execs|].active) && execs[|db.execs|].active != []
  {
    var a := Offered(def, req.key.tenant, existing.currentState, req.action).value;
    StateByIDIs(def.states, req.key.tenant, a.nextState);
  }

  lemma ActedBalanced(def: Definition, db: Db, existing: Instance, req: Request, i: nat, key: Key)
    requires Has(db.rows, existing, req.key) && GoodForks(def)
    requires ExecsStep(db.execs, Acted(def, db, existing, req).db.execs, existing, Acted(def, db, existing, req).kind, i)
    requires Balanced(db, key) && Single(Acted(def, db, existing, req).db.execs, key)
    ensures Balanced(Acted(def, db, existing, req).db, key)
  {
    var out := Acted(def, db, existing, req);
    ActedMet(def, db, existing, req, key);
    HasMet(db.rows, existing, key);
    if existing.key != key {
      OtherKeyBalanced(db, out, existing, i, key);
    } else if out.kind == Fork {
      ForkedActive(def, db, existing, req);
      ForkBalanced(def, db, out, existing);
    } else if out.kind == Wait || out.kind == Merge {
      SingleEarlier(db.execs, out.db.execs, existing, out.kind, i, key);
      JoinBalanced(db, out.db, existing, out.kind, i);
    } else {
      SameBalanced(db, out.db, key);
    }
  }

  lemma SameBalanced(db: Db, after: Db, key: Key)
    requires Balanced(db, key) && after.execs == db.execs && Met(after.rows, key) == Met(db.rows, key)
    ensures Balanced(after, key)
  {
    assert forall j | 0 <= j < |db.execs| :: TracksAt(db, key, j) ==> TracksAt(after, key, j);
  }

  lemma SingleEarlier(before: seq<Execution>, after: seq<Execution>, existing: Instance, kind: Kind, i: nat, key: Key)
    requires ExecsStep(before, after, existing, kind, i) && Single(after, key)
    ensures Single(before, key)
  {
    ExecsStepGrows(before, after, existing, kind, i);
  }

  lemma PickedMet(def: Definition, rows: seq<Instance>, req: Request, key: Key)
    ensures Picked(def, rows, req).Ok? ==> Met(Picked(def, rows, req).value.0, key) == Met(rows, key)
  {
    if InitialFor(def, req.key).Ok? {
      InsertedMet(rows, InitialRow(req, InitialFor(def, req.key).value.id), key);
    }
  }

  lemma TransitionBalanced(def: Definition, reqs: seq<Request>, db: Db, req: Request, key: Key)
    requires History(def, reqs, db.rows) && Keyed(db.execs) && GoodForks(def)
    requires Balanced(db, key) && Single(Transitioned(def, db, req).db.execs, key)
    ensures Balanced(Transitioned(def, db, req).db, key)
  {
    PickedHistory(def, reqs, db.rows, req);
    PickedMet(def, db.rows, req, key);
    if Picked(def, db.rows, req).Ok? {
      var (rows, existing) := Picked(def, db.rows, req).value;
      var picked := db.(rows := rows);
      SameBalanced(db, picked, key);
      if req.action != "" {
        var i := ActedExecs(def, picked, existing, req);
        ActedBalanced(def, picked, existing, req, i, key);
      }
    }
  }

  // ---------------------------------------------------------------- whole runs

  lemma ExecsGrowTransitive(a: seq<Execution>, b: seq<Execution>, c: seq<Execution>)
    requires ExecsGrow(a, b) && ExecsGrow(b, c)
    ensures ExecsGrow(a, c)
  {
    forall i | 0 <= i < |a| ensures Advanced(a[i], c[i]) {
      assert Advanced(a[i], b[i]) && Advanced(b[i], c[i]);
    }
  }

  /** In every run marks are only added and statuses only go from running to finished. */
  lemma {:induction false} RunExecsGrow(def: Definition, earlier: seq<Request>, db: Db, reqs: seq<Request>)
    requires History(def, earlier, db.rows) && Keyed(db.execs)
    ensures ExecsGrow(db.execs, Run(def, db, reqs).execs)
    decreases |reqs|
  {
    if reqs != [] {
      var out := Transitioned(def, db, reqs[0]);
      var rows, existing, i := TransitionActs(def, earlier, db, reqs[0]);
      ExecsStepKeyed(db.execs, out.db.execs, existing, out.kind, i);
      ExecsStepGrows(db.execs, out.db.execs, existing, out.kind, i);
      TransitionKeepsHistory(def, earlier, db, reqs[0]);
      RunExecsGrow(def, earlier + [reqs[0]], out.db, reqs[1..]);
      ExecsGrowTransitive(db.execs, out.db.execs, Run(def, out.db, reqs[1..]).execs);
    }
  }

  lemma SingleBefore(before: seq<Execution>, after: seq<Execution>, key: Key)
    requires ExecsGrow(before, after) && Single(after, key)
    ensures Single(before, key)
  {
    forall i, j | 0 <= i < j < |before| ensures !(before[i].key == key && before[j].key == key) {
      assert Advanced(before[i], after[i]) && Advanced(before[j], after[j]);
    }
  }

  /** A run that forks a key at most once keeps its execution balanced. */
  lemma {:induction false} RunBalanced(def: Definition, earlier: seq<Request>, db: Db, reqs: seq<Request>, key: Key)
    requires History(def, earlier, db.rows) && Keyed(db.execs) && GoodForks(def) && Balanced(db, key)
    requires Single(Run(def, db, reqs).execs, key)
    ensures Balanced(Run(def, db, reqs), key)
    decreases |reqs|
  {
    if reqs != [] {
      var out := Transitioned(def, db, reqs[0]);
      var rows, existing, i := TransitionActs(def, earlier, db, reqs[0]);
      ExecsStepKeyed(db.execs, out.db.execs, existing, out.kind, i);
      TransitionKeepsHistory(def, earlier, db, reqs[0]);
      RunExecsGrow(def, earlier + [reqs[0]], out.db, reqs[1..]);
      SingleBefore(out.db.execs, Run(def, out.db, reqs[1..]).execs, key);
      TransitionBalanced(def, earlier, db, reqs[0], key);
      RunBalanced(def, earlier + [reqs[0]], out.db, reqs[1..], key);
    }
  }

  lemma FinishedAtMostOnce(execs: seq<Execution>, key: Key)
    requires Single(execs, key)
    ensures |FinishedOf(execs, key)| <= 1
    ensures |FinishedOf(execs, key)| == 1 <==> exists e <- execs :: e.key == key && e.status == Finished
  {
    if i: nat :| FinishedAt(execs, key, i) {
      assert execs[i] in execs;
      assert FinishedOf(execs, key) == {i};
    } else {
      assert FinishedOf(execs, key) == {};
      forall e | e in execs ensures !(e.key == key && e.status == Finished) {
        var i: nat :| i < |execs| && execs[i] == e;
        assert !FinishedAt(execs, key, i);
      }
    }
  }

  /** Over a whole run that forks a key at most once: balance, and one merged row exactly when it is finished. */
  lemma MergedAtMostOnce(def: Definition, reqs: seq<Request>, key: Key)
    requires GoodForks(def) && Single(Run(def, Db([], []), reqs).execs, key)
    ensures var after := Run(def, Db([], []), reqs);
            && Balanced(after, key)
            && Merges(def, Db([], []), reqs, key) <= 1
            && (Merges(def, Db([], []), reqs, key) == 1 <==>
                exists e <- after.execs :: e.key == key && e.status == Finished)
  {
    assert Met([], key) == {};
    RunBalanced(def, [], Db([], []), reqs, key);
    MergesAreFinished(def, [], Db([], []), reqs, key);
    assert FinishedOf([], key) == {};
    FinishedAtMostOnce(Run(def, Db([], []), reqs).execs, key);
  }

  // ---------------------------------------------------------------- when a transition merges

  /** The step that adds the one mark still missing. */
  ghost predicate LastMarked(before: seq<Execution>, after: seq<Execution>, key: Key) {
    exists i: nat, b :: i < |before| <= |after| && IsRunning(before[i], key)
      && b !in before[i].completed && after[i].completed == before[i].completed + [b]
      && |after[i].completed| == |after[i].active|
  }

  lemma MergeMarks(before: seq<Execution>, after: seq<Execution>, existing: Instance, i: nat)
    requires ExecsStep(before, after, existing, Merge, i) && |before[i].completed| < |before[i].active|
    ensures LastMarked(before, after, existing.key)
  {
    var b := existing.branchId.value;
    assert b !in before[i].completed && after[i].completed == before[i].completed + [b];
  }

  lemma MarkMerges(before: seq<Execution>, after: seq<Execution>, existing: Instance, kind: Kind, i: nat, key: Key)
    requires ExecsStep(before, after, existing, kind, i) && Single(before, key)
    requires LastMarked(before, after, key)
    ensures kind == Merge && existing.key == key
  {
    var j: nat, b :| j < |before| <= |after| && IsRunning(before[j], key)
      && b !in before[j].completed && after[j].completed == before[j].completed + [b]
      && |after[j].completed| == |after[j].active|;
    if kind == Fork {
      ForkKeeps(before, after, existing, i, j);
    }
  }

  lemma ForkKeeps(before: seq<Execution>, after: seq<Execution>, existing: Instance, i: nat, j: nat)
    requires ExecsStep(before, after, existing, Fork, i) && j < |before|
    ensures after[j] == before[j]
  {
    var target, joinState :| Forked(before, after, existing.key, target, joinState);
  }

  /** A transition merges exactly when it marks the last missing branch. */
  lemma MergesExactlyAtLastMark(def: Definition, earlier: seq<Request>, db: Db, req: Request)
    requires History(def, earlier, db.rows) && Keyed(db.execs) && Balanced(db, req.key)
    requires Single(Transitioned(def, db, req).db.execs, req.key)
    ensures Transitioned(def, db, req).kind == Merge
       <==> LastMarked(db.execs, Transitioned(def, db, req).db.execs, req.key)
  {
    var out := Transitioned(def, db, req);
    var rows, existing, i := TransitionActs(def, earlier, db, req);
    SingleEarlier(db.execs, out.db.execs, existing, out.kind, i, req.key);
    if out.kind == Merge {
      assert TracksAt(db, req.key, i);
      MergeMarks(db.execs, out.db.execs, existing, i);
    }
    if LastMarked(db.execs, out.db.execs, req.key) {
      MarkMerges(db.execs, out.db.execs, existing, out.kind, i, req.key);
    }
  }

  // ---------------------------------------------------------------- what a merge draws

  function Codes(listed: seq<Instance>): seq<string> {
    seq(|listed|, i requires 0 <= i < |listed| => if listed[i].branchId.Some? then listed[i].branchId.value else "")
  }

  lemma MetAppend(front: seq<Instance>, r: Instance, key: Key)
    ensures Met(front + [r], key) == Met(front, key) + BranchOf(r, key)
  {
    assert r in front + [r];
    assert forall x :: x in front + [r] <==> x in front || x == r;
  }

  ghost predicate ListsBranches(listed: seq<Instance>, branches: set<string>) {
    && Distinct(Codes(listed)) && (forall r <- listed :: r.branchId.Some?)
    && (forall b :: b in Codes(listed) <==> b in branches)
  }

  lemma ListOneMore(r: Instance, listed: seq<Instance>, branches: set<string>)
    requires ListsBranches(listed, branches) && r.branchId.Some? && r.branchId.value !in branches
    ensures ListsBranches([r] + listed, {r.branchId.value} + branches)
  {
    assert Codes([r] + listed) == [r.branchId.value] + Codes(listed);
  }

  lemma {:induction false} LastOfBranchesLists(rows: seq<Instance>, key: Key, met: set<string>)
    ensures ListsBranches(LastOfBranches(rows, key, met), Met(rows, key) - met)
    decreases |rows|
  {
    if rows == [] {
      assert Met(rows, key) - met == {};
    } else {
      var front, last := rows[..|rows| - 1], rows[|rows| - 1];
      assert rows == front + [last];
      MetAppend(front, last, key);
      if IsBranch(last, key) && last.branchId.value !in met {
        var b := last.branchId.value;
        LastOfBranchesLists(front, key, met + {b});
        ListOneMore(last, LastOfBranches(front, key, met + {b}), Met(front, key) - (met + {b}));
        assert {b} + (Met(front, key) - (met + {b})) == Met(rows, key) - met;
      } else {
        LastOfBranchesLists(front, key, met);
        assert Met(front, key) - met == Met(rows, key) - met;
      }
    }
  }

  /** The active rows of a sound history are one per branch that has rows. */
  lemma ActiveListsBranches(rows: seq<Instance>, key: Key)
    requires Sound(rows)
    ensures ListsBranches(ActiveParallel(rows, key), Met(rows, key))
  {
    FlagsAreLastOfBranches(rows, key);
    LastOfBranchesLists(rows, key, {});
    assert Met(rows, key) - {} == Met(rows, key);
  }

  /** A settled execution's branches all have rows, so the active rows are one per branch. */
  lemma FinishedDrawsAll(rows: seq<Instance>, e: Execution, key: Key)
    requires Sound(rows) && Tracks(e, Met(rows, key)) && |e.completed| >= |e.active|
    ensures multiset(Codes(ActiveParallel(rows, key))) == multiset(e.active)
    ensures |ActiveParallel(rows, key)| == |e.active|
  {
    ActiveListsBranches(rows, key);
    DistinctFits(e.completed, e.active);
    assert forall b :: b in Met(rows, key) <==> b in e.active;
    DistinctSameElements(Codes(ActiveParallel(rows, key)), e.active);
    assert |multiset(Codes(ActiveParallel(rows, key)))| == |ActiveParallel(rows, key)|;
  }

  lemma JoinMerges(db: Db, existing: Instance, target: State, req: Request) returns (e: Execution)
    requires Keyed(db.execs) && JoinStep(db, existing, target, req).kind == Merge
    ensures e in db.execs && IsRunning(e, existing.key) && existing.branchId.Some?
    ensures var out := JoinStep(db, existing, target, req);
            var row := MergedRow(e, ActiveParallel(db.rows, existing.key), req, target.id);
            out.db.rows == Inserted(db.rows, row) && out.result == Ok(Stored(db.rows, row))
  {
    FirstRunningIs(db.execs, existing.key);
    e := FirstRunning(db.execs, existing.key).value;
    var i :| 0 <= i < |db.execs| && db.execs[i] == e;
    var marked := Marked(db.execs, existing.key, existing.branchId.value);
    MarkedKeyed(db.execs, existing.key, existing.branchId.value);
    GetExecAt(marked, i);
  }

  lemma ActedMerges(def: Definition, db: Db, existing: Instance, req: Request) returns (e: Execution, state: string)
    requires Keyed(db.execs) && Acted(def, db, existing, req).kind == Merge
    ensures e in db.execs && IsRunning(e, existing.key) && existing.branchId.Some?
    ensures var out := Acted(def, db, existing, req);
            var row := MergedRow(e, ActiveParallel(db.rows, existing.key), req, state);
            out.db.rows == Inserted(db.rows, row) && out.result == Ok(Stored(db.rows, row))
  {
    var a := Offered(def, req.key.tenant, existing.currentState, req.action).value;
    var target := StateByID(def.states, req.key.tenant, a.nextState).value;
    state := target.id;
    e := JoinMerges(db, existing, target, req);
  }

  lemma PickedBranch(def: Definition, reqs: seq<Request>, rows: seq<Instance>, req: Request)
    requires History(def, reqs, rows) && Picked(def, rows, req).Ok? && Picked(def, rows, req).value.1.isParallelBranch
    ensures BranchFor(def, rows, req) == Some(Picked(def, rows, req).value.1)
    ensures Picked(def, rows, req).value.0 == rows && Picked(def, rows, req).value.1 in ActiveParallel(rows, req.key)
  {
    LatestLinearFound(rows, req.key);
    OfferingIsListed(def, ActiveParallel(rows, req.key), req.key.tenant, req.action);
  }

  /** The merged row is made of one latest row for each branch of the execution, the joining branch's included. */
  lemma MergeDrawsEveryBranch(def: Definition, earlier: seq<Request>, db: Db, req: Request)
    returns (existing: Instance, e: Execution, state: string)
    requires History(def, earlier, db.rows) && Keyed(db.execs) && Balanced(db, req.key)
    requires Single(Transitioned(def, db, req).db.execs, req.key)
    requires Transitioned(def, db, req).kind == Merge
    ensures var drawn := ActiveParallel(db.rows, req.key);
            var row := MergedRow(e, drawn, req, state);
            && e in db.execs && IsRunning(e, req.key)
            && multiset(Codes(drawn)) == multiset(e.active)
            && existing in drawn
            && Transitioned(def, db, req).result == Ok(Stored(db.rows, row))
            && Transitioned(def, db, req).db.rows == Inserted(db.rows, row)
  {
    var out := Transitioned(def, db, req);
    var rows, acting, i := TransitionActs(def, earlier, db, req);
    PickedHistory(def, earlier, db.rows, req);
    existing := acting;
    e, state := ActedMerges(def, db.(rows := rows), existing, req);
    PickedBranch(def, earlier, db.rows, req);
    SingleEarlier(db.execs, out.db.execs, existing, out.kind, i, req.key);
    var j: nat :| j < |db.execs| && db.execs[j] == e;
    MergeTracks(db, out.db, existing, i);
    FinishedDrawsAll(db.rows, out.db.execs[i], req.key);
    OnlyOne(db.execs, req.key, i);
    assert out.db.execs[i].active == e.active;
  }

  lemma MergeTracks(db: Db, after: Db, existing: Instance, i: nat)
    requires ExecsStep(db.execs, after.execs, existing, Merge, i) && Balanced(db, existing.key)
    requires existing.branchId.value in Met(db.rows, existing.key)
    ensures Tracks(after.execs[i], Met(db.rows, existing.key))
  {
    assert TracksAt(db, existing.key, i);
    MarkTracks(db.execs[i], Met(db.rows, existing.key), existing.key, existing.branchId.value);
    assert after.execs[i] == Settled(MarkedExec(db.execs[i], existing.key, existing.branchId.value));
  }
}
