/**
 * The table of parallel executions over whole runs: which rows a transition marks and finishes, and how many merged rows
 * a key has in the end.
 */
module WorkflowJoin {
  import opened Prelude
  import opened Lists
  import opened AttributeGuard
  import opened WorkflowModel
  import opened WorkflowOrigins
  import opened WorkflowRuns

  // ---------------------------------------------------------------- the executions table

  /** Ids are places, and no key holds two executions of one parallel state. */
  ghost predicate Keyed(execs: seq<Execution>) {
    && (forall i | 0 <= i < |execs| :: execs[i].id == i)
    && (forall i, j | 0 <= i < j < |execs| :: !IsExec(execs[j], execs[i].key, execs[i].parallelState))
  }

  lemma {:induction false} FirstRunningIs(execs: seq<Execution>, key: Key)
    ensures match FirstRunning(execs, key)
            case Some(e) => e in execs && IsRunning(e, key)
            case None => forall e <- execs :: !IsRunning(e, key)
  {
    if execs != [] {
      FirstRunningIs(execs[1..], key);
      assert execs == [execs[0]] + execs[1..];
    }
  }

  lemma GetExecAt(execs: seq<Execution>, i: nat)
    requires Keyed(execs) && i < |execs|
    ensures GetExec(execs, execs[i].key, execs[i].parallelState) == Some(execs[i])
  {
    GetExecIs(execs, execs[i].key, execs[i].parallelState);
    assert execs[i] in execs && IsExec(execs[i], execs[i].key, execs[i].parallelState);
    var e := GetExec(execs, execs[i].key, execs[i].parallelState).value;
    var j :| 0 <= j < |execs| && execs[j] == e;
    assert i == j;
  }

  lemma MarkedKeyed(execs: seq<Execution>, key: Key, branch: string)
    requires Keyed(execs)
    ensures Keyed(Marked(execs, key, branch))
  {
  }

  ghost predicate Forked(before: seq<Execution>, after: seq<Execution>, key: Key, target: State, joinState: State) {
    GetExec(before, key, target.id).None? && after == before + [NewExec(before, key, target, joinState)]
  }

  function MarkedAndFinished(execs: seq<Execution>, key: Key, branch: string, i: nat): seq<Execution>
    requires i < |execs|
  {
    var marked := Marked(execs, key, branch);
    marked[i := marked[i].(status := Finished)]
  }

  /** What a transition does to the executions, by the path it took; `i` is the execution joined. */
  ghost predicate ExecsStep(before: seq<Execution>, after: seq<Execution>, existing: Instance, kind: Kind, i: nat) {
    match kind
    case Stay => after == before
    case Linear => after == before
    case Fork => exists target, joinState :: Forked(before, after, existing.key, target, joinState)
    case Wait =>
      && existing.branchId.Some? && i < |before| && IsRunning(before[i], existing.key)
      && after == Marked(before, existing.key, existing.branchId.value)
      && |after[i].completed| < |after[i].active|
    case Merge =>
      && existing.branchId.Some? && i < |before| && IsRunning(before[i], existing.key)
      && after == MarkedAndFinished(before, existing.key, existing.branchId.value, i)
      && |after[i].completed| >= |after[i].active|
  }

  lemma JoinExecs(db: Db, existing: Instance, target: State, req: Request) returns (i: nat)
    requires Keyed(db.execs)
    ensures var out := JoinStep(db, existing, target, req);
            ExecsStep(db.execs, out.db.execs, existing, out.kind, i)
  {
    i := 0;
    FirstRunningIs(db.execs, existing.key);
    if existing.branchId.Some? && FirstRunning(db.execs, existing.key).Some? {
      var exec := FirstRunning(db.execs, existing.key).value;
      i :| i < |db.execs| && db.execs[i] == exec;
      var marked := Marked(db.execs, existing.key, existing.branchId.value);
      MarkedKeyed(db.execs, existing.key, existing.branchId.value);
      GetExecAt(marked, i);
      var finished := marked[i].(status := Finished);
      assert Replaced(marked, finished) == marked[i := finished];
    }
  }

  lemma JoinStepAt(db: Db, existing: Instance, target: State, req: Request, at: nat)
    requires Keyed(db.execs) && existing.branchId.Some? && at < |db.execs|
    requires FirstRunning(db.execs, existing.key) == Some(db.execs[at]) && IsRunning(db.execs[at], existing.key)
    ensures var out := JoinStep(db, existing, target, req);
            var e := MarkedExec(db.execs[at], existing.key, existing.branchId.value);
            && |out.db.execs| == |db.execs|
            && out.kind == (if |e.completed| < |e.active| then Wait else Merge)
            && out.db.execs[at] == if out.kind == Wait then e else e.(status := Finished)
  {
    MarkedKeyed(db.execs, existing.key, existing.branchId.value);
    GetExecAt(Marked(db.execs, existing.key, existing.branchId.value), at);
  }

  lemma ForkExecs(def: Definition, db: Db, existing: Instance, target: State, req: Request)
    ensures var out := ForkStep(def, db, existing, target, req);
            ExecsStep(db.execs, out.db.execs, existing, out.kind, 0)
  {
    var out := ForkStep(def, db, existing, target, req);
    if out.kind == Fork {
      assert Forked(db.execs, out.db.execs, existing.key, target, JoinStateFor(def, target).value);
    }
  }

  lemma ActedExecs(def: Definition, db: Db, existing: Instance, req: Request) returns (i: nat)
    requires Keyed(db.execs)
    ensures var out := Acted(def, db, existing, req);
            ExecsStep(db.execs, out.db.execs, existing, out.kind, i)
  {
    i := 0;
    var a := Offered(def, req.key.tenant, existing.currentState, req.action);
    if a.Some? && GuardOk(req.attributes, a.value.required) {
      var target := StateByID(def.states, req.key.tenant, a.value.nextState);
      if target.Some? && target.value.isParallel {
        ForkExecs(def, db, existing, target.value, req);
      } else if target.Some? && target.value.isJoin {
        i := JoinExecs(db, existing, target.value, req);
      }
    }
  }

  lemma ExecsStepKeyed(before: seq<Execution>, after: seq<Execution>, existing: Instance, kind: Kind, i: nat)
    requires Keyed(before) && ExecsStep(before, after, existing, kind, i)
    ensures Keyed(after)
  {
    if kind == Fork {
      var target, joinState :| Forked(before, after, existing.key, target, joinState);
      GetExecIs(before, existing.key, target.id);
      assert forall i | 0 <= i < |before| :: before[i] in before;
    } else if kind == Wait || kind == Merge {
      MarkedKeyed(before, existing.key, existing.branchId.value);
    }
  }

  // ---------------------------------------------------------------- what every run does to an execution

  /** Marks are only added, an execution only goes from running to finished, and then nothing changes it. */
  ghost predicate Advanced(e: Execution, f: Execution) {
    && f == e.(completed := f.completed, status := f.status)
    && e.completed <= f.completed
    && (e.status == Finished ==> f == e)
    && (Distinct(e.completed) ==> Distinct(f.completed))
  }

  ghost predicate ExecsGrow(before: seq<Execution>, after: seq<Execution>) {
    |before| <= |after| && forall i | 0 <= i < |before| :: Advanced(before[i], after[i])
  }

  lemma ExecsStepGrows(before: seq<Execution>, after: seq<Execution>, existing: Instance, kind: Kind, i: nat)
    requires ExecsStep(before, after, existing, kind, i)
    ensures ExecsGrow(before, after)
  {
  }

  function FinishedOf(execs: seq<Execution>, key: Key): set<nat> {
    set i: nat | i < |execs| && FinishedAt(execs, key, i)
  }

  predicate FinishedAt(execs: seq<Execution>, key: Key, k: nat) {
    k < |execs| && execs[k].key == key && execs[k].status == Finished
  }

  lemma ExecsStepFinishesAt(before: seq<Execution>, after: seq<Execution>, existing: Instance, kind: Kind, i: nat,
                            key: Key, k: nat)
    requires ExecsStep(before, after, existing, kind, i)
    ensures FinishedAt(after, key, k) <==> FinishedAt(before, key, k) || (kind == Merge && existing.key == key && k == i)
    ensures kind == Merge ==> !FinishedAt(before, key, i)
  {
    if kind == Fork {
      var target, joinState :| Forked(before, after, existing.key, target, joinState);
    }
  }

  lemma ExecsStepFinishes(before: seq<Execution>, after: seq<Execution>, existing: Instance, kind: Kind, i: nat,
                          key: Key)
    requires ExecsStep(before, after, existing, kind, i)
    ensures |FinishedOf(after, key)| == |FinishedOf(before, key)| + if kind == Merge && existing.key == key then 1 else 0
  {
    forall k: nat
      ensures FinishedAt(after, key, k) <==> FinishedAt(before, key, k) || (kind == Merge && existing.key == key && k == i)
    {
      ExecsStepFinishesAt(before, after, existing, kind, i, key, k);
    }
    ExecsStepFinishesAt(before, after, existing, kind, i, key, i);
    FinishedSets(before, after, key, if kind == Merge && existing.key == key then {i} else {});
  }

  lemma FinishedSets(before: seq<Execution>, after: seq<Execution>, key: Key, added: set<nat>)
    requires forall k: nat :: FinishedAt(after, key, k) <==> FinishedAt(before, key, k) || k in added
    requires forall k <- added :: !FinishedAt(before, key, k)
    ensures |FinishedOf(after, key)| == |FinishedOf(before, key)| + |added|
  {
    assert FinishedOf(after, key) == FinishedOf(before, key) + added;
    assert FinishedOf(before, key) !! added;
  }

  /** The first phase touches no execution, and hands on a row of the history. */
  lemma TransitionActs(def: Definition, reqs: seq<Request>, db: Db, req: Request)
    returns (rows: seq<Instance>, existing: Instance, i: nat)
    requires History(def, reqs, db.rows) && Keyed(db.execs)
    ensures var out := Transitioned(def, db, req);
            && ExecsStep(db.execs, out.db.execs, existing, out.kind, i)
            && (out.kind != Stay ==> existing.key == req.key)
            && (out.kind != Stay ==> Picked(def, db.rows, req) == Ok((rows, existing)))
            && (out.kind != Stay ==> out == Acted(def, db.(rows := rows), existing, req))
  {
    rows, i := db.rows, 0;
    existing := Stored([], InitialRow(req, ""));
    PickedHistory(def, reqs, db.rows, req);
    if Picked(def, db.rows, req).Ok? && req.action != "" {
      rows, existing := Picked(def, db.rows, req).value.0, Picked(def, db.rows, req).value.1;
      i := ActedExecs(def, db.(rows := rows), existing, req);
    }
  }

  function Merges(def: Definition, db: Db, reqs: seq<Request>, key: Key): nat
    decreases |reqs|
  {
    if reqs == [] then 0
    else
      var out := Transitioned(def, db, reqs[0]);
      (if out.kind == Merge && reqs[0].key == key then 1 else 0) + Merges(def, out.db, reqs[1..], key)
  }

  /** In every run a key has as many merged rows as finished executions, whatever its forks. */
  lemma {:induction false} MergesAreFinished(def: Definition, earlier: seq<Request>, db: Db, reqs: seq<Request>,
                                             key: Key)
    requires History(def, earlier, db.rows) && Keyed(db.execs)
    ensures |FinishedOf(Run(def, db, reqs).execs, key)| == |FinishedOf(db.execs, key)| + Merges(def, db, reqs, key)
    ensures Keyed(Run(def, db, reqs).execs)
    decreases |reqs|
  {
    if reqs != [] {
      var out := Transitioned(def, db, reqs[0]);
      var rows, existing, i := TransitionActs(def, earlier, db, reqs[0]);
      ExecsStepKeyed(db.execs, out.db.execs, existing, out.kind, i);
      ExecsStepFinishes(db.execs, out.db.execs, existing, out.kind, i, key);
      TransitionKeepsHistory(def, earlier, db, reqs[0]);
      MergesAreFinished(def, earlier + [reqs[0]], out.db, reqs[1..], key);
    }
  }
}
