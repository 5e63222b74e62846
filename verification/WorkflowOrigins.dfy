/**
 * What explains a history row: the first of its key starts in the initial state, and any other answers a request
 * whose action leaves the state of an earlier row. One lemma for each path of a transition shows that what the path
 * appends is explained; the runs built from transitions are in WorkflowRuns.
 */
module WorkflowOrigins {
  import opened Prelude
  import opened AttributeGuard
  import opened WorkflowModel
  import opened WorkflowHistory

  // ---------------------------------------------------------------- what explains a row

  ghost predicate Leaves(def: Definition, a: Action, tenant: string, state: string, name: string) {
    a in def.actions && a.tenant == tenant && a.currentState == state && a.name == name
  }

  /** The action's target is parallel and `branch` names the state among its branches. */
  ghost predicate BranchTarget(def: Definition, key: Key, a: Action, branch: string, state: string) {
    match StateByID(def.states, key.tenant, a.nextState)
    case None => false
    case Some(p) =>
      p.isParallel && branch in p.branchStates &&
      match StateByCode(def.states, key.tenant, key.process, branch)
      case None => false
      case Some(b) => b.id == state
  }

  /** Reached by the action: its target, or for a fork the state of the row's own branch. */
  ghost predicate Lands(def: Definition, a: Action, inst: Instance) {
    || inst.currentState == a.nextState
    || (inst.branchId.Some? && BranchTarget(def, inst.key, a, inst.branchId.value, inst.currentState))
  }

  ghost predicate FromBy(def: Definition, req: Request, src: Instance, inst: Instance, checked: Action, taken: Action) {
    && inst.key == src.key == req.key && inst.action == req.action && inst.escalated == IsEscalation(req)
    && Leaves(def, checked, req.key.tenant, src.currentState, req.action)
    && Leaves(def, taken, req.key.tenant, src.currentState, req.action)
    && GuardOk(req.attributes, checked.required)
    && Lands(def, taken, inst)
  }

  ghost predicate From(def: Definition, req: Request, src: Instance, inst: Instance) {
    exists checked, taken :: FromBy(def, req, src, inst, checked, taken)
  }

  ghost predicate Entry(def: Definition, inst: Instance) {
    && !inst.isParallelBranch && !inst.escalated
    && InitialFor(def, inst.key).Ok? && inst.currentState == InitialFor(def, inst.key).value.id
  }

  ghost predicate NoneOf(rows: seq<Instance>, key: Key) { forall r <- rows :: r.key != key }

  /** The first row of its key starts in the initial state; any other answers one of the requests. */
  ghost predicate Explained(def: Definition, reqs: seq<Request>, before: seq<Instance>, inst: Instance) {
    if NoneOf(before, inst.key) then Entry(def, inst)
    else exists src, req :: src in before && req in reqs && From(def, req, src, inst)
  }

  ghost predicate ExplainedAt(def: Definition, reqs: seq<Request>, rows: seq<Instance>, n: nat)
    requires n < |rows|
  {
    Explained(def, reqs, rows[..n], rows[n])
  }

  ghost predicate History(def: Definition, reqs: seq<Request>, rows: seq<Instance>) {
    Sound(rows) && forall n | 0 <= n < |rows| :: ExplainedAt(def, reqs, rows, n)
  }

  // ---------------------------------------------------------------- flags and later requests do not matter

  lemma FromIgnoresFlags(def: Definition, req: Request, src: Instance, inst: Instance, src': Instance, inst': Instance)
    requires From(def, req, src, inst)
    requires src' == src.(isLatest := src'.isLatest) && inst' == inst.(isLatest := inst'.isLatest)
    ensures From(def, req, src', inst')
  {
    var checked, taken :| FromBy(def, req, src, inst, checked, taken);
    assert FromBy(def, req, src', inst', checked, taken);
  }

  lemma ExplainedIgnoresFlags(def: Definition, reqs: seq<Request>, before: seq<Instance>, inst: Instance,
                              before': seq<Instance>, inst': Instance)
    requires Explained(def, reqs, before, inst)
    requires |before'| == |before| && Extends(before, before') && inst' == inst.(isLatest := inst'.isLatest)
    ensures Explained(def, reqs, before', inst')
  {
    if NoneOf(before, inst.key) {
      assert forall r <- before' :: exists i :: 0 <= i < |before| && r == before'[i] && before[i] in before;
    } else {
      var src, req :| src in before && req in reqs && From(def, req, src, inst);
      var i :| 0 <= i < |before| && before[i] == src;
      FromIgnoresFlags(def, req, src, inst, before'[i], inst');
      assert before'[i] in before' && before'[i].key == inst.key;
    }
  }

  lemma InsertedHistory(def: Definition, reqs: seq<Request>, rows: seq<Instance>, inst: Instance)
    requires History(def, reqs, rows) && WellFormed(inst) && Explained(def, reqs, rows, inst)
    ensures History(def, reqs, Inserted(rows, inst))
  {
    var after := Inserted(rows, inst);
    InsertedSound(rows, inst);
    forall n | 0 <= n < |after| ensures ExplainedAt(def, reqs, after, n) {
      if n < |rows| {
        assert ExplainedAt(def, reqs, rows, n);
        ExplainedIgnoresFlags(def, reqs, rows[..n], rows[n], after[..n], after[n]);
      } else {
        StoredExplained(def, reqs, rows, inst);
        assert after[..n] == Unflagged(rows, inst);
      }
    }
  }

  lemma StoredExplained(def: Definition, reqs: seq<Request>, rows: seq<Instance>, inst: Instance)
    requires Explained(def, reqs, rows, inst)
    ensures Explained(def, reqs, Unflagged(rows, inst), Stored(rows, inst))
  {
    var after, row := Unflagged(rows, inst), Stored(rows, inst);
    if NoneOf(rows, inst.key) {
      assert forall r <- after :: exists i :: 0 <= i < |rows| && r == after[i] && rows[i] in rows;
    } else {
      var src, req :| src in rows && req in reqs && From(def, req, src, inst);
      var i :| 0 <= i < |rows| && rows[i] == src;
      var checked, taken :| FromBy(def, req, src, inst, checked, taken);
      assert FromBy(def, req, after[i], row, checked, taken);
      assert after[i] in after && after[i].key == row.key;
    }
  }

  lemma MoreRequests(def: Definition, reqs: seq<Request>, more: seq<Request>, rows: seq<Instance>)
    requires History(def, reqs, rows) && forall r <- reqs :: r in more
    ensures History(def, more, rows)
  {
    forall n | 0 <= n < |rows| ensures ExplainedAt(def, more, rows, n) {
      assert ExplainedAt(def, reqs, rows, n);
    }
  }

  // ---------------------------------------------------------------- lookups

  lemma {:induction false} NamedIn(actions: seq<Action>, name: string)
    ensures match FirstNamed(actions, name)
            case Some(a) => a in actions && a.name == name && LastNamed(actions, name).Some?
            case None => forall a <- actions :: a.name != name
  {
    if actions != [] {
      NamedIn(actions[1..], name);
      LastNamedIn(actions, name);
      assert actions == [actions[0]] + actions[1..];
    }
  }

  lemma {:induction false} LastNamedIn(actions: seq<Action>, name: string)
    ensures match LastNamed(actions, name)
            case Some(a) => a in actions && a.name == name
            case None => forall a <- actions :: a.name != name
  {
    if actions != [] {
      var front := actions[..|actions| - 1];
      LastNamedIn(front, name);
      assert actions == front + [actions[|actions| - 1]];
    }
  }

  lemma {:induction false} ActionsFromIn(actions: seq<Action>, tenant: string, state: string)
    ensures forall a :: a in ActionsFrom(actions, tenant, state)
                   <==> a in actions && a.tenant == tenant && a.currentState == state
  {
    if actions != [] {
      ActionsFromIn(actions[1..], tenant, state);
      assert actions == [actions[0]] + actions[1..];
    }
  }

  lemma OfferedLeaves(def: Definition, tenant: string, state: string, name: string)
    ensures Offered(def, tenant, state, name).Some? ==>
              Leaves(def, Offered(def, tenant, state, name).value, tenant, state, name)
    ensures Followed(def, tenant, state, name).Some? ==>
              Leaves(def, Followed(def, tenant, state, name).value, tenant, state, name)
    ensures Offered(def, tenant, state, name).Some? <==> Followed(def, tenant, state, name).Some?
  {
    ActionsFromIn(def.actions, tenant, state);
    NamedIn(ActionsFrom(def.actions, tenant, state), name);
    LastNamedIn(ActionsFrom(def.actions, tenant, state), name);
  }

  lemma {:induction false} StateByIDIs(states: seq<State>, tenant: string, id: string)
    ensures StateByID(states, tenant, id).Some? ==>
              StateByID(states, tenant, id).value in states && StateByID(states, tenant, id).value.id == id
  {
    if states != [] {
      StateByIDIs(states[1..], tenant, id);
    }
  }

  /** A key with any row has a linear row: its first. */
  lemma HasLinear(def: Definition, reqs: seq<Request>, rows: seq<Instance>, key: Key)
    requires History(def, reqs, rows) && !NoneOf(rows, key)
    ensures exists r <- rows :: IsLinear(r, key)
  {
    var n := FirstOfKey(rows, key);
    assert ExplainedAt(def, reqs, rows, n);
    assert rows[n] in rows;
  }

  lemma NoLinearNoRows(def: Definition, reqs: seq<Request>, rows: seq<Instance>, key: Key)
    requires History(def, reqs, rows) && LatestLinear(rows, key).None?
    ensures NoneOf(rows, key)
  {
    FlagIsLastLinear(rows, key);
    LastLinearFound(rows, key);
    if !NoneOf(rows, key) {
      HasLinear(def, reqs, rows, key);
    }
  }

  lemma FirstOfKey(rows: seq<Instance>, key: Key) returns (n: nat)
    requires !NoneOf(rows, key)
    ensures n < |rows| && rows[n].key == key && NoneOf(rows[..n], key)
  {
    n := 0;
    while rows[n].key != key
      invariant n < |rows| && NoneOf(rows[..n], key)
      invariant exists i :: n <= i < |rows| && rows[i].key == key
      decreases |rows| - n
    {
      assert rows[..n + 1] == rows[..n] + [rows[n]];
      n := n + 1;
    }
  }

  // ---------------------------------------------------------------- one transition

  /** The row acted on is in the history it is acted on in. */
  ghost predicate Has(rows: seq<Instance>, existing: Instance, key: Key) {
    && existing.id < |rows| && existing.key == key && WellFormed(existing)
    && rows[existing.id] == existing.(isLatest := rows[existing.id].isLatest)
  }

  lemma {:induction false} ListedAreRows(rows: seq<Instance>, key: Key)
    ensures forall r <- ActiveParallel(rows, key) :: r in rows && IsActiveBranch(r, key)
  {
    if rows != [] {
      ListedAreRows(rows[..|rows| - 1], key);
      assert rows == rows[..|rows| - 1] + [rows[|rows| - 1]];
    }
  }

  lemma {:induction false} OfferingIsListed(def: Definition, listed: seq<Instance>, tenant: string, action: string)
    ensures match Offering(def, listed, tenant, action)
            case Some(r) => r in listed && Offered(def, tenant, r.currentState, action).Some?
            case None => forall r <- listed :: Offered(def, tenant, r.currentState, action).None?
  {
    if listed != [] {
      OfferingIsListed(def, listed[1..], tenant, action);
      assert listed == [listed[0]] + listed[1..];
    }
  }

  lemma {:induction false} FirstInitialIs(states: seq<State>)
    ensures FirstInitial(states).Some? ==> FirstInitial(states).value in states
  {
    if states != [] {
      FirstInitialIs(states[1..]);
    }
  }

  lemma RowInHas(rows: seq<Instance>, r: Instance, key: Key)
    requires Sound(rows) && r in rows && r.key == key
    ensures Has(rows, r, key) && rows[r.id] == r
  {
    var i :| 0 <= i < |rows| && rows[i] == r;
    assert SoundAt(rows, i);
  }

  lemma PickedHistory(def: Definition, reqs: seq<Request>, rows: seq<Instance>, req: Request)
    requires History(def, reqs, rows)
    ensures match Picked(def, rows, req)
            case Err(_) => true
            case Ok((rows', existing)) => History(def, reqs, rows') && Has(rows', existing, req.key) && Extends(rows, rows')
  {
    ListedAreRows(rows, req.key);
    OfferingIsListed(def, ActiveParallel(rows, req.key), req.key.tenant, req.action);
    LatestLinearFound(rows, req.key);
    if BranchFor(def, rows, req).Some? {
      RowInHas(rows, BranchFor(def, rows, req).value, req.key);
    } else if LatestLinear(rows, req.key).Some? {
      RowInHas(rows, LatestLinear(rows, req.key).value, req.key);
    } else if InitialFor(def, req.key).Ok? {
      NoLinearNoRows(def, reqs, rows, req.key);
      InsertedHistory(def, reqs, rows, InitialRow(req, InitialFor(def, req.key).value.id));
    }
  }

  /** Longer by rows that answer the request from the row acted on. */
  ghost predicate Grown(def: Definition, reqs: seq<Request>, req: Request, existing: Instance, before: seq<Instance>,
                        after: seq<Instance>) {
    && History(def, reqs, after) && Extends(before, after)
    && forall n | |before| <= n < |after| :: From(def, req, existing, after[n])
  }

  lemma NothingGrown(def: Definition, reqs: seq<Request>, req: Request, existing: Instance, rows: seq<Instance>)
    requires History(def, reqs, rows)
    ensures Grown(def, reqs, req, existing, rows, rows)
  {
  }

  lemma HasAfterInsert(rows: seq<Instance>, existing: Instance, key: Key, inst: Instance)
    requires Has(rows, existing, key)
    ensures Has(Inserted(rows, inst), existing, key)
  {
  }

  lemma AnswerExplained(def: Definition, reqs: seq<Request>, rows: seq<Instance>, existing: Instance, req: Request,
                        inst: Instance, checked: Action, taken: Action)
    requires Has(rows, existing, req.key) && req in reqs
    requires FromBy(def, req, existing, inst, checked, taken)
    ensures Explained(def, reqs, rows, inst)
  {
    var src := rows[existing.id];
    assert FromBy(def, req, src, inst, checked, taken);
    assert src in rows && From(def, req, src, inst);
  }

  /** Appending a row that answers the request from the row acted on. */
  lemma AnswerAppended(def: Definition, reqs: seq<Request>, rows: seq<Instance>, existing: Instance, req: Request,
                       inst: Instance, checked: Action, taken: Action)
    requires History(def, reqs, rows) && Has(rows, existing, req.key) && req in reqs
    requires WellFormed(inst) && FromBy(def, req, existing, inst, checked, taken)
    ensures Grown(def, reqs, req, existing, rows, Inserted(rows, inst)) && Has(Inserted(rows, inst), existing, req.key)
  {
    assert FromBy(def, req, existing, Stored(rows, inst), checked, taken);
    AnswerExplained(def, reqs, rows, existing, req, inst, checked, taken);
    InsertedHistory(def, reqs, rows, inst);
    HasAfterInsert(rows, existing, req.key, inst);
  }

  ghost predicate Checks(def: Definition, existing: Instance, req: Request, a: Action, target: State) {
    && Offered(def, req.key.tenant, existing.currentState, req.action) == Some(a)
    && GuardOk(req.attributes, a.required)
    && StateByID(def.states, req.key.tenant, a.nextState) == Some(target)
  }

  lemma LinearHistory(def: Definition, reqs: seq<Request>, db: Db, existing: Instance, req: Request, a: Action,
                      target: State)
    requires History(def, reqs, db.rows) && Has(db.rows, existing, req.key) && req in reqs
    requires Checks(def, existing, req, a, target)
    ensures Grown(def, reqs, req, existing, db.rows, LinearStep(def, db, existing, req).db.rows)
  {
    NothingGrown(def, reqs, req, existing, db.rows);
    OfferedLeaves(def, req.key.tenant, existing.currentState, req.action);
    var taken := Followed(def, req.key.tenant, existing.currentState, req.action).value;
    var inst := LinearRow(existing, req, taken.nextState);
    assert FromBy(def, req, existing, inst, a, taken);
    AnswerAppended(def, reqs, db.rows, existing, req, inst, a, taken);
  }

  lemma {:induction false} ForkHistory(def: Definition, reqs: seq<Request>, rows: seq<Instance>, existing: Instance,
                                       req: Request, branches: seq<string>, a: Action, target: State)
    requires History(def, reqs, rows) && Has(rows, existing, req.key) && req in reqs
    requires Checks(def, existing, req, a, target) && target.isParallel
    requires forall b <- branches :: b in target.branchStates
    ensures Grown(def, reqs, req, existing, rows, ForkRows(def, rows, existing, req, branches).0)
    decreases |branches|
  {
    if branches != [] {
      var state := StateByCode(def.states, req.key.tenant, req.key.process, branches[0]);
      if state.Some? {
        var inst := BranchRow(existing, req, branches[0], state.value.id);
        OfferedLeaves(def, req.key.tenant, existing.currentState, req.action);
        assert branches[0] in target.branchStates;
        assert FromBy(def, req, existing, inst, a, a);
        AnswerAppended(def, reqs, rows, existing, req, inst, a, a);
        ForkHistory(def, reqs, Inserted(rows, inst), existing, req, branches[1..], a, target);
        GrownTwice(def, reqs, req, existing, rows, Inserted(rows, inst),
                   ForkRows(def, Inserted(rows, inst), existing, req, branches[1..]).0);
      }
    }
  }

  lemma GrownTwice(def: Definition, reqs: seq<Request>, req: Request, existing: Instance, a: seq<Instance>,
                   b: seq<Instance>, c: seq<Instance>)
    requires Grown(def, reqs, req, existing, a, b) && Grown(def, reqs, req, existing, b, c)
    ensures Grown(def, reqs, req, existing, a, c)
  {
    forall n | |a| <= n < |c| ensures From(def, req, existing, c[n]) {
      if n < |b| { FromIgnoresFlags(def, req, existing, b[n], existing, c[n]); }
    }
  }

  lemma ForkStepRows(def: Definition, db: Db, existing: Instance, target: State, req: Request)
    ensures ForkStep(def, db, existing, target, req).db.rows == db.rows
         || ForkStep(def, db, existing, target, req).db.rows
            == ForkRows(def, db.rows, existing, req, target.branchStates).0
  {
  }

  lemma ForkStepHistory(def: Definition, reqs: seq<Request>, db: Db, existing: Instance, req: Request, a: Action,
                        target: State)
    requires History(def, reqs, db.rows) && Has(db.rows, existing, req.key) && req in reqs
    requires Checks(def, existing, req, a, target) && target.isParallel
    ensures Grown(def, reqs, req, existing, db.rows, ForkStep(def, db, existing, target, req).db.rows)
  {
    NothingGrown(def, reqs, req, existing, db.rows);
    ForkStepRows(def, db, existing, target, req);
    ForkHistory(def, reqs, db.rows, existing, req, target.branchStates, a, target);
  }

  lemma {:induction false} GetExecIs(execs: seq<Execution>, key: Key, parallelState: string)
    ensures match GetExec(execs, key, parallelState)
            case Some(e) => e in execs && IsExec(e, key, parallelState)
            case None => forall e <- execs :: !IsExec(e, key, parallelState)
  {
    if execs != [] {
      GetExecIs(execs[1..], key, parallelState);
      assert execs == [execs[0]] + execs[1..];
    }
  }

  /** A join appends nothing, a waiting row, or a merged row. */
  lemma JoinStepRow(db: Db, existing: Instance, target: State, req: Request) returns (inst: Instance)
    ensures JoinStep(db, existing, target, req).db.rows == db.rows
         || JoinStep(db, existing, target, req).db.rows == Inserted(db.rows, inst)
    ensures existing.branchId.Some? ==> WellFormed(inst)
    ensures inst.key == existing.key && inst.action == req.action && inst.currentState == target.id
    ensures inst.escalated == IsEscalation(req)
    ensures inst.isParallelBranch ==> inst.branchId == existing.branchId
  {
    inst := WaitingRow(existing, req, target.id);
    if existing.branchId.Some? && FirstRunning(db.execs, existing.key).Some? {
      var exec := FirstRunning(db.execs, existing.key).value;
      var execs := Marked(db.execs, existing.key, existing.branchId.value);
      GetExecIs(execs, existing.key, exec.parallelState);
      var updated := GetExec(execs, existing.key, exec.parallelState);
      if updated.Some? && |updated.value.completed| >= |updated.value.active| {
        inst := MergedRow(updated.value, ActiveParallel(db.rows, updated.value.key), req, target.id);
      }
    }
  }

  lemma JoinHistory(def: Definition, reqs: seq<Request>, db: Db, existing: Instance, req: Request, a: Action,
                    target: State)
    requires History(def, reqs, db.rows) && Has(db.rows, existing, req.key) && req in reqs
    requires Checks(def, existing, req, a, target)
    ensures Grown(def, reqs, req, existing, db.rows, JoinStep(db, existing, target, req).db.rows)
  {
    NothingGrown(def, reqs, req, existing, db.rows);
    if existing.branchId.Some? {
      var inst := JoinStepRow(db, existing, target, req);
      OfferedLeaves(def, req.key.tenant, existing.currentState, req.action);
      StateByIDIs(def.states, req.key.tenant, a.nextState);
      assert FromBy(def, req, existing, inst, a, a);
      AnswerAppended(def, reqs, db.rows, existing, req, inst, a, a);
    }
  }

  lemma ActedHistory(def: Definition, reqs: seq<Request>, db: Db, existing: Instance, req: Request)
    requires History(def, reqs, db.rows) && Has(db.rows, existing, req.key) && req in reqs
    ensures Grown(def, reqs, req, existing, db.rows, Acted(def, db, existing, req).db.rows)
  {
    var offered := Offered(def, req.key.tenant, existing.currentState, req.action);
    if offered.Some? && GuardOk(req.attributes, offered.value.required) {
      var found := StateByID(def.states, req.key.tenant, offered.value.nextState);
      if found.Some? {
        var a, target := offered.value, found.value;
        if target.isParallel {
          ForkStepHistory(def, reqs, db, existing, req, a, target);
        } else if target.isJoin {
          JoinHistory(def, reqs, db, existing, req, a, target);
        } else {
          LinearHistory(def, reqs, db, existing, req, a, target);
        }
      }
    }
  }
}
