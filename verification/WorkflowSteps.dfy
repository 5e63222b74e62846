/** Which row acts, and what decides each outcome. */
module WorkflowSteps {
  import opened Prelude
  import opened AttributeGuard
  import opened WorkflowModel
  import opened WorkflowHistory
  import opened WorkflowOrigins
  import opened WorkflowJoin
  import opened WorkflowRows

  // ---------------------------------------------------------------- who acts

  /** An action of this name leaves the row's state. */
  ghost predicate Offers(def: Definition, tenant: string, state: string, name: string) {
    exists a <- def.actions :: a.tenant == tenant && a.currentState == state && a.name == name
  }

  /** The p-th row is the last one of its branch, and offers the action. */
  ghost predicate BranchOffers(def: Definition, rows: seq<Instance>, req: Request, p: nat) {
    && p < |rows| && rows[p].key == req.key && rows[p].isParallelBranch
    && (forall q | p < q < |rows| :: !(rows[q].key == req.key && rows[q].isParallelBranch
                                       && rows[q].branchId == rows[p].branchId))
    && Offers(def, req.key.tenant, rows[p].currentState, req.action)
  }

  ghost predicate LinearAt(rows: seq<Instance>, key: Key, p: nat) {
    p < |rows| && rows[p].key == key && !rows[p].isParallelBranch
  }

  predicate InProcess(s: State, key: Key) { s.tenant == key.tenant && s.process == key.process }

  lemma OffersIff(def: Definition, tenant: string, state: string, name: string)
    ensures Offered(def, tenant, state, name).Some? <==> Offers(def, tenant, state, name)
  {
    FirstByPlace(def.actions, tenant, state, name);
  }

  lemma ActiveIsLast(rows: seq<Instance>, key: Key, p: nat)
    requires Sound(rows) && p < |rows|
    ensures IsActiveBranch(rows[p], key)
       <==> && rows[p].key == key && rows[p].isParallelBranch
            && forall q | p < q < |rows| ::
                 !(rows[q].key == key && rows[q].isParallelBranch && rows[q].branchId == rows[p].branchId)
  {
    assert SoundAt(rows, p);
    forall q | p < q < |rows| ensures WellFormed(rows[q]) { assert SoundAt(rows, q); }
    if rows[p].key == key && rows[p].isParallelBranch && Superseded(rows, p) {
      var q :| p < q < |rows| && SameClass(rows[p], rows[q]);
      assert rows[q].key == key;
    }
  }

  ghost predicate ActiveOffers(def: Definition, r: Instance, req: Request) {
    IsActiveBranch(r, req.key) && Offers(def, req.key.tenant, r.currentState, req.action)
  }

  /** The newest of the first `n` rows that is active and offers the action. */
  ghost predicate NewestOffering(def: Definition, rows: seq<Instance>, n: nat, req: Request, p: nat)
    requires n <= |rows|
  {
    p < n && ActiveOffers(def, rows[p], req) && forall q | p < q < n :: !ActiveOffers(def, rows[q], req)
  }

  lemma OneMoreListed(def: Definition, rows: seq<Instance>, n: nat, req: Request)
    requires 0 < n <= |rows|
    ensures Offering(def, ActiveParallel(rows[..n], req.key), req.key.tenant, req.action)
         == if ActiveOffers(def, rows[n - 1], req) then Some(rows[n - 1])
            else Offering(def, ActiveParallel(rows[..n - 1], req.key), req.key.tenant, req.action)
  {
    hide Offers, Offered, IsActiveBranch;
    var last, rest := rows[n - 1], ActiveParallel(rows[..n - 1], req.key);
    assert rows[..n][..n - 1] == rows[..n - 1];
    OffersIff(def, req.key.tenant, last.currentState, req.action);
    assert ([last] + rest)[1..] == rest && [] + rest == rest;
  }

  ghost predicate NoneOffers(def: Definition, rows: seq<Instance>, n: nat, req: Request)
    requires n <= |rows|
  {
    forall p | 0 <= p < n :: !ActiveOffers(def, rows[p], req)
  }

  lemma NewestNext(def: Definition, rows: seq<Instance>, n: nat, req: Request)
    requires n < |rows|
    ensures ActiveOffers(def, rows[n], req) ==> NewestOffering(def, rows, n + 1, req, n)
    ensures !ActiveOffers(def, rows[n], req) ==>
              && (NoneOffers(def, rows, n, req) ==> NoneOffers(def, rows, n + 1, req))
              && forall p: nat :: NewestOffering(def, rows, n, req, p) ==> NewestOffering(def, rows, n + 1, req, p)
  {
    hide ActiveOffers;
  }

  lemma {:induction false} OfferingPlace(def: Definition, rows: seq<Instance>, n: nat, req: Request)
    requires n <= |rows|
    ensures match Offering(def, ActiveParallel(rows[..n], req.key), req.key.tenant, req.action)
            case Some(r) => exists p: nat :: p < n && NewestOffering(def, rows, n, req, p) && rows[p] == r
            case None => NoneOffers(def, rows, n, req)
  {
    hide ActiveOffers, NewestOffering;
    if n > 0 {
      hide Offering, ActiveParallel, NoneOffers;
      OfferingPlace(def, rows, n - 1, req);
      OneMoreListed(def, rows, n, req);
      NewestNext(def, rows, n - 1, req);
    } else {
      assert rows[..0] == [];
    }
  }

  lemma BranchPlace(def: Definition, rows: seq<Instance>, req: Request)
    requires Sound(rows)
    ensures match BranchFor(def, rows, req)
            case Some(r) => req.action != "" && exists p: nat ::
              && p < |rows| && BranchOffers(def, rows, req, p) && rows[p] == r
              && forall q: nat | p < q :: !BranchOffers(def, rows, req, q)
            case None => req.action == "" || forall p: nat :: !BranchOffers(def, rows, req, p)
  {
    hide Offers;
    assert rows[..|rows|] == rows;
    OfferingPlace(def, rows, |rows|, req);
    forall p: nat | p < |rows|
      ensures BranchOffers(def, rows, req, p)
         <==> ActiveOffers(def, rows[p], req) {
      ActiveIsLast(rows, req.key, p);
    }
  }

  /**
   * The row acted on: the newest last row of a branch that offers the action; else the last linear row, unless the request
   * names another state; else a first row in an initial state of the process.
   */
  lemma PickedIs(def: Definition, rows: seq<Instance>, req: Request) returns (p: nat)
    requires Sound(rows)
    ensures if req.action != "" && exists q: nat :: BranchOffers(def, rows, req, q) then
              && BranchOffers(def, rows, req, p) && (forall q: nat | p < q :: !BranchOffers(def, rows, req, q))
              && Picked(def, rows, req) == Ok((rows, rows[p]))
            else if exists q: nat :: LinearAt(rows, req.key, q) then
              && LinearAt(rows, req.key, p) && (forall q: nat | p < q :: !LinearAt(rows, req.key, q))
              && Picked(def, rows, req) == if req.currentState.Some? && req.currentState.value != rows[p].currentState
                                           then Err(StateMismatch) else Ok((rows, rows[p]))
            else if forall s <- def.states :: !InProcess(s, req.key) then Picked(def, rows, req) == Err(NoStates)
            else if forall s <- def.states | InProcess(s, req.key) :: !s.isInitial then
              Picked(def, rows, req) == Err(NoInitialState)
            else
              && Picked(def, rows, req).Ok? && |Picked(def, rows, req).value.0| == |rows| + 1
              && Picked(def, rows, req).value.1 == Picked(def, rows, req).value.0[|rows|]
  {
    hide BranchOffers, BranchFor, Offers, InitialFor, LatestLinear, LastLinear;
    p := 0;
    BranchPlace(def, rows, req);
    FlagIsLastLinear(rows, req.key);
    LastLinearFound(rows, req.key);
    if BranchFor(def, rows, req).Some? {
      p :| (&& p < |rows| && BranchOffers(def, rows, req, p) && rows[p] == BranchFor(def, rows, req).value
            && forall q: nat | p < q :: !BranchOffers(def, rows, req, q));
    } else if LastLinear(rows, req.key).Some? {
      p :| LastLinearAt(rows, req.key, p) && rows[p] == LastLinear(rows, req.key).value;
      assert LinearAt(rows, req.key, p);
    } else {
      assert forall q: nat | q < |rows| :: rows[q] in rows;
      InitialIs(def, req.key);
    }
  }

  lemma InitialIs(def: Definition, key: Key)
    ensures if forall s <- def.states :: !InProcess(s, key) then InitialFor(def, key) == Err(NoStates)
            else if forall s <- def.states | InProcess(s, key) :: !s.isInitial then
              InitialFor(def, key) == Err(NoInitialState)
            else InitialFor(def, key).Ok?
  {
    InitialByPlace(def.states, key);
    StatesOfIs(def.states, key);
    if StatesOf(def.states, key.tenant, key.process) != [] {
      assert StatesOf(def.states, key.tenant, key.process)[0] in StatesOf(def.states, key.tenant, key.process);
    }
  }

  lemma {:induction false} StatesOfIs(states: seq<State>, key: Key)
    ensures forall s :: s in StatesOf(states, key.tenant, key.process) <==> s in states && InProcess(s, key)
  {
    if states != [] {
      StatesOfIs(states[1..], key);
      assert states == [states[0]] + states[1..];
    }
  }

  /** The rows listed for a key: its flagged branch rows, those of completed branches aside. */
  lemma {:induction false} ListedIff(rows: seq<Instance>, key: Key, r: Instance)
    ensures r in ActiveParallel(rows, key) <==>
              && r in rows && r.key == key && r.isParallelBranch && r.isLatest
              && (r.status == Active || r.status == WaitingForJoin)
  {
    if rows != [] {
      var front, last := rows[..|rows| - 1], rows[|rows| - 1];
      ListedIff(front, key, r);
      assert rows == front + [last];
    }
  }

  // ---------------------------------------------------------------- the rows of a fork

  predicate HasCode(s: State, key: Key, code: string) { InProcess(s, key) && s.code == code }

  /** A row written for a branch, in the branch's state, below the row acted on; the flag is told by the whole history. */
  ghost predicate BranchWritten(def: Definition, w: Instance, id: nat, existing: Instance, req: Request, code: string) {
    && w.id == id && Answering(w, req) && w.status == Active && w.assignees == req.assignees
    && w.parentId == Some(existing.id) && w.isParallelBranch && w.branchId == Some(code)
    && exists s <- def.states :: HasCode(s, req.key, code) && w.currentState == s.id
  }

  /** Rows for the first branches, in order, up to the first without a state. */
  ghost predicate BranchesWritten(def: Definition, rows: seq<Instance>, after: seq<Instance>, existing: Instance,
                                  req: Request, branches: seq<string>) {
    && |rows| <= |after| <= |rows| + |branches| && Extends(rows, after[..|rows|])
    && (forall i | 0 <= i < |after| - |rows| ::
          BranchWritten(def, after[|rows| + i], |rows| + i, existing, req, branches[i]))
    && (|after| < |rows| + |branches| ==> forall s <- def.states :: !HasCode(s, req.key, branches[|after| - |rows|]))
  }

  lemma {:induction false} ForkRowsHold(def: Definition, rows: seq<Instance>, existing: Instance, req: Request,
                                        branches: seq<string>)
    requires existing.key == req.key
    ensures var (after, ok) := ForkRows(def, rows, existing, req, branches);
            BranchesWritten(def, rows, after, existing, req, branches) && (ok <==> |after| == |rows| + |branches|)
    decreases |branches|
  {
    if branches != [] {
      hide StateByCode, BranchesWritten;
      StateByCodeFound(def.states, req.key.tenant, req.key.process, branches[0]);
      var state := StateByCode(def.states, req.key.tenant, req.key.process, branches[0]);
      if state.Some? {
        var next := Inserted(rows, BranchRow(existing, req, branches[0], state.value.id));
        ForkRowsHold(def, next, existing, req, branches[1..]);
        FirstBranchWritten(def, rows, existing, req, branches, state.value,
                           ForkRows(def, next, existing, req, branches[1..]).0);
      } else {
        NoBranchWritten(def, rows, existing, req, branches);
      }
    } else {
      assert BranchesWritten(def, rows, rows, existing, req, []);
    }
  }

  lemma NoBranchWritten(def: Definition, rows: seq<Instance>, existing: Instance, req: Request, branches: seq<string>)
    requires branches != [] && forall s <- def.states :: !HasCode(s, req.key, branches[0])
    ensures BranchesWritten(def, rows, rows, existing, req, branches)
  {
  }

  lemma FirstBranchWritten(def: Definition, rows: seq<Instance>, existing: Instance, req: Request, branches: seq<string>,
                           state: State, after: seq<Instance>)
    requires existing.key == req.key && branches != [] && state in def.states && HasCode(state, req.key, branches[0])
    requires BranchesWritten(def, Inserted(rows, BranchRow(existing, req, branches[0], state.id)), after, existing, req,
                             branches[1..])
    ensures BranchesWritten(def, rows, after, existing, req, branches)
    ensures |rows| < |after|
  {
    hide HasCode;
    var row := BranchRow(existing, req, branches[0], state.id);
    var next := Inserted(rows, row);
    InsertAppends(rows, row);
    EscalationIff(req);
    assert after[..|next|][|rows|] == after[|rows|];
    assert next[|rows|] == Stored(rows, row);
    assert BranchWritten(def, after[|rows|], |rows|, existing, req, branches[0]);
    forall i | 0 <= i < |after| - |rows|
      ensures BranchWritten(def, after[|rows| + i], |rows| + i, existing, req, branches[i])
    {
      if i > 0 {
        assert |rows| + i == |next| + (i - 1) && branches[1..][i - 1] == branches[i];
      }
    }
    forall i | 0 <= i < |rows| ensures after[..|rows|][i] == rows[i].(isLatest := after[i].isLatest) {
      assert after[..|next|][i] == after[i];
    }
  }

  // ---------------------------------------------------------------- what decides a fork, a join and a linear step

  predicate JoinsProcess(s: State, parallel: State) {
    s.tenant == parallel.tenant && s.process == parallel.process && s.isJoin
  }

  ghost predicate FirstJoinAt(states: seq<State>, parallel: State, i: nat) {
    i < |states| && JoinsProcess(states[i], parallel) && forall j | 0 <= j < i :: !JoinsProcess(states[j], parallel)
  }

  lemma {:induction false} JoinByPlace(states: seq<State>, parallel: State)
    ensures match FirstJoin(StatesOf(states, parallel.tenant, parallel.process))
            case None => forall s <- states :: !JoinsProcess(s, parallel)
            case Some(s) => exists i: nat :: FirstJoinAt(states, parallel, i) && states[i] == s
  {
    if states != [] {
      JoinByPlace(states[1..], parallel);
      var rest := StatesOf(states[1..], parallel.tenant, parallel.process);
      assert ([states[0]] + rest)[1..] == rest && [] + rest == rest;
      if JoinsProcess(states[0], parallel) {
        assert FirstJoinAt(states, parallel, 0);
      } else if FirstJoin(rest).Some? {
        var i: nat :| FirstJoinAt(states[1..], parallel, i) && states[1..][i] == FirstJoin(rest).value;
        assert FirstJoinAt(states, parallel, i + 1);
      }
    }
  }

  /** A new execution: no branch completed, and joined in the first join state of the process. */
  ghost predicate NewExecution(def: Definition, e: Execution, id: nat, key: Key, target: State) {
    && e.id == id && e.key == key && e.parallelState == target.id && e.active == target.branchStates
    && e.completed == [] && e.status == Running
    && exists i: nat :: FirstJoinAt(def.states, target, i) && e.joinState == def.states[i].id
  }

  /** Refused without a join state or when the key had this fork before; else the execution is there whatever rows follow. */
  ghost predicate ForkOutcome(def: Definition, db: Db, out: Outcome, existing: Instance, target: State, req: Request) {
    if forall s <- def.states :: !JoinsProcess(s, target) then out == Outcome(db, Err(NoJoinState), Stay)
    else if exists e <- db.execs :: e.key == req.key && e.parallelState == target.id then
      out == Outcome(db, Err(DuplicateExecution), Stay)
    else
      && out.kind == Fork && |out.db.execs| == |db.execs| + 1 && out.db.execs[..|db.execs|] == db.execs
      && NewExecution(def, out.db.execs[|db.execs|], |db.execs|, req.key, target)
      && BranchesWritten(def, db.rows, out.db.rows, existing, req, target.branchStates)
      && if |out.db.rows| < |db.rows| + |target.branchStates| then out.result == Err(NoBranchState)
         else if target.branchStates == [] then out.result == Err(NoFirstBranch)
         else out.result.Ok? && |out.db.rows| > |db.rows|
              && out.result.value == out.db.rows[|db.rows|].(isLatest := true)
  }

  lemma ForkIs(def: Definition, db: Db, existing: Instance, target: State, req: Request)
    requires existing.key == req.key
    ensures ForkOutcome(def, db, ForkStep(def, db, existing, target, req), existing, target, req)
  {
    hide BranchesWritten, StateByCode, Inserted;
    JoinByPlace(def.states, target);
    GetExecIs(db.execs, req.key, target.id);
    ForkRowsHold(def, db.rows, existing, req, target.branchStates);
    var branches, rows := target.branchStates, ForkRows(def, db.rows, existing, req, target.branchStates).0;
    BranchesFit(def, db.rows, rows, existing, req, branches);
    if JoinStateFor(def, target).Some? {
      var e := NewExec(db.execs, req.key, target, JoinStateFor(def, target).value);
      assert NewExecution(def, e, |db.execs|, req.key, target);
    }
    if branches != [] && |rows| == |db.rows| + |branches| {
      FirstReturned(def, db.rows, existing, req, branches);
    }
  }

  lemma BranchesFit(def: Definition, rows: seq<Instance>, after: seq<Instance>, existing: Instance, req: Request,
                    branches: seq<string>)
    requires BranchesWritten(def, rows, after, existing, req, branches)
    ensures |rows| <= |after| <= |rows| + |branches|
  {
  }

  lemma FirstReturned(def: Definition, rows: seq<Instance>, existing: Instance, req: Request, branches: seq<string>)
    requires existing.key == req.key && branches != [] && ForkRows(def, rows, existing, req, branches).1
    ensures var first := StateByCode(def.states, existing.key.tenant, existing.key.process, branches[0]);
            var after := ForkRows(def, rows, existing, req, branches).0;
            && first.Some? && |after| > |rows|
            && Stored(rows, BranchRow(existing, req, branches[0], first.value.id)) == after[|rows|].(isLatest := true)
  {
    hide BranchWritten;
    var first := StateByCode(def.states, existing.key.tenant, existing.key.process, branches[0]).value;
    var next := Inserted(rows, BranchRow(existing, req, branches[0], first.id));
    ForkRowsHold(def, next, existing, req, branches[1..]);
    var after := ForkRows(def, next, existing, req, branches[1..]).0;
    assert after[..|next|][|rows|] == after[|rows|];
  }

  /** The branch completed in a running execution of the key, after those completed before; any other is left. */
  ghost predicate ExecMarked(e: Execution, after: Execution, key: Key, branch: string) {
    && after == e.(completed := after.completed)
    && after.completed == if e.key == key && e.status == Running && branch !in e.completed then e.completed + [branch]
                          else e.completed
  }

  ghost predicate FirstRunningAt(execs: seq<Execution>, key: Key, i: nat) {
    && i < |execs| && execs[i].key == key && execs[i].status == Running
    && forall j | 0 <= j < i :: !(execs[j].key == key && execs[j].status == Running)
  }

  lemma {:induction false} RunningByPlace(execs: seq<Execution>, key: Key)
    ensures match FirstRunning(execs, key)
            case None => forall e <- execs :: !(e.key == key && e.status == Running)
            case Some(e) => exists i: nat :: FirstRunningAt(execs, key, i) && execs[i] == e
  {
    if execs != [] {
      RunningByPlace(execs[1..], key);
      if IsRunning(execs[0], key) {
        assert FirstRunningAt(execs, key, 0);
      } else if FirstRunning(execs[1..], key).Some? {
        var i: nat :| FirstRunningAt(execs[1..], key, i) && execs[1..][i] == FirstRunning(execs[1..], key).value;
        assert FirstRunningAt(execs, key, i + 1);
      }
    }
  }

  /**
   * Refused for a row without a branch and for a key without a running execution; else the branch is marked, and the
   * first running execution is finished, by a merge, exactly if it has as many branches completed as it has.
   */
  ghost predicate JoinOutcome(db: Db, out: Outcome, existing: Instance, req: Request) {
    if existing.branchId == None then out == Outcome(db, Err(NilBranch), Stay)
    else if forall e <- db.execs :: !(e.key == req.key && e.status == Running) then
      out == Outcome(db, Err(NoRunningExecution), Stay)
    else
      && out.result.Ok? && |out.db.execs| == |db.execs|
      && exists i: nat :: FirstRunningAt(db.execs, req.key, i) && JoinedAt(db, out, existing.branchId.value, req, i)
  }

  ghost predicate JoinedAt(db: Db, out: Outcome, branch: string, req: Request, i: nat)
    requires |out.db.execs| == |db.execs| && i < |db.execs|
  {
    && (forall j | 0 <= j < |db.execs| && j != i :: ExecMarked(db.execs[j], out.db.execs[j], req.key, branch))
    && ExecMarked(db.execs[i], out.db.execs[i].(status := Running), req.key, branch)
    && out.kind == (if |out.db.execs[i].completed| < |db.execs[i].active| then Wait else Merge)
    && out.db.execs[i].status == if out.kind == Wait then Running else Finished
  }

  lemma MarkedIs(execs: seq<Execution>, key: Key, branch: string)
    ensures |Marked(execs, key, branch)| == |execs|
    ensures forall j | 0 <= j < |execs| :: ExecMarked(execs[j], Marked(execs, key, branch)[j], key, branch)
  {
  }

  lemma JoinIs(db: Db, existing: Instance, target: State, req: Request)
    requires existing.key == req.key && Keyed(db.execs)
    ensures JoinOutcome(db, JoinStep(db, existing, target, req), existing, req)
  {
    RunningByPlace(db.execs, req.key);
    if existing.branchId.Some? && FirstRunning(db.execs, req.key).Some? {
      var i: nat :| FirstRunningAt(db.execs, req.key, i) && db.execs[i] == FirstRunning(db.execs, req.key).value;
      JoinsAt(db, existing, target, req, i);
    }
  }

  lemma JoinsAt(db: Db, existing: Instance, target: State, req: Request, i: nat)
    requires existing.key == req.key && existing.branchId.Some? && Keyed(db.execs) && FirstRunningAt(db.execs, req.key, i)
    requires FirstRunning(db.execs, req.key) == Some(db.execs[i])
    ensures var out := JoinStep(db, existing, target, req);
            && out.result.Ok? && |out.db.execs| == |db.execs|
            && JoinedAt(db, out, existing.branchId.value, req, i)
  {
    hide MergedRow, WaitingRow, Inserted, Marked, ActiveParallel, Stored, ExecMarked;
    var branch, execs := existing.branchId.value, db.execs;
    var marked := Marked(execs, req.key, branch);
    MarkedIs(execs, req.key, branch);
    MarkedKeyed(execs, req.key, branch);
    GetExecAt(marked, i);
    StillRunning(execs[i], marked[i], req.key, branch);
    var finished := marked[i].(status := Finished);
    assert Replaced(marked, finished) == marked[i := finished];
    assert finished.(status := Running) == marked[i];
  }

  lemma StillRunning(e: Execution, after: Execution, key: Key, branch: string)
    requires ExecMarked(e, after, key, branch)
    ensures after == e.(completed := after.completed)
  {
  }

  /** Refused if the action taken, the last of its name, stays in the row's state. */
  ghost predicate LinearOutcome(def: Definition, db: Db, out: Outcome, existing: Instance, req: Request) {
    exists taken :: IsTaken(def, req.key.tenant, existing.currentState, req.action, taken)
      && if taken.nextState == existing.currentState then out == Outcome(db, Err(NoTransition), Stay)
         else out.kind == Linear && out.result.Ok? && out.db.execs == db.execs
  }

  lemma LinearIs(def: Definition, db: Db, existing: Instance, req: Request)
    requires existing.key == req.key && Offers(def, req.key.tenant, existing.currentState, req.action)
    ensures LinearOutcome(def, db, LinearStep(def, db, existing, req), existing, req)
  {
    LastByPlace(def.actions, req.key.tenant, existing.currentState, req.action);
    var taken := Followed(def, req.key.tenant, existing.currentState, req.action).value;
    assert IsTaken(def, req.key.tenant, existing.currentState, req.action, taken);
  }

  /**
   * What becomes of a request once a row is picked: the first action of its name from the row's state is checked, its
   * guard, then its target; and the target's kind chooses the path.
   */
  lemma TransitionIs(def: Definition, earlier: seq<Request>, db: Db, req: Request) returns (a: Action, target: State)
    requires History(def, earlier, db.rows) && Keyed(db.execs) && Picked(def, db.rows, req).Ok?
    ensures var (rows, existing) := Picked(def, db.rows, req).value;
            var picked, out := Db(rows, db.execs), Transitioned(def, db, req);
            if req.action == "" then out == Outcome(picked, Ok(existing), Stay)
            else if !Offers(def, req.key.tenant, existing.currentState, req.action) then
              out == Outcome(picked, Err(UnknownAction), Stay)
            else
              && IsChecked(def, req.key.tenant, existing.currentState, req.action, a)
              && if !GuardOk(req.attributes, a.required) then out == Outcome(picked, Err(NotAuthorized), Stay)
                 else if forall s <- def.states :: !(s.tenant == req.key.tenant && s.id == a.nextState) then
                   out == Outcome(picked, Err(NoTargetState), Stay)
                 else
                   && target in def.states && target.tenant == req.key.tenant && target.id == a.nextState
                   && if target.isParallel then ForkOutcome(def, picked, out, existing, target, req)
                      else if target.isJoin then JoinOutcome(picked, out, existing, req)
                      else LinearOutcome(def, picked, out, existing, req)
  {
    hide History, Picked, Offers, ForkOutcome, JoinOutcome, LinearOutcome, GuardOk, IsChecked;
    PickedHas(def, earlier, db.rows, req);
    var (rows, existing) := Picked(def, db.rows, req).value;
    a, target := *, *;
    OffersIff(def, req.key.tenant, existing.currentState, req.action);
    FirstByPlace(def.actions, req.key.tenant, existing.currentState, req.action);
    var offered := Offered(def, req.key.tenant, existing.currentState, req.action);
    if offered.Some? {
      a := offered.value;
      CheckedIs(def, req.key.tenant, existing.currentState, req.action, a);
      StateByIDFound(def.states, req.key.tenant, a.nextState);
      var found := StateByID(def.states, req.key.tenant, a.nextState);
      if found.Some? {
        target := found.value;
        ForkIs(def, Db(rows, db.execs), existing, target, req);
        JoinIs(Db(rows, db.execs), existing, target, req);
        LinearIs(def, Db(rows, db.execs), existing, req);
      }
    }
  }

  lemma CheckedIs(def: Definition, tenant: string, state: string, name: string, a: Action)
    requires Offered(def, tenant, state, name) == Some(a)
    ensures IsChecked(def, tenant, state, name, a)
  {
    FirstByPlace(def.actions, tenant, state, name);
  }
}
