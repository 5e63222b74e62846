/** The workflow repositories and the transition service, each method against its specification. */
module WorkflowService {
  import opened Prelude
  import opened GoStrings
  import opened AttributeGuard
  import opened WorkflowModel

  class ProcessInstanceRepository {
    var rows: seq<Instance>

    constructor ()
      ensures rows == []
    {
      rows := [];
    }

    /** Clears the flag on the row it supersedes and appends, in one database transaction. */
    method CreateProcessInstance(inst: Instance) returns (stored: Instance)
      modifies this
      ensures rows == Inserted(old(rows), inst)
      ensures stored == Stored(old(rows), inst) == rows[|rows| - 1]
    {
      var before := rows;
      if inst.isParallelBranch {
        if inst.branchId.Some? {
          rows := seq(|before|, i requires 0 <= i < |before| =>
            var r := before[i];
            if r.key == inst.key && r.isParallelBranch && r.branchId == inst.branchId && r.isLatest
            then r.(isLatest := false) else r);
        }
      } else {
        rows := seq(|before|, i requires 0 <= i < |before| =>
          var r := before[i];
          if r.key == inst.key && !r.isParallelBranch && r.isLatest then r.(isLatest := false) else r);
      }
      assert rows == Unflagged(before, inst);
      stored := inst.(id := |before|, isLatest := true);
      rows := rows + [stored];
    }

    method GetLatestProcessInstanceByEntityID(key: Key) returns (r: Option<Instance>)
      ensures r == LatestLinear(rows, key)
    {
      for i := 0 to |rows|
        invariant LatestLinear(rows, key) == LatestLinear(rows[i..], key)
      {
        if rows[i].key == key && rows[i].isLatest && !rows[i].isParallelBranch {
          return Some(rows[i]);
        }
        assert rows[i..][1..] == rows[i + 1..];
      }
      return None;
    }

    method GetActiveParallelInstances(key: Key) returns (found: seq<Instance>)
      ensures found == ActiveParallel(rows, key)
    {
      found := [];
      for i := 0 to |rows|
        invariant found == ActiveParallel(rows[..i], key)
      {
        var r := rows[i];
        assert rows[..i + 1][..i] == rows[..i];
        if r.key == key && r.isParallelBranch && r.status != Completed && r.isLatest {
          found := [r] + found;
        }
      }
      assert rows[..|rows|] == rows;
    }
  }

  class ParallelExecutionRepository {
    var execs: seq<Execution>

    constructor ()
      ensures execs == []
    {
      execs := [];
    }

    /** The table admits one execution per key and parallel state. */
    method CreateParallelExecution(key: Key, target: State, joinState: State) returns (ok: bool)
      modifies this
      ensures ok == GetExec(old(execs), key, target.id).None?
      ensures execs == if ok then old(execs) + [NewExec(old(execs), key, target, joinState)] else old(execs)
    {
      var taken := GetParallelExecution(key, target.id);
      ok := taken.None?;
      if ok {
        execs := execs + [Execution(|execs|, key, target.id, joinState.id, target.branchStates, [], Running)];
      }
    }

    method GetParallelExecution(key: Key, parallelState: string) returns (r: Option<Execution>)
      ensures r == GetExec(execs, key, parallelState)
    {
      for i := 0 to |execs|
        invariant GetExec(execs, key, parallelState) == GetExec(execs[i..], key, parallelState)
      {
        if execs[i].key == key && execs[i].parallelState == parallelState {
          return Some(execs[i]);
        }
        assert execs[i..][1..] == execs[i + 1..];
      }
      return None;
    }

    method UpdateParallelExecution(e: Execution)
      modifies this
      ensures execs == Replaced(old(execs), e)
    {
      var before := execs;
      execs := seq(|before|, i requires 0 <= i < |before| =>
        if before[i].key.tenant == e.key.tenant && before[i].id == e.id then e else before[i]);
    }

    method MarkBranchCompleted(key: Key, branch: string)
      modifies this
      ensures execs == Marked(old(execs), key, branch)
    {
      var before := execs;
      execs := seq(|before|, i requires 0 <= i < |before| =>
        var e := before[i];
        if e.key == key && e.status == Running && branch !in e.completed
        then e.(completed := e.completed + [branch]) else e);
    }

    method FirstActiveExecution(key: Key) returns (r: Option<Execution>)
      ensures r == FirstRunning(execs, key)
    {
      for i := 0 to |execs|
        invariant FirstRunning(execs, key) == FirstRunning(execs[i..], key)
      {
        if execs[i].key == key && execs[i].status == Running {
          return Some(execs[i]);
        }
        assert execs[i..][1..] == execs[i + 1..];
      }
      return None;
    }
  }

  // ---------------------------------------------------------------- merging helpers

  method RemoveDuplicates(xs: seq<string>) returns (result: seq<string>)
    ensures result == WithoutDuplicates(xs)
  {
    result := [];
    var seen: set<string> := {};
    for i := 0 to |xs|
      invariant result == WithoutDuplicates(xs[..i])
      invariant forall x :: x in seen <==> x in result
    {
      assert xs[..i + 1][..i] == xs[..i];
      if xs[i] !in seen {
        seen := seen + {xs[i]};
        result := result + [xs[i]];
      }
    }
    assert xs[..|xs|] == xs;
  }

  /** `Combine` restricted to the keys already visited. */
  ghost function CombinedSoFar(merged: Attributes, attributes: Attributes, visited: set<string>): Attributes
    requires visited <= attributes.Keys
  {
    map k | k in merged.Keys + visited :: if k in visited then Values(merged, k) + attributes[k] else merged[k]
  }

  lemma VisitOne(merged: Attributes, attributes: Attributes, visited: set<string>, key: string)
    requires visited <= attributes.Keys && key in attributes && key !in visited
    ensures CombinedSoFar(merged, attributes, visited + {key})
         == CombinedSoFar(merged, attributes, visited)[key := Values(merged, key) + attributes[key]]
  {
  }

  lemma VisitedAll(merged: Attributes, attributes: Attributes)
    ensures CombinedSoFar(merged, attributes, attributes.Keys) == Combine(merged, attributes)
  {
    assert forall k <- merged.Keys - attributes.Keys :: Values(merged, k) + Values(attributes, k) == merged[k];
  }

  method MergeInto(merged: Attributes, attributes: Attributes) returns (result: Attributes)
    ensures result == Combine(merged, attributes)
  {
    result := merged;
    var visited: set<string> := {};
    assert CombinedSoFar(merged, attributes, visited) == merged;
    while attributes.Keys - visited != {}
      invariant visited <= attributes.Keys
      invariant result == CombinedSoFar(merged, attributes, visited)
      decreases attributes.Keys - visited
    {
      var key :| key in attributes.Keys - visited;
      VisitOne(merged, attributes, visited, key);
      result := result[key := (if key in result then result[key] else []) + attributes[key]];
      visited := visited + {key};
    }
    assert visited == attributes.Keys;
    VisitedAll(merged, attributes);
  }

  method MergeBranches(drawn: seq<Instance>)
    returns (attributes: Attributes, documents: seq<string>, assignees: seq<string>)
    ensures attributes == MergedAttributes(drawn)
    ensures documents == MergedDocuments(drawn)
    ensures assignees == MergedAssignees(drawn)
  {
    attributes, documents, assignees := map[], [], [];
    for i := 0 to |drawn|
      invariant attributes == MergedAttributes(drawn[..i])
      invariant documents == MergedDocuments(drawn[..i])
      invariant assignees == MergedAssignees(drawn[..i])
    {
      assert drawn[..i + 1][..i] == drawn[..i];
      attributes := MergeInto(attributes, drawn[i].attributes);
      documents := documents + drawn[i].documents;
      assignees := assignees + drawn[i].assignees;
    }
    assert drawn[..|drawn|] == drawn;
  }

  lemma NoneNamed(name: string)
    ensures LastNamed([], name) == None
  {
  }

  lemma LastNamedStep(actions: seq<Action>, i: nat, name: string)
    requires i < |actions|
    ensures LastNamed(actions[..i + 1], name)
         == if actions[i].name == name then Some(actions[i]) else LastNamed(actions[..i], name)
  {
    assert actions[..i + 1][..i] == actions[..i];
  }

  // ---------------------------------------------------------------- the service

  class TransitionService {
    const definition: Definition
    const instances: ProcessInstanceRepository
    const parallel: ParallelExecutionRepository

    constructor (definition: Definition)
      ensures this.definition == definition && Db() == WorkflowModel.Db([], [])
      ensures fresh(instances) && fresh(parallel)
    {
      this.definition := definition;
      instances := new ProcessInstanceRepository();
      parallel := new ParallelExecutionRepository();
    }

    ghost function Db(): WorkflowModel.Db
      reads instances, parallel
    {
      WorkflowModel.Db(instances.rows, parallel.execs)
    }

    method GetStateByID(tenant: string, id: string) returns (r: Option<State>)
      ensures r == StateByID(definition.states, tenant, id)
    {
      var states := definition.states;
      for i := 0 to |states|
        invariant StateByID(states, tenant, id) == StateByID(states[i..], tenant, id)
      {
        if states[i].tenant == tenant && states[i].id == id { return Some(states[i]); }
        assert states[i..][1..] == states[i + 1..];
      }
      return None;
    }

    method FindJoinState(target: State) returns (r: Option<State>)
      ensures r == JoinStateFor(definition, target)
    {
      var states := StatesOf(definition.states, target.tenant, target.process);
      for i := 0 to |states|
        invariant FirstJoin(states) == FirstJoin(states[i..])
      {
        if states[i].isJoin { return Some(states[i]); }
        assert states[i..][1..] == states[i + 1..];
      }
      return None;
    }

    method MatchAction(tenant: string, state: string, name: string) returns (r: Option<Action>)
      ensures r == Offered(definition, tenant, state, name)
    {
      var actions := ActionsFrom(definition.actions, tenant, state);
      for i := 0 to |actions|
        invariant FirstNamed(actions, name) == FirstNamed(actions[i..], name)
      {
        if actions[i].name == name { return Some(actions[i]); }
        assert actions[i..][1..] == actions[i + 1..];
      }
      return None;
    }

    /** The state machine: a transition table filled in declaration order, so a later entry replaces an earlier. */
    method FireEvent(tenant: string, state: string, name: string) returns (next: Option<string>)
      ensures next == (match Followed(definition, tenant, state, name)
                       case None => None
                       case Some(a) => if a.nextState == state then None else Some(a.nextState))
    {
      hide LastNamed, ActionsFrom;
      var actions := ActionsFrom(definition.actions, tenant, state);
      var table: map<string, string> := map[];
      NoneNamed(name);
      assert actions[..0] == [];
      for i := 0 to |actions|
        invariant name in table <==> LastNamed(actions[..i], name).Some?
        invariant name in table ==> table[name] == LastNamed(actions[..i], name).value.nextState
      {
        LastNamedStep(actions, i, name);
        table := table[actions[i].name := actions[i].nextState];
      }
      assert actions[..|actions|] == actions;
      if name !in table || table[name] == state { return None; }
      return Some(table[name]);
    }

    method FindBranchFor(req: Request) returns (r: Option<Instance>)
      ensures r == BranchFor(definition, instances.rows, req)
    {
      if req.action == "" { return None; }
      var listed := instances.GetActiveParallelInstances(req.key);
      for i := 0 to |listed|
        invariant Offering(definition, listed, req.key.tenant, req.action)
               == Offering(definition, listed[i..], req.key.tenant, req.action)
      {
        var a := MatchAction(req.key.tenant, listed[i].currentState, req.action);
        if a.Some? { return Some(listed[i]); }
        assert listed[i..][1..] == listed[i + 1..];
      }
      return None;
    }

    method FindInitialState(key: Key) returns (r: Result<State, Failure>)
      ensures r == InitialFor(definition, key)
    {
      var states := StatesOf(definition.states, key.tenant, key.process);
      if |states| == 0 { return Err(NoStates); }
      for i := 0 to |states|
        invariant FirstInitial(states) == FirstInitial(states[i..])
      {
        if states[i].isInitial { return Ok(states[i]); }
        assert states[i..][1..] == states[i + 1..];
      }
      return Err(NoInitialState);
    }

    method GetOrCreateInstance(req: Request) returns (r: Result<Instance, Failure>)
      modifies instances
      ensures r == (match Picked(definition, old(instances.rows), req)
                    case Err(e) => Err(e)
                    case Ok((rows, existing)) => Ok(existing))
      ensures instances.rows == (match Picked(definition, old(instances.rows), req)
                                 case Err(e) => old(instances.rows)
                                 case Ok((rows, existing)) => rows)
    {
      var branch := FindBranchFor(req);
      if branch.Some? { return Ok(branch.value); }
      var latest := instances.GetLatestProcessInstanceByEntityID(req.key);
      if latest.Some? {
        if req.currentState.Some? && latest.value.currentState != req.currentState.value {
          return Err(StateMismatch);
        }
        return Ok(latest.value);
      }
      var initial := FindInitialState(req.key);
      if initial.Err? { return Err(initial.error); }
      var created := instances.CreateProcessInstance(InitialRow(req, initial.value.id));
      return Ok(created);
    }

    method ListNextActions(tenant: string, state: string) returns (names: seq<string>)
      ensures names == Names(ActionsFrom(definition.actions, tenant, state))
    {
      var actions := ActionsFrom(definition.actions, tenant, state);
      names := [];
      for i := 0 to |actions|
        invariant names == Names(actions)[..i]
      {
        names := names + [actions[i].name];
      }
    }

    method HandleLinear(existing: Instance, req: Request)
      returns (r: Result<Instance, Failure>, nextActions: seq<string>)
      modifies instances
      ensures Db() == LinearStep(definition, old(Db()), existing, req).db
      ensures r == LinearStep(definition, old(Db()), existing, req).result
      ensures nextActions == NextActions(definition, LinearStep(definition, old(Db()), existing, req))
    {
      var next := FireEvent(existing.key.tenant, existing.currentState, req.action);
      if next.None? { return Err(NoTransition), []; }
      var created := instances.CreateProcessInstance(LinearRow(existing, req, next.value));
      nextActions := ListNextActions(created.key.tenant, created.currentState);
      r := Ok(created);
    }

    method GetStateByCode(key: Key, code: string) returns (r: Option<State>)
      ensures r == StateByCode(definition.states, key.tenant, key.process, code)
    {
      var states := definition.states;
      for i := 0 to |states|
        invariant StateByCode(states, key.tenant, key.process, code)
               == StateByCode(states[i..], key.tenant, key.process, code)
      {
        if states[i].tenant == key.tenant && states[i].process == key.process && states[i].code == code {
          return Some(states[i]);
        }
        assert states[i..][1..] == states[i + 1..];
      }
      return None;
    }

    method CreateBranches(existing: Instance, branches: seq<string>, req: Request)
      returns (ok: bool, first: Option<Instance>)
      modifies instances
      ensures (instances.rows, ok) == ForkRows(definition, old(instances.rows), existing, req, branches)
      ensures ok ==> first == match FirstBranch(existing, branches, req)
                              case None => None
                              case Some(row) => Some(Stored(old(instances.rows), row))
    {
      first := None;
      ghost var before := instances.rows;
      for i := 0 to |branches|
        invariant ForkRows(definition, before, existing, req, branches)
               == ForkRows(definition, instances.rows, existing, req, branches[i..])
        invariant i == 0 ==> first == None && instances.rows == before
        invariant i > 0 ==> FirstBranch(existing, branches, req).Some?
        invariant i > 0 ==> first == Some(Stored(before, FirstBranch(existing, branches, req).value))
      {
        var state := GetStateByCode(existing.key, branches[i]);
        if state.None? { return false, first; }
        var created := instances.CreateProcessInstance(BranchRow(existing, req, branches[i], state.value.id));
        if i == 0 { first := Some(created); }
        assert branches[i..][1..] == branches[i + 1..];
      }
      ok := true;
    }

    function FirstBranch(existing: Instance, branches: seq<string>, req: Request): Option<Instance> {
      if branches == [] then None
      else
        match StateByCode(definition.states, existing.key.tenant, existing.key.process, branches[0])
        case None => None
        case Some(s) => Some(BranchRow(existing, req, branches[0], s.id))
    }

    method HandleParallel(existing: Instance, target: State, req: Request)
      returns (r: Result<Instance, Failure>, nextActions: seq<string>)
      modifies instances, parallel
      ensures Db() == ForkStep(definition, old(Db()), existing, target, req).db
      ensures r == ForkStep(definition, old(Db()), existing, target, req).result
      ensures nextActions == NextActions(definition, ForkStep(definition, old(Db()), existing, target, req))
    {
      var joinState := FindJoinState(target);
      if joinState.None? { return Err(NoJoinState), []; }
      var created := parallel.CreateParallelExecution(existing.key, target, joinState.value);
      if !created { return Err(DuplicateExecution), []; }
      var ok, first := CreateBranches(existing, target.branchStates, req);
      if !ok { return Err(NoBranchState), []; }
      if first.None? { return Err(NoFirstBranch), []; }
      nextActions := ListNextActions(first.value.key.tenant, first.value.currentState);
      r := Ok(first.value);
    }

    method MergeParallelBranches(exec: Execution, target: State, req: Request)
      returns (r: Result<Instance, Failure>, nextActions: seq<string>)
      modifies instances, parallel
      ensures Db() == MergeStep(old(Db()), exec, target, req).db
      ensures r == MergeStep(old(Db()), exec, target, req).result
      ensures nextActions == NextActions(definition, MergeStep(old(Db()), exec, target, req))
    {
      var drawn := instances.GetActiveParallelInstances(exec.key);
      var attributes, documents, assignees := MergeBranches(drawn);
      var distinct := RemoveDuplicates(assignees);
      var comment := "Merged from parallel branches: " + Join(exec.active, ", ");
      var created := instances.CreateProcessInstance(
        Instance(0, exec.key, req.action, Active, Some(comment), documents, None, distinct, target.id,
                 attributes, None, None, false, false, None, None, IsEscalation(req)));
      parallel.UpdateParallelExecution(exec.(status := Finished));
      nextActions := ListNextActions(created.key.tenant, created.currentState);
      r := Ok(created);
    }

    method HandleJoin(existing: Instance, target: State, req: Request)
      returns (r: Result<Instance, Failure>, nextActions: seq<string>)
      modifies instances, parallel
      ensures Db() == JoinStep(old(Db()), existing, target, req).db
      ensures r == JoinStep(old(Db()), existing, target, req).result
      ensures nextActions == NextActions(definition, JoinStep(old(Db()), existing, target, req))
    {
      if existing.branchId.None? { return Err(NilBranch), []; }
      var exec := parallel.FirstActiveExecution(existing.key);
      if exec.None? { return Err(NoRunningExecution), []; }
      parallel.MarkBranchCompleted(existing.key, existing.branchId.value);
      var updated := parallel.GetParallelExecution(existing.key, exec.value.parallelState);
      if updated.None? { return Err(ExecutionLost), []; }
      if |updated.value.completed| < |updated.value.active| {
        var created := instances.CreateProcessInstance(WaitingRow(existing, req, target.id));
        return Ok(created), [];
      }
      r, nextActions := MergeParallelBranches(updated.value, target, req);
    }

    method Transition(req: Request) returns (r: Result<Instance, Failure>, nextActions: seq<string>)
      modifies instances, parallel
      ensures Db() == Transitioned(definition, old(Db()), req).db
      ensures r == Transitioned(definition, old(Db()), req).result
      ensures nextActions == NextActions(definition, Transitioned(definition, old(Db()), req))
    {
      nextActions := [];
      var picked := GetOrCreateInstance(req);
      if picked.Err? { return Err(picked.error), []; }
      var existing := picked.value;
      if req.action == "" { return Ok(existing), []; }
      var action := MatchAction(req.key.tenant, existing.currentState, req.action);
      if action.None? { return Err(UnknownAction), []; }
      var can := CanTransition(req.attributes, action.value.required);
      if !can { return Err(NotAuthorized), []; }
      var target := GetStateByID(req.key.tenant, action.value.nextState);
      if target.None? { return Err(NoTargetState), []; }
      if target.value.isParallel {
        r, nextActions := HandleParallel(existing, target.value, req);
      } else if target.value.isJoin {
        r, nextActions := HandleJoin(existing, target.value, req);
      } else {
        r, nextActions := HandleLinear(existing, req);
      }
    }
  }
}
