/** What one workflow transition does to the stored rows. */
module WorkflowModel {
  import opened Prelude
  import opened GoStrings
  import opened AttributeGuard

  // ---------------------------------------------------------------- definitions

  datatype State = State(tenant: string, id: string, process: string, code: string,
                         isInitial: bool, isParallel: bool, isJoin: bool, branchStates: seq<string>)

  /** `required` is the loaded attribute validation; none is the empty map. */
  datatype Action = Action(tenant: string, name: string, currentState: string, nextState: string,
                           required: Attributes)

  /** Process definitions, states in creation order, actions in scan order. */
  datatype Definition = Definition(states: seq<State>, actions: seq<Action>)

  function StateByID(states: seq<State>, tenant: string, id: string): Option<State> {
    if states == [] then None
    else if states[0].tenant == tenant && states[0].id == id then Some(states[0])
    else StateByID(states[1..], tenant, id)
  }

  function StateByCode(states: seq<State>, tenant: string, process: string, code: string): Option<State> {
    if states == [] then None
    else if states[0].tenant == tenant && states[0].process == process && states[0].code == code
    then Some(states[0])
    else StateByCode(states[1..], tenant, process, code)
  }

  function StatesOf(states: seq<State>, tenant: string, process: string): seq<State> {
    if states == [] then []
    else (if states[0].tenant == tenant && states[0].process == process then [states[0]] else [])
         + StatesOf(states[1..], tenant, process)
  }

  function FirstInitial(states: seq<State>): Option<State> {
    if states == [] then None else if states[0].isInitial then Some(states[0]) else FirstInitial(states[1..])
  }

  function FirstJoin(states: seq<State>): Option<State> {
    if states == [] then None else if states[0].isJoin then Some(states[0]) else FirstJoin(states[1..])
  }

  function ActionsFrom(actions: seq<Action>, tenant: string, state: string): seq<Action> {
    if actions == [] then []
    else (if actions[0].tenant == tenant && actions[0].currentState == state then [actions[0]] else [])
         + ActionsFrom(actions[1..], tenant, state)
  }

  /** The action the service checks: the first of that name. */
  function FirstNamed(actions: seq<Action>, name: string): Option<Action> {
    if actions == [] then None else if actions[0].name == name then Some(actions[0]) else FirstNamed(actions[1..], name)
  }

  /** The action the state machine follows: transitions are keyed by event and source, so the last wins. */
  function LastNamed(actions: seq<Action>, name: string): Option<Action> {
    if actions == [] then None
    else if actions[|actions| - 1].name == name then Some(actions[|actions| - 1])
    else LastNamed(actions[..|actions| - 1], name)
  }

  function Offered(def: Definition, tenant: string, state: string, name: string): Option<Action> {
    FirstNamed(ActionsFrom(def.actions, tenant, state), name)
  }

  function Followed(def: Definition, tenant: string, state: string, name: string): Option<Action> {
    LastNamed(ActionsFrom(def.actions, tenant, state), name)
  }

  function JoinStateFor(def: Definition, parallel: State): Option<State> {
    FirstJoin(StatesOf(def.states, parallel.tenant, parallel.process))
  }

  // ---------------------------------------------------------------- history rows

  datatype Key = Key(tenant: string, entity: string, process: string)

  datatype Status = Active | WaitingForJoin | Completed

  /** A `process_instances` row; `id` is its place in the order of creation. */
  datatype Instance = Instance(
    id: nat, key: Key, action: string, status: Status, comment: Option<string>, documents: seq<string>,
    assigner: Option<string>, assignees: seq<string>, currentState: string, attributes: Attributes,
    parentId: Option<nat>, branchId: Option<string>, isParallelBranch: bool, isLatest: bool,
    stateSla: Option<int>, processSla: Option<int>, escalated: bool)

  /** Rows that supersede one another: the linear rows of a key, or the rows of one branch of it. */
  predicate SameClass(a: Instance, b: Instance) {
    && a.key == b.key
    && a.isParallelBranch == b.isParallelBranch
    && (a.isParallelBranch ==> a.branchId.Some? && a.branchId == b.branchId)
  }

  function Unflagged(rows: seq<Instance>, inst: Instance): seq<Instance> {
    seq(|rows|, i requires 0 <= i < |rows| =>
      if rows[i].isLatest && SameClass(inst, rows[i]) then rows[i].(isLatest := false) else rows[i])
  }

  function Stored(rows: seq<Instance>, inst: Instance): Instance { inst.(id := |rows|, isLatest := true) }

  function Inserted(rows: seq<Instance>, inst: Instance): seq<Instance> {
    Unflagged(rows, inst) + [Stored(rows, inst)]
  }

  predicate IsLatestLinear(r: Instance, key: Key) { r.key == key && !r.isParallelBranch && r.isLatest }

  predicate IsActiveBranch(r: Instance, key: Key) {
    r.key == key && r.isParallelBranch && r.status != Completed && r.isLatest
  }

  function LatestLinear(rows: seq<Instance>, key: Key): Option<Instance> {
    if rows == [] then None
    else if IsLatestLinear(rows[0], key) then Some(rows[0])
    else LatestLinear(rows[1..], key)
  }

  /** Newest first. */
  function ActiveParallel(rows: seq<Instance>, key: Key): seq<Instance> {
    if rows == [] then []
    else
      var last := rows[|rows| - 1];
      (if IsActiveBranch(last, key) then [last] else []) + ActiveParallel(rows[..|rows| - 1], key)
  }

  // ---------------------------------------------------------------- parallel executions

  datatype ExecStatus = Running | Finished

  datatype Execution = Execution(id: nat, key: Key, parallelState: string, joinState: string,
                                 active: seq<string>, completed: seq<string>, status: ExecStatus)

  predicate IsExec(e: Execution, key: Key, parallelState: string) {
    e.key == key && e.parallelState == parallelState
  }

  predicate IsRunning(e: Execution, key: Key) { e.key == key && e.status == Running }

  function GetExec(execs: seq<Execution>, key: Key, parallelState: string): Option<Execution> {
    if execs == [] then None
    else if IsExec(execs[0], key, parallelState) then Some(execs[0])
    else GetExec(execs[1..], key, parallelState)
  }

  function FirstRunning(execs: seq<Execution>, key: Key): Option<Execution> {
    if execs == [] then None
    else if IsRunning(execs[0], key) then Some(execs[0])
    else FirstRunning(execs[1..], key)
  }

  /** The mark is one statement: append if absent, on every running execution of the key. */
  function MarkedExec(e: Execution, key: Key, branch: string): Execution {
    if IsRunning(e, key) && branch !in e.completed then e.(completed := e.completed + [branch]) else e
  }

  function Marked(execs: seq<Execution>, key: Key, branch: string): seq<Execution> {
    seq(|execs|, i requires 0 <= i < |execs| => MarkedExec(execs[i], key, branch))
  }

  function Replaced(execs: seq<Execution>, e: Execution): seq<Execution> {
    seq(|execs|, i requires 0 <= i < |execs| =>
      if execs[i].id == e.id && execs[i].key.tenant == e.key.tenant then e else execs[i])
  }

  // ---------------------------------------------------------------- one transition

  datatype Db = Db(rows: seq<Instance>, execs: seq<Execution>)

  datatype Request = Request(key: Key, action: string, currentState: Option<string>, comment: Option<string>,
                             documents: seq<string>, assigner: Option<string>, assignees: seq<string>,
                             attributes: Attributes)

  /** `NilBranch` and `NoFirstBranch` are the two places where the service dereferences what is not there. */
  datatype Failure =
    | StateMismatch | NoStates | NoInitialState | UnknownAction | NotAuthorized | NoTargetState | NoTransition
    | NoJoinState | DuplicateExecution | NoBranchState | NoFirstBranch
    | NilBranch | NoRunningExecution | ExecutionLost

  /** Which path wrote last; `Stay` covers errors before a path is chosen and calls without an action. */
  datatype Kind = Stay | Linear | Fork | Wait | Merge

  datatype Outcome = Outcome(db: Db, result: Result<Instance, Failure>, kind: Kind)

  /** Recognised by the action's name or by the comment, in any case of letters. */
  function IsEscalation(req: Request): bool {
    || Contains(ToLower(req.action), "escalat")
    || (req.comment.Some? && Contains(ToLower(req.comment.value), "auto-escalat"))
  }

  function InitialRow(req: Request, state: string): Instance {
    Instance(0, req.key, "", Active, req.comment, req.documents, req.assigner, req.assignees, state,
             req.attributes, None, None, false, false, None, None, false)
  }

  function LinearRow(existing: Instance, req: Request, state: string): Instance {
    Instance(0, existing.key, req.action, existing.status, req.comment, req.documents, None, req.assignees, state,
             req.attributes, existing.parentId, existing.branchId, existing.isParallelBranch, false,
             existing.stateSla, existing.processSla, IsEscalation(req))
  }

  function BranchRow(existing: Instance, req: Request, branch: string, state: string): Instance {
    Instance(0, existing.key, req.action, Active, req.comment, req.documents, None, req.assignees, state,
             req.attributes, Some(existing.id), Some(branch), true, false, None, None, IsEscalation(req))
  }

  function WaitingRow(existing: Instance, req: Request, state: string): Instance {
    Instance(0, existing.key, req.action, WaitingForJoin, req.comment, req.documents, None, existing.assignees, state,
             req.attributes, existing.parentId, existing.branchId, true, false, None, None, IsEscalation(req))
  }

  function MergedRow(exec: Execution, drawn: seq<Instance>, req: Request, state: string): Instance {
    Instance(0, exec.key, req.action, Active, Some("Merged from parallel branches: " + Join(exec.active, ", ")),
             MergedDocuments(drawn), None, WithoutDuplicates(MergedAssignees(drawn)), state,
             MergedAttributes(drawn), None, None, false, false, None, None, IsEscalation(req))
  }

  function Values(m: Attributes, k: string): seq<string> { if k in m then m[k] else [] }

  function Combine(m: Attributes, n: Attributes): Attributes {
    map k | k in m.Keys + n.Keys :: Values(m, k) + Values(n, k)
  }

  function MergedAttributes(drawn: seq<Instance>): Attributes {
    if drawn == [] then map[]
    else Combine(MergedAttributes(drawn[..|drawn| - 1]), drawn[|drawn| - 1].attributes)
  }

  function MergedDocuments(drawn: seq<Instance>): seq<string> {
    if drawn == [] then [] else MergedDocuments(drawn[..|drawn| - 1]) + drawn[|drawn| - 1].documents
  }

  function MergedAssignees(drawn: seq<Instance>): seq<string> {
    if drawn == [] then [] else MergedAssignees(drawn[..|drawn| - 1]) + drawn[|drawn| - 1].assignees
  }

  function WithoutDuplicates(xs: seq<string>): seq<string> {
    if xs == [] then []
    else
      var rest := WithoutDuplicates(xs[..|xs| - 1]);
      if xs[|xs| - 1] in rest then rest else rest + [xs[|xs| - 1]]
  }

  /** The first listed row whose state offers the action. */
  function Offering(def: Definition, listed: seq<Instance>, tenant: string, action: string): Option<Instance> {
    if listed == [] then None
    else if Offered(def, tenant, listed[0].currentState, action).Some? then Some(listed[0])
    else Offering(def, listed[1..], tenant, action)
  }

  function BranchFor(def: Definition, rows: seq<Instance>, req: Request): Option<Instance> {
    if req.action == "" then None
    else Offering(def, ActiveParallel(rows, req.key), req.key.tenant, req.action)
  }

  function InitialFor(def: Definition, key: Key): Result<State, Failure> {
    var states := StatesOf(def.states, key.tenant, key.process);
    if states == [] then Err(NoStates)
    else match FirstInitial(states)
      case None => Err(NoInitialState)
      case Some(s) => Ok(s)
  }

  /** The row acted on, with the history it is in: a branch first, then the linear row, then a new row. */
  function Picked(def: Definition, rows: seq<Instance>, req: Request): Result<(seq<Instance>, Instance), Failure> {
    match BranchFor(def, rows, req)
    case Some(branch) => Ok((rows, branch))
    case None =>
      match LatestLinear(rows, req.key)
      case Some(row) =>
        if req.currentState.Some? && row.currentState != req.currentState.value then Err(StateMismatch)
        else Ok((rows, row))
      case None =>
        match InitialFor(def, req.key)
        case Err(e) => Err(e)
        case Ok(s) => Ok((Inserted(rows, InitialRow(req, s.id)), Stored(rows, InitialRow(req, s.id))))
  }

  function Appended(db: Db, row: Instance, kind: Kind): Outcome {
    Outcome(db.(rows := Inserted(db.rows, row)), Ok(Stored(db.rows, row)), kind)
  }

  function LinearStep(def: Definition, db: Db, existing: Instance, req: Request): Outcome {
    match Followed(def, existing.key.tenant, existing.currentState, req.action)
    case None => Outcome(db, Err(NoTransition), Stay)
    case Some(a) =>
      if a.nextState == existing.currentState then Outcome(db, Err(NoTransition), Stay)
      else Appended(db, LinearRow(existing, req, a.nextState), Linear)
  }

  /** Branch by branch, without an enclosing transaction: a missing state leaves the earlier rows. */
  function ForkRows(def: Definition, rows: seq<Instance>, existing: Instance, req: Request, branches: seq<string>)
    : (seq<Instance>, bool)
    decreases |branches|
  {
    if branches == [] then (rows, true)
    else
      match StateByCode(def.states, existing.key.tenant, existing.key.process, branches[0])
      case None => (rows, false)
      case Some(s) =>
        ForkRows(def, Inserted(rows, BranchRow(existing, req, branches[0], s.id)), existing, req, branches[1..])
  }

  function NewExec(execs: seq<Execution>, key: Key, target: State, joinState: State): Execution {
    Execution(|execs|, key, target.id, joinState.id, target.branchStates, [], Running)
  }

  function ForkStep(def: Definition, db: Db, existing: Instance, target: State, req: Request): Outcome {
    match JoinStateFor(def, target)
    case None => Outcome(db, Err(NoJoinState), Stay)
    case Some(joinState) =>
      if GetExec(db.execs, existing.key, target.id).Some? then Outcome(db, Err(DuplicateExecution), Stay)
      else
        var (rows, ok) := ForkRows(def, db.rows, existing, req, target.branchStates);
        var after := Db(rows, db.execs + [NewExec(db.execs, existing.key, target, joinState)]);
        if !ok then Outcome(after, Err(NoBranchState), Fork)
        else if target.branchStates == [] then Outcome(after, Err(NoFirstBranch), Fork)
        else
          var first := StateByCode(def.states, existing.key.tenant, existing.key.process, target.branchStates[0]);
          assert first.Some?;
          Outcome(after, Ok(Stored(db.rows, BranchRow(existing, req, target.branchStates[0], first.value.id))), Fork)
  }

  function MergeStep(db: Db, exec: Execution, target: State, req: Request): Outcome {
    var row := MergedRow(exec, ActiveParallel(db.rows, exec.key), req, target.id);
    Outcome(Db(Inserted(db.rows, row), Replaced(db.execs, exec.(status := Finished))),
            Ok(Stored(db.rows, row)), Merge)
  }

  function JoinStep(db: Db, existing: Instance, target: State, req: Request): Outcome {
    if existing.branchId.None? then Outcome(db, Err(NilBranch), Stay)
    else
      match FirstRunning(db.execs, existing.key)
      case None => Outcome(db, Err(NoRunningExecution), Stay)
      case Some(exec) =>
        var marked := Db(db.rows, Marked(db.execs, existing.key, existing.branchId.value));
        match GetExec(marked.execs, existing.key, exec.parallelState)
        case None => Outcome(marked, Err(ExecutionLost), Wait)
        case Some(updated) =>
          if |updated.completed| < |updated.active|
          then Appended(marked, WaitingRow(existing, req, target.id), Wait)
          else MergeStep(marked, updated, target, req)
  }

  /** The checked action, the guard, and the choice of path by its target state. */
  function Acted(def: Definition, db: Db, existing: Instance, req: Request): Outcome {
    match Offered(def, req.key.tenant, existing.currentState, req.action)
    case None => Outcome(db, Err(UnknownAction), Stay)
    case Some(a) =>
      if !GuardOk(req.attributes, a.required) then Outcome(db, Err(NotAuthorized), Stay)
      else
        match StateByID(def.states, req.key.tenant, a.nextState)
        case None => Outcome(db, Err(NoTargetState), Stay)
        case Some(target) =>
          if target.isParallel then ForkStep(def, db, existing, target, req)
          else if target.isJoin then JoinStep(db, existing, target, req)
          else LinearStep(def, db, existing, req)
  }

  function Transitioned(def: Definition, db: Db, req: Request): Outcome {
    match Picked(def, db.rows, req)
    case Err(e) => Outcome(db, Err(e), Stay)
    case Ok((rows, existing)) =>
      if req.action == "" then Outcome(db.(rows := rows), Ok(existing), Stay)
      else Acted(def, db.(rows := rows), existing, req)
  }

  function Names(actions: seq<Action>): seq<string> {
    seq(|actions|, i requires 0 <= i < |actions| => actions[i].name)
  }

  /** Listed on the returned row and not stored; a waiting row and a row only picked list none. */
  function NextActions(def: Definition, out: Outcome): seq<string> {
    if out.result.Ok? && (out.kind == Linear || out.kind == Fork || out.kind == Merge)
    then Names(ActionsFrom(def.actions, out.result.value.key.tenant, out.result.value.currentState))
    else []
  }

  /** The stored state after a run of requests, one at a time. */
  function Run(def: Definition, db: Db, reqs: seq<Request>): Db
    decreases |reqs|
  {
    if reqs == [] then db else Run(def, Transitioned(def, db, reqs[0]).db, reqs[1..])
  }
}
