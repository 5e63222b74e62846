/** What each kind of transition writes, field by field. */
module WorkflowRows {
  import opened Prelude
  import opened GoStrings
  import opened AttributeGuard
  import opened WorkflowModel
  import opened WorkflowHistory
  import opened WorkflowOrigins
  import opened WorkflowJoin
  import opened WorkflowContents
  import WorkflowMerge

  // ---------------------------------------------------------------- escalation, letter by letter

  /** The letter itself or its capital. */
  predicate IsLetter(c: char, letter: char) {
    c == letter || ('a' <= letter <= 'z' && c as int == letter as int - 'a' as int + 'A' as int)
  }

  ghost predicate Spells(text: string, word: string) {
    exists i: nat :: SpellsAt(text, word, i)
  }

  ghost predicate SpellsAt(text: string, word: string, i: nat) {
    i + |word| <= |text| && forall j | 0 <= j < |word| :: IsLetter(text[i + j], word[j])
  }

  ghost predicate Escalates(req: Request) {
    Spells(req.action, "escalat") || (req.comment.Some? && Spells(req.comment.value, "auto-escalat"))
  }

  lemma SpellsIff(text: string, word: string)
    requires forall c <- word :: !('A' <= c <= 'Z')
    ensures Contains(ToLower(text), word) <==> Spells(text, word)
  {
    var low := ToLower(text);
    forall i: nat | i + |word| <= |text| ensures OccursAt(low, word, i) <==> SpellsAt(text, word, i) {
      assert forall j | 0 <= j < |word| :: low[i..i + |word|][j] == low[i + j] && word[j] in word;
      assert forall j | 0 <= j < |word| :: low[i + j] == word[j] <==> IsLetter(text[i + j], word[j]);
      if SpellsAt(text, word, i) { assert low[i..i + |word|] == word; }
    }
    if i: nat :| SpellsAt(text, word, i) { assert OccursAt(low, word, i); }
  }

  lemma EscalationIff(req: Request)
    ensures IsEscalation(req) <==> Escalates(req)
  {
    SpellsIff(req.action, "escalat");
    if req.comment.Some? { SpellsIff(req.comment.value, "auto-escalat"); }
  }

  // ---------------------------------------------------------------- which action is checked, and which is taken

  lemma {:induction false} FirstByPlace(actions: seq<Action>, tenant: string, state: string, name: string)
    ensures match FirstNamed(ActionsFrom(actions, tenant, state), name)
            case None => forall a <- actions :: !(a.tenant == tenant && a.currentState == state && a.name == name)
            case Some(a) => exists i: nat :: FirstActionAt(actions, tenant, state, name, i) && actions[i] == a
  {
    if actions != [] {
      FirstByPlace(actions[1..], tenant, state, name);
      var from := ActionsFrom(actions[1..], tenant, state);
      assert ([actions[0]] + from)[1..] == from && [] + from == from;
      if actions[0].tenant == tenant && actions[0].currentState == state && actions[0].name == name {
        assert FirstActionAt(actions, tenant, state, name, 0);
      } else if FirstNamed(from, name).Some? {
        var i: nat :| FirstActionAt(actions[1..], tenant, state, name, i) && actions[1..][i] == FirstNamed(from, name).value;
        assert FirstActionAt(actions, tenant, state, name, i + 1);
      }
    }
  }

  ghost predicate FirstActionAt(actions: seq<Action>, tenant: string, state: string, name: string, i: nat) {
    && i < |actions| && actions[i].tenant == tenant && actions[i].currentState == state && actions[i].name == name
    && forall j | 0 <= j < i ::
         !(actions[j].tenant == tenant && actions[j].currentState == state && actions[j].name == name)
  }

  ghost predicate LastActionAt(actions: seq<Action>, tenant: string, state: string, name: string, i: nat) {
    && i < |actions| && actions[i].tenant == tenant && actions[i].currentState == state && actions[i].name == name
    && forall j | i < j < |actions| ::
         !(actions[j].tenant == tenant && actions[j].currentState == state && actions[j].name == name)
  }

  lemma {:induction false} LastByPlace(actions: seq<Action>, tenant: string, state: string, name: string)
    ensures match LastNamed(ActionsFrom(actions, tenant, state), name)
            case None => forall a <- actions :: !(a.tenant == tenant && a.currentState == state && a.name == name)
            case Some(a) => exists i: nat :: LastActionAt(actions, tenant, state, name, i) && actions[i] == a
  {
    if actions != [] {
      LastByPlace(actions[1..], tenant, state, name);
      var from := ActionsFrom(actions[1..], tenant, state);
      if actions[0].tenant == tenant && actions[0].currentState == state {
        LastOfPrepended(actions[0], from, name);
      } else {
        assert [] + from == from;
      }
      if LastNamed(from, name).Some? {
        var i: nat :| LastActionAt(actions[1..], tenant, state, name, i) && actions[1..][i] == LastNamed(from, name).value;
        assert LastActionAt(actions, tenant, state, name, i + 1);
      } else if actions[0].tenant == tenant && actions[0].currentState == state && actions[0].name == name {
        assert forall j | 0 < j < |actions| :: actions[j] in actions[1..];
        assert LastActionAt(actions, tenant, state, name, 0);
      }
    }
  }

  lemma {:induction false} LastOfPrepended(a: Action, actions: seq<Action>, name: string)
    ensures LastNamed([a] + actions, name)
         == if LastNamed(actions, name).Some? then LastNamed(actions, name) else if a.name == name then Some(a) else None
  {
    if actions == [] {
      assert [a] + actions == [a] && [a][..0] == [];
    } else {
      LastOfPrepended(a, actions[..|actions| - 1], name);
      assert ([a] + actions)[..|actions|] == [a] + actions[..|actions| - 1];
    }
  }

  /** The action a request is checked against: the first of its name from the state. */
  ghost predicate IsChecked(def: Definition, tenant: string, state: string, name: string, a: Action) {
    exists i: nat :: FirstActionAt(def.actions, tenant, state, name, i) && def.actions[i] == a
  }

  /** The action the state machine follows: the last of its name from the state. */
  ghost predicate IsTaken(def: Definition, tenant: string, state: string, name: string, a: Action) {
    exists i: nat :: LastActionAt(def.actions, tenant, state, name, i) && def.actions[i] == a
  }

  lemma {:induction false} StateByIDFound(states: seq<State>, tenant: string, id: string)
    ensures match StateByID(states, tenant, id)
            case None => forall s <- states :: !(s.tenant == tenant && s.id == id)
            case Some(s) => s in states && s.tenant == tenant && s.id == id
  {
    if states != [] {
      StateByIDFound(states[1..], tenant, id);
      assert states == [states[0]] + states[1..];
    }
  }

  lemma {:induction false} StateByCodeFound(states: seq<State>, tenant: string, process: string, code: string)
    ensures match StateByCode(states, tenant, process, code)
            case None => forall s <- states :: !(s.tenant == tenant && s.process == process && s.code == code)
            case Some(s) => s in states && s.tenant == tenant && s.process == process && s.code == code
  {
    if states != [] {
      StateByCodeFound(states[1..], tenant, process, code);
      assert states == [states[0]] + states[1..];
    }
  }

  // ---------------------------------------------------------------- the request's own fields

  /** A row of the request's key, written for it: its action, comment and documents, no assigner, the escalated flag. */
  ghost predicate Answering(w: Instance, req: Request) {
    && w.key == req.key && w.action == req.action && w.comment == req.comment && w.documents == req.documents
    && w.attributes == req.attributes && w.assigner == None && (w.escalated <==> Escalates(req))
  }

  /** The only row appended, last and flagged. */
  ghost predicate AppendedLast(before: seq<Instance>, after: seq<Instance>, w: Instance) {
    && |after| == |before| + 1 && after[|before|] == w && w.id == |before| && w.isLatest
    && Extends(before, after[..|before|])
  }

  lemma InsertAppends(rows: seq<Instance>, inst: Instance)
    ensures AppendedLast(rows, Inserted(rows, inst), Stored(rows, inst))
  {
  }

  /** What `Transitioned` is, once a row is picked and an action named. */
  lemma ActedOn(def: Definition, db: Db, req: Request)
    requires Transitioned(def, db, req).kind != Stay
    ensures Picked(def, db.rows, req).Ok?
    ensures var (rows, existing) := Picked(def, db.rows, req).value;
            && Transitioned(def, db, req) == Acted(def, db.(rows := rows), existing, req)
            && Offered(def, req.key.tenant, existing.currentState, req.action).Some?
  {
  }

  /**
   * A linear transition appends one row with the request's own contents: the status, parent and branch of the row acted
   * on, in the state the last action of the name leads to.
   */
  lemma LinearRowHolds(def: Definition, earlier: seq<Request>, db: Db, req: Request)
    requires History(def, earlier, db.rows) && Transitioned(def, db, req).kind == Linear
    ensures Picked(def, db.rows, req).Ok? && Transitioned(def, db, req).result.Ok?
    ensures var (rows, existing) := Picked(def, db.rows, req).value;
            var out := Transitioned(def, db, req);
            var w := out.result.value;
            && AppendedLast(rows, out.db.rows, w) && out.db.execs == db.execs
            && Answering(w, req) && w.assignees == req.assignees && w.status == existing.status
            && w.parentId == existing.parentId && w.branchId == existing.branchId
            && w.isParallelBranch == existing.isParallelBranch
            && w.currentState != existing.currentState
            && exists a ::
                 IsTaken(def, req.key.tenant, existing.currentState, req.action, a) && w.currentState == a.nextState
  {
    hide History, Picked;
    ActedOn(def, db, req);
    var (rows, existing) := Picked(def, db.rows, req).value;
    PickedHas(def, earlier, db.rows, req);
    EscalationIff(req);
    LastByPlace(def.actions, req.key.tenant, existing.currentState, req.action);
    var a := Followed(def, req.key.tenant, existing.currentState, req.action).value;
    InsertAppends(rows, LinearRow(existing, req, a.nextState));
  }

  lemma PickedHas(def: Definition, earlier: seq<Request>, rows: seq<Instance>, req: Request)
    requires History(def, earlier, rows) && Picked(def, rows, req).Ok?
    ensures var (rows', existing) := Picked(def, rows, req).value; Has(rows', existing, req.key) && Extends(rows, rows')
  {
    PickedHistory(def, earlier, rows, req);
  }

  /** The state an action of the row leads to, and the action. */
  ghost predicate LeadsTo(def: Definition, req: Request, existing: Instance, target: State) {
    && target in def.states && target.tenant == req.key.tenant
    && exists a :: IsChecked(def, req.key.tenant, existing.currentState, req.action, a) && target.id == a.nextState
                   && GuardOk(req.attributes, a.required)
  }

  lemma ActedLeadsTo(def: Definition, db: Db, existing: Instance, req: Request)
    requires Acted(def, db, existing, req).kind != Stay
    ensures TargetFor(def, existing, req).Some?
    ensures LeadsTo(def, req, existing, TargetFor(def, existing, req).value)
    ensures var target := TargetFor(def, existing, req).value;
            Acted(def, db, existing, req)
            == if target.isParallel then ForkStep(def, db, existing, target, req)
               else if target.isJoin then JoinStep(db, existing, target, req)
               else LinearStep(def, db, existing, req)
  {
    FirstByPlace(def.actions, req.key.tenant, existing.currentState, req.action);
    var a := Offered(def, req.key.tenant, existing.currentState, req.action).value;
    StateByIDFound(def.states, req.key.tenant, a.nextState);
    assert IsChecked(def, req.key.tenant, existing.currentState, req.action, a);
  }

  /** A join that waits appends one row of its branch, in the join state, with the assignees of the row acted on. */
  lemma WaitingRowHolds(def: Definition, earlier: seq<Request>, db: Db, req: Request)
    requires History(def, earlier, db.rows) && Keyed(db.execs) && Transitioned(def, db, req).kind == Wait
    requires Transitioned(def, db, req).result.Ok?
    ensures Picked(def, db.rows, req).Ok?
    ensures var (rows, existing) := Picked(def, db.rows, req).value;
            var out := Transitioned(def, db, req);
            var w := out.result.value;
            && AppendedLast(rows, out.db.rows, w)
            && Answering(w, req) && w.status == WaitingForJoin && w.assignees == existing.assignees
            && w.isParallelBranch && w.branchId.Some? && w.branchId == existing.branchId && w.parentId == existing.parentId
            && exists target: State :: LeadsTo(def, req, existing, target) && target.isJoin && w.currentState == target.id
  {
    hide History, Picked, GetExec, LeadsTo;
    ActedOn(def, db, req);
    var (rows, existing) := Picked(def, db.rows, req).value;
    PickedHas(def, earlier, db.rows, req);
    EscalationIff(req);
    ActedLeadsTo(def, db.(rows := rows), existing, req);
    var target := TargetFor(def, existing, req).value;
    InsertAppends(rows, WaitingRow(existing, req, target.id));
  }

  /**
   * A merge appends one linear row: the assignees of the drawn rows at first mention, their documents and values
   * concatenated, in the join state, with nothing of the request but its action and escalation.
   */
  lemma MergedRowHolds(def: Definition, earlier: seq<Request>, db: Db, req: Request) returns (e: Execution)
    requires History(def, earlier, db.rows) && Keyed(db.execs) && Transitioned(def, db, req).kind == Merge
    ensures BranchFor(def, db.rows, req).Some? && Transitioned(def, db, req).result.Ok?
    ensures e in db.execs && IsRunning(e, req.key)
    ensures var drawn := ActiveParallel(db.rows, req.key);
            var out := Transitioned(def, db, req);
            var w := out.result.value;
            && AppendedLast(db.rows, out.db.rows, w)
            && FirstMentions(w.assignees, AssigneesDrawn(drawn))
            && w.documents == DocumentsDrawn(drawn)
            && (forall k <- w.attributes :: w.attributes[k] == ValuesDrawn(drawn, k))
            && (forall k :: k in w.attributes <==> exists r <- drawn :: k in r.attributes)
            && w.key == req.key && w.action == req.action && w.status == Active && w.assigner == None
            && w.comment == Some("Merged from parallel branches: " + Join(e.active, ", "))
            && !w.isParallelBranch && w.branchId == None && w.parentId == None && (w.escalated <==> Escalates(req))
            && exists target: State :: LeadsTo(def, req, BranchFor(def, db.rows, req).value, target) && target.isJoin
                                       && w.currentState == target.id
  {
    hide History, Picked, LeadsTo, Transitioned, MergedRow, FirstMentions;
    MergeIsBranchJoin(def, earlier, db, req);
    var branch := BranchFor(def, db.rows, req).value;
    var target := TargetFor(def, branch, req).value;
    BranchOfKey(def, db.rows, req);
    e := MergeRow(db, branch, target, req);
    var drawn := ActiveParallel(db.rows, req.key);
    MergedFields(e, drawn, req, target.id);
    MergeLeadsTo(def, earlier, db, req);
    InsertAppends(db.rows, MergedRow(e, drawn, req, target.id));
  }

  lemma MergedFields(e: Execution, drawn: seq<Instance>, req: Request, state: string)
    ensures var w := MergedRow(e, drawn, req, state);
            && FirstMentions(w.assignees, AssigneesDrawn(drawn))
            && w.documents == DocumentsDrawn(drawn)
            && (forall k <- w.attributes :: w.attributes[k] == ValuesDrawn(drawn, k))
            && (forall k :: k in w.attributes <==> exists r <- drawn :: k in r.attributes)
            && w.key == e.key && w.action == req.action && w.status == Active && w.assigner == None
            && w.comment == Some("Merged from parallel branches: " + Join(e.active, ", "))
            && !w.isParallelBranch && w.branchId == None && w.parentId == None && (w.escalated <==> Escalates(req))
            && w.currentState == state
  {
    hide MergedAttributes, MergedDocuments, MergedAssignees, WithoutDuplicates, FirstMentions;
    EscalationIff(req);
    MergedAssigneesOnce(e, drawn, req, state);
    forall k ensures Values(MergedAttributes(drawn), k) == ValuesDrawn(drawn, k)
                  && (k in MergedAttributes(drawn) <==> exists r <- drawn :: k in r.attributes) {
      MergedIsDrawn(drawn, k);
    }
    MergedIsDrawn(drawn, "");
  }

  lemma MergedAssigneesOnce(e: Execution, drawn: seq<Instance>, req: Request, state: string)
    ensures FirstMentions(MergedRow(e, drawn, req, state).assignees, AssigneesDrawn(drawn))
  {
    hide MergedAttributes, MergedDocuments, MergedAssignees, WithoutDuplicates, FirstMentions;
    WithoutDuplicatesIsFirstMentions(MergedAssignees(drawn));
    MergedIsDrawn(drawn, "");
  }

  lemma MergeLeadsTo(def: Definition, earlier: seq<Request>, db: Db, req: Request)
    requires History(def, earlier, db.rows) && Keyed(db.execs) && Transitioned(def, db, req).kind == Merge
    ensures BranchFor(def, db.rows, req).Some?
    ensures var branch := BranchFor(def, db.rows, req).value;
            TargetFor(def, branch, req).Some? && LeadsTo(def, req, branch, TargetFor(def, branch, req).value)
            && TargetFor(def, branch, req).value.isJoin
  {
    hide History, LeadsTo;
    MergeIsBranchJoin(def, earlier, db, req);
    var branch := BranchFor(def, db.rows, req).value;
    ActedOn(def, db, req);
    ActedLeadsTo(def, db, branch, req);
  }

  lemma MergeRow(db: Db, existing: Instance, target: State, req: Request) returns (e: Execution)
    requires Keyed(db.execs) && JoinStep(db, existing, target, req).kind == Merge
    ensures e in db.execs && IsRunning(e, existing.key)
    ensures var out := JoinStep(db, existing, target, req);
            var row := MergedRow(e, ActiveParallel(db.rows, existing.key), req, target.id);
            out.db.rows == Inserted(db.rows, row) && out.result == Ok(Stored(db.rows, row))
  {
    e := WorkflowMerge.JoinMerges(db, existing, target, req);
  }

  /** A request for a key without rows first appends its row in the process's first initial state. */
  lemma InitialRowHolds(def: Definition, earlier: seq<Request>, db: Db, req: Request)
    requires History(def, earlier, db.rows) && NoneOf(db.rows, req.key)
    ensures (exists s <- def.states :: s.tenant == req.key.tenant && s.process == req.key.process && s.isInitial)
       <==> |Transitioned(def, db, req).db.rows| > |db.rows|
    ensures |Transitioned(def, db, req).db.rows| > |db.rows| ==>
              var w := Transitioned(def, db, req).db.rows[|db.rows|];
              && w.id == |db.rows| && w.key == req.key && w.action == "" && w.status == Active
              && w.comment == req.comment && w.documents == req.documents && w.attributes == req.attributes
              && w.assigner == req.assigner && w.assignees == req.assignees && !w.escalated
              && !w.isParallelBranch && w.branchId == None && w.parentId == None
              && exists i: nat :: FirstInitialAt(def.states, req.key, i) && w.currentState == def.states[i].id
  {
    hide History;
    NothingPickable(def, earlier, db.rows, req);
    InitialByPlace(def.states, req.key);
    if InitialFor(def, req.key).Ok? {
      var first := InitialRow(req, InitialFor(def, req.key).value.id);
      TransitionGrows(def, earlier, db, req, Inserted(db.rows, first));
    }
  }

  ghost predicate FirstInitialAt(states: seq<State>, key: Key, i: nat) {
    && i < |states| && states[i].tenant == key.tenant && states[i].process == key.process && states[i].isInitial
    && forall j | 0 <= j < i :: !(states[j].tenant == key.tenant && states[j].process == key.process && states[j].isInitial)
  }

  lemma {:induction false} InitialByPlace(states: seq<State>, key: Key)
    ensures match FirstInitial(StatesOf(states, key.tenant, key.process))
            case None => forall s <- states :: !(s.tenant == key.tenant && s.process == key.process && s.isInitial)
            case Some(s) => exists i: nat :: FirstInitialAt(states, key, i) && states[i] == s
  {
    if states != [] {
      InitialByPlace(states[1..], key);
      var rest := StatesOf(states[1..], key.tenant, key.process);
      assert ([states[0]] + rest)[1..] == rest && [] + rest == rest;
      if states[0].tenant == key.tenant && states[0].process == key.process && states[0].isInitial {
        assert FirstInitialAt(states, key, 0);
      } else if FirstInitial(rest).Some? {
        var i: nat :| FirstInitialAt(states[1..], key, i) && states[1..][i] == FirstInitial(rest).value;
        assert FirstInitialAt(states, key, i + 1);
      }
    }
  }

  lemma NothingPickable(def: Definition, earlier: seq<Request>, rows: seq<Instance>, req: Request)
    requires NoneOf(rows, req.key)
    ensures Picked(def, rows, req)
         == match InitialFor(def, req.key)
            case Err(e) => Err(e)
            case Ok(s) => Ok((Inserted(rows, InitialRow(req, s.id)), Stored(rows, InitialRow(req, s.id))))
  {
    ListedAreRows(rows, req.key);
    OfferingIsListed(def, ActiveParallel(rows, req.key), req.key.tenant, req.action);
    LatestLinearFound(rows, req.key);
  }

  /** A transition leaves the rows it picked from as they are, flags aside. */
  lemma TransitionGrows(def: Definition, earlier: seq<Request>, db: Db, req: Request, rows: seq<Instance>)
    requires History(def, earlier, db.rows) && Picked(def, db.rows, req).Ok? && Picked(def, db.rows, req).value.0 == rows
    ensures Extends(rows, Transitioned(def, db, req).db.rows)
  {
    MoreRequests(def, earlier, earlier + [req], db.rows);
    PickedHistory(def, earlier + [req], db.rows, req);
    if req.action != "" {
      ActedHistory(def, earlier + [req], db.(rows := rows), Picked(def, db.rows, req).value.1, req);
    }
  }
}
