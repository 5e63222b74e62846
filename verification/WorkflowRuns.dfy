/** Runs: append-only history, flags, and where states come from. */
module WorkflowRuns {
  import opened Prelude
  import opened AttributeGuard
  import opened WorkflowModel
  import opened WorkflowHistory
  import opened WorkflowOrigins

  /** What every transition keeps, whatever the request and however it ends. */
  lemma TransitionKeepsHistory(def: Definition, reqs: seq<Request>, db: Db, req: Request)
    requires History(def, reqs, db.rows)
    ensures History(def, reqs + [req], Transitioned(def, db, req).db.rows)
    ensures Extends(db.rows, Transitioned(def, db, req).db.rows)
  {
    MoreRequests(def, reqs, reqs + [req], db.rows);
    PickedHistory(def, reqs + [req], db.rows, req);
    if Picked(def, db.rows, req).Ok? && req.action != "" {
      var (rows, existing) := Picked(def, db.rows, req).value;
      ActedHistory(def, reqs + [req], db.(rows := rows), existing, req);
    }
  }

  /** Whole runs: append-only, flags are last rows, and every row explained. */
  lemma {:induction false} RunKeepsHistory(def: Definition, earlier: seq<Request>, db: Db, reqs: seq<Request>)
    requires History(def, earlier, db.rows)
    ensures History(def, earlier + reqs, Run(def, db, reqs).rows)
    ensures Extends(db.rows, Run(def, db, reqs).rows)
    decreases |reqs|
  {
    hide History, Extends, Transitioned;
    if reqs == [] {
      assert earlier + reqs == earlier;
      ExtendsTransitive(db.rows, db.rows, db.rows);
    } else {
      var next := Transitioned(def, db, reqs[0]).db;
      TransitionKeepsHistory(def, earlier, db, reqs[0]);
      assert earlier + [reqs[0]] + reqs[1..] == earlier + reqs;
      RunKeepsHistory(def, earlier + [reqs[0]], next, reqs[1..]);
      ExtendsTransitive(db.rows, next.rows, Run(def, next, reqs[1..]).rows);
    }
  }

  lemma ExtendsTransitive(a: seq<Instance>, b: seq<Instance>, c: seq<Instance>)
    ensures Extends(a, b) && Extends(b, c) ==> Extends(a, c)
    ensures Extends(a, a)
  {
  }

  /** After any run the flag lookups answer as scans of the whole history would. */
  lemma RunLookupsAreScans(def: Definition, reqs: seq<Request>, key: Key)
    ensures var rows := Run(def, Db([], []), reqs).rows;
            && LatestLinear(rows, key) == LastLinear(rows, key)
            && ActiveParallel(rows, key) == LastOfBranches(rows, key, {})
  {
    RunKeepsHistory(def, [], Db([], []), reqs);
    FlagIsLastLinear(Run(def, Db([], []), reqs).rows, key);
    FlagsAreLastOfBranches(Run(def, Db([], []), reqs).rows, key);
  }

  /** No run ever records an SLA. */
  lemma NoSlaRecorded(def: Definition, reqs: seq<Request>)
    ensures forall r <- Run(def, Db([], []), reqs).rows :: r.stateSla == None && r.processSla == None
  {
    var rows := Run(def, Db([], []), reqs).rows;
    RunKeepsHistory(def, [], Db([], []), reqs);
    forall r | r in rows ensures WellFormed(r) {
      var n :| 0 <= n < |rows| && rows[n] == r;
      assert SoundAt(rows, n);
    }
  }

  /** The next actions listed with a returned row are the names its state offers. */
  lemma NextActionsAreOffered(def: Definition, out: Outcome, name: string)
    requires out.result.Ok? && (out.kind == Linear || out.kind == Fork || out.kind == Merge)
    ensures name in NextActions(def, out)
       <==> Offered(def, out.result.value.key.tenant, out.result.value.currentState, name).Some?
  {
    var actions := ActionsFrom(def.actions, out.result.value.key.tenant, out.result.value.currentState);
    NamedIn(actions, name);
    if a :| a in actions && a.name == name {
      var i :| 0 <= i < |actions| && actions[i] == a;
      assert Names(actions)[i] == name;
    }
  }

  // ---------------------------------------------------------------- every recorded state is reachable

  ghost predicate Link(def: Definition, key: Key, s: string, t: string) {
    exists a :: a in def.actions && a.tenant == key.tenant && a.currentState == s &&
                (t == a.nextState || exists b :: BranchTarget(def, key, a, b, t))
  }

  ghost predicate Path(def: Definition, key: Key, path: seq<string>) {
    && path != []
    && if |path| == 1 then InitialFor(def, key).Ok? && path[0] == InitialFor(def, key).value.id
       else Path(def, key, path[..|path| - 1]) && Link(def, key, path[|path| - 2], path[|path| - 1])
  }

  ghost predicate Reachable(def: Definition, key: Key, s: string) {
    exists path :: Path(def, key, path) && path[|path| - 1] == s
  }

  lemma ReachableStep(def: Definition, key: Key, s: string, t: string)
    requires Reachable(def, key, s) && Link(def, key, s, t)
    ensures Reachable(def, key, t)
  {
    var path :| Path(def, key, path) && path[|path| - 1] == s;
    assert (path + [t])[..|path|] == path;
    assert Path(def, key, path + [t]);
  }

  lemma FromLinks(def: Definition, req: Request, src: Instance, inst: Instance)
    requires From(def, req, src, inst)
    ensures Link(def, inst.key, src.currentState, inst.currentState)
  {
    var checked, taken :| FromBy(def, req, src, inst, checked, taken);
    assert taken in def.actions;
  }

  lemma {:induction false} RowReachable(def: Definition, reqs: seq<Request>, rows: seq<Instance>, n: nat)
    requires History(def, reqs, rows) && n < |rows|
    ensures Reachable(def, rows[n].key, rows[n].currentState)
    decreases n
  {
    var key := rows[n].key;
    assert ExplainedAt(def, reqs, rows, n);
    if NoneOf(rows[..n], key) {
      assert Path(def, key, [rows[n].currentState]);
    } else {
      var src, req :| src in rows[..n] && req in reqs && From(def, req, src, rows[n]);
      var m :| 0 <= m < n && rows[m] == src;
      RowReachable(def, reqs, rows, m);
      FromLinks(def, req, src, rows[n]);
      ReachableStep(def, key, src.currentState, rows[n].currentState);
    }
  }

  lemma EveryRecordedStateReachable(def: Definition, reqs: seq<Request>)
    ensures forall r <- Run(def, Db([], []), reqs).rows :: Reachable(def, r.key, r.currentState)
  {
    var rows := Run(def, Db([], []), reqs).rows;
    RunKeepsHistory(def, [], Db([], []), reqs);
    assert [] + reqs == reqs;
    forall r | r in rows ensures Reachable(def, r.key, r.currentState) {
      var n :| 0 <= n < |rows| && rows[n] == r;
      RowReachable(def, reqs, rows, n);
    }
  }

  // ---------------------------------------------------------------- one name, one action

  predicate SameEvent(a: Action, b: Action) {
    a.tenant == b.tenant && a.currentState == b.currentState && a.name == b.name
  }

  ghost predicate UniqueNames(def: Definition) {
    forall i, j | 0 <= i < j < |def.actions| :: !SameEvent(def.actions[i], def.actions[j])
  }

  lemma SameEventSameAction(def: Definition, a: Action, b: Action)
    requires UniqueNames(def) && a in def.actions && b in def.actions && SameEvent(a, b)
    ensures a == b
  {
    var i :| 0 <= i < |def.actions| && def.actions[i] == a;
    var j :| 0 <= j < |def.actions| && def.actions[j] == b;
    assert i == j;
  }

  /** Nothing supersedes the row where it stands. */
  ghost predicate Current(rows: seq<Instance>, r: Instance) {
    r.id < |rows| && rows[r.id] == r && !Superseded(rows, r.id)
  }

  lemma PickedIsCurrent(def: Definition, reqs: seq<Request>, rows: seq<Instance>, req: Request)
    requires History(def, reqs, rows) && Picked(def, rows, req).Ok?
    ensures Current(Picked(def, rows, req).value.0, Picked(def, rows, req).value.1)
  {
    var (rows', existing) := Picked(def, rows, req).value;
    ListedAreRows(rows, req.key);
    OfferingIsListed(def, ActiveParallel(rows, req.key), req.key.tenant, req.action);
    LatestLinearFound(rows, req.key);
    PickedHistory(def, reqs, rows, req);
    if existing in rows && rows' == rows {
      var i :| 0 <= i < |rows| && rows[i] == existing;
      assert SoundAt(rows, i);
    }
  }

  /** Written by the request as row `n`: the first of its key, or an answer from the row picked for the request. */
  ghost predicate Answers(def: Definition, before: seq<Instance>, req: Request, row: Instance, n: nat) {
    match Picked(def, before, req)
    case Err(_) => false
    case Ok((rows, existing)) =>
      if n < |rows| then n == |before| && NoneOf(before, req.key) && row.key == req.key && Entry(def, row)
      else Current(rows, existing) && exists a :: FromBy(def, req, existing, row, a, a)
  }

  lemma AnswersIgnoresFlags(def: Definition, before: seq<Instance>, req: Request, row: Instance, row': Instance, n: nat)
    requires Answers(def, before, req, row, n) && row' == row.(isLatest := row'.isLatest)
    ensures Answers(def, before, req, row', n)
  {
    var (rows, existing) := Picked(def, before, req).value;
    if n >= |rows| {
      var a :| FromBy(def, req, existing, row, a, a);
      assert FromBy(def, req, existing, row', a, a);
    }
  }

  lemma TransitionAnswers(def: Definition, reqs: seq<Request>, db: Db, req: Request, n: nat)
    requires UniqueNames(def) && History(def, reqs, db.rows)
    requires |db.rows| <= n < |Transitioned(def, db, req).db.rows|
    ensures Answers(def, db.rows, req, Transitioned(def, db, req).db.rows[n], n)
  {
    hide Acted, History, Picked;
    var (rows, existing) := Picked(def, db.rows, req).value;
    var after := Transitioned(def, db, req).db.rows;
    MoreRequests(def, reqs, reqs + [req], db.rows);
    PickedHistory(def, reqs + [req], db.rows, req);
    PickedIsCurrent(def, reqs, db.rows, req);
    if req.action != "" { ActedHistory(def, reqs + [req], db.(rows := rows), existing, req); }
    if n < |rows| {
      PickedEntry(def, reqs, db.rows, req, n);
      assert after[n] == rows[n].(isLatest := after[n].isLatest);
    } else {
      OneActionAnswers(def, req, existing, after[n]);
    }
  }

  lemma PickedEntry(def: Definition, reqs: seq<Request>, before: seq<Instance>, req: Request, n: nat)
    requires History(def, reqs, before) && Picked(def, before, req).Ok? && |before| <= n < |Picked(def, before, req).value.0|
    ensures n == |before| && NoneOf(before, req.key)
    ensures Picked(def, before, req).value.0[n].key == req.key && Entry(def, Picked(def, before, req).value.0[n])
  {
    NoLinearNoRows(def, reqs, before, req.key);
  }

  lemma OneActionAnswers(def: Definition, req: Request, existing: Instance, row: Instance)
    requires UniqueNames(def) && From(def, req, existing, row)
    ensures exists a :: FromBy(def, req, existing, row, a, a)
  {
    var checked, taken :| FromBy(def, req, existing, row, checked, taken);
    SameEventSameAction(def, checked, taken);
  }

  function RowsAfter(def: Definition, reqs: seq<Request>): seq<Instance> { Run(def, Db([], []), reqs).rows }

  lemma {:induction false} RunOneMore(def: Definition, db: Db, reqs: seq<Request>, req: Request)
    ensures Run(def, db, reqs + [req]) == Transitioned(def, Run(def, db, reqs), req).db
    decreases |reqs|
  {
    hide Transitioned;
    if reqs == [] {
      assert [] + [req] == [req] && [req][1..] == [];
    } else {
      assert (reqs + [req])[1..] == reqs[1..] + [req];
      RunOneMore(def, Transitioned(def, db, reqs[0]).db, reqs[1..], req);
    }
  }

  /** Row `n` was written by the k-th request, from what the requests before it had left. */
  ghost predicate WrittenBy(def: Definition, reqs: seq<Request>, row: Instance, n: nat, k: nat)
    requires k < |reqs|
  {
    && |RowsAfter(def, reqs[..k])| <= n < |RowsAfter(def, reqs[..k + 1])|
    && Answers(def, RowsAfter(def, reqs[..k]), reqs[k], row, n)
  }

  /**
   * With one action per name and state, every row of any run was written by one of its requests: as the initial row of
   * its key, or by an action checked and taken from the row picked for that request, the last of its class at the time.
   */
  lemma {:induction false} EveryRowJustified(def: Definition, reqs: seq<Request>, n: nat)
    requires UniqueNames(def) && n < |RowsAfter(def, reqs)|
    ensures exists k: nat :: k < |reqs| && WrittenBy(def, reqs, RowsAfter(def, reqs)[n], n, k)
    decreases |reqs|
  {
    hide Transitioned, Answers, History;
    if reqs != [] {
      var front, req := reqs[..|reqs| - 1], reqs[|reqs| - 1];
      assert reqs == front + [req] && reqs[..|reqs|] == reqs;
      RunOneMore(def, Db([], []), front, req);
      EmptyHistory(def);
      RunKeepsHistory(def, [], Db([], []), front);
      if n < |RowsAfter(def, front)| {
        EveryRowJustified(def, front, n);
        var k: nat :| k < |front| && WrittenBy(def, front, RowsAfter(def, front)[n], n, k);
        assert front[..k] == reqs[..k] && front[..k + 1] == reqs[..k + 1];
        TransitionKeepsHistory(def, [] + front, Run(def, Db([], []), front), req);
        AnswersIgnoresFlags(def, RowsAfter(def, front[..k]), front[k], RowsAfter(def, front)[n], RowsAfter(def, reqs)[n],
                            n);
        assert WrittenBy(def, reqs, RowsAfter(def, reqs)[n], n, k);
      } else {
        TransitionAnswers(def, [] + front, Run(def, Db([], []), front), req, n);
        assert WrittenBy(def, reqs, RowsAfter(def, reqs)[n], n, |front|);
      }
    }
  }

  lemma EmptyHistory(def: Definition)
    ensures History(def, [], [])
  {
  }

  /** Towards a plain state the checked action is the one taken exactly when the last of its name agrees. */
  lemma CheckedActionTakenIff(def: Definition, db: Db, existing: Instance, req: Request, a: Action, target: State)
    requires existing.key == req.key && Checks(def, existing, req, a, target)
    requires !target.isParallel && !target.isJoin
    ensures var out := Acted(def, db, existing, req);
            var last := Followed(def, req.key.tenant, existing.currentState, req.action);
            && last.Some?
            && (out.result.Ok? <==> last.value.nextState != existing.currentState)
            && (out.result.Ok? && out.result.value.currentState == a.nextState
                <==> last.value.nextState == a.nextState && a.nextState != existing.currentState)
            && (out.result.Err? ==> out == Outcome(db, Err(NoTransition), Stay))
  {
    OfferedLeaves(def, req.key.tenant, existing.currentState, req.action);
  }

  /** Two actions of one name: the open one is checked, the restricted one is taken. */
  lemma OneGuardAnotherTarget()
    ensures exists def: Definition, req: Request, restricted: Action ::
              var out := Transitioned(def, Db([], []), req);
              && restricted in def.actions && out.result.Ok?
              && out.result.value.currentState == restricted.nextState
              && !GuardOk(req.attributes, restricted.required)
              && (forall a <- def.actions :: a.nextState == restricted.nextState ==> a == restricted)
  {
    var s0 := State("t", "0", "p", "open", true, false, false, []);
    var s1 := State("t", "1", "p", "noted", false, false, false, []);
    var s2 := State("t", "2", "p", "approved", false, false, false, []);
    var free := Action("t", "go", "0", "1", map[]);
    var restricted := Action("t", "go", "0", "2", map["roles" := ["APPROVER"]]);
    var def := Definition([s0, s1, s2], [free, restricted]);
    var key := Key("t", "e", "p");
    var req := Request(key, "go", None, None, [], None, [], map[]);
    assert StatesOf(def.states, "t", "p") == [s0, s1, s2] by {
      assert StatesOf([s2], "t", "p") == [s2];
      assert StatesOf([s1, s2], "t", "p") == [s1, s2];
    }
    assert ActionsFrom(def.actions, "t", "0") == [free, restricted] by {
      assert ActionsFrom([restricted], "t", "0") == [restricted];
    }
    assert InitialFor(def, key) == Ok(s0);
    assert StateByID([s1, s2], "t", "1") == Some(s1);
    var row := Stored([], InitialRow(req, "0"));
    assert ActiveParallel([], key) == [] && LatestLinear([], key) == None;
    assert Picked(def, [], req) == Ok((Inserted([], InitialRow(req, "0")), row));
    assert LastNamed([free, restricted], "go") == Some(restricted);
    var db := Db(Inserted([], InitialRow(req, "0")), []);
    assert Checks(def, row, req, free, s1);
    assert Acted(def, db, row, req) == LinearStep(def, db, row, req);
    assert Transitioned(def, Db([], []), req) == LinearStep(def, db, row, req);
    assert "roles" in restricted.required && !GuardOk(req.attributes, restricted.required);
  }
}
