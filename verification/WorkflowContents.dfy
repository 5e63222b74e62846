/**
 * What a merged row holds, the values, documents and assignees of the rows drawn, and which row takes the next action
 * after a merge.
 */
module WorkflowContents {
  import opened Prelude
  import opened GoStrings
  import opened Lists
  import opened AttributeGuard
  import opened WorkflowModel
  import opened WorkflowHistory
  import opened WorkflowOrigins
  import opened WorkflowRuns
  import opened WorkflowJoin
  import opened WorkflowMerge

  // ---------------------------------------------------------------- concatenation, nothing lost or added

  /** The values each drawn row gives for one key, in the order drawn. */
  function ValuesDrawn(drawn: seq<Instance>, k: string): seq<string> {
    if drawn == [] then []
    else (if k in drawn[0].attributes then drawn[0].attributes[k] else []) + ValuesDrawn(drawn[1..], k)
  }

  function DocumentsDrawn(drawn: seq<Instance>): seq<string> {
    if drawn == [] then [] else drawn[0].documents + DocumentsDrawn(drawn[1..])
  }

  function AssigneesDrawn(drawn: seq<Instance>): seq<string> {
    if drawn == [] then [] else drawn[0].assignees + AssigneesDrawn(drawn[1..])
  }

  lemma {:induction false} DrawnAppend(front: seq<Instance>, r: Instance, k: string)
    ensures ValuesDrawn(front + [r], k) == ValuesDrawn(front, k) + Values(r.attributes, k)
    ensures DocumentsDrawn(front + [r]) == DocumentsDrawn(front) + r.documents
    ensures AssigneesDrawn(front + [r]) == AssigneesDrawn(front) + r.assignees
  {
    if front == [] {
      assert [] + [r] == [r];
    } else {
      assert (front + [r])[1..] == front[1..] + [r];
      DrawnAppend(front[1..], r, k);
      ConcatAssoc(Values(front[0].attributes, k), ValuesDrawn(front[1..], k), Values(r.attributes, k));
      ConcatAssoc(front[0].documents, DocumentsDrawn(front[1..]), r.documents);
      ConcatAssoc(front[0].assignees, AssigneesDrawn(front[1..]), r.assignees);
    }
  }

  lemma {:induction false} MergedIsDrawn(drawn: seq<Instance>, k: string)
    ensures Values(MergedAttributes(drawn), k) == ValuesDrawn(drawn, k)
    ensures k in MergedAttributes(drawn) <==> exists r <- drawn :: k in r.attributes
    ensures MergedDocuments(drawn) == DocumentsDrawn(drawn)
    ensures MergedAssignees(drawn) == AssigneesDrawn(drawn)
  {
    if drawn != [] {
      var front, r := drawn[..|drawn| - 1], drawn[|drawn| - 1];
      assert drawn == front + [r];
      MergedIsDrawn(front, k);
      DrawnAppend(front, r, k);
    }
  }

  // ---------------------------------------------------------------- assignees once each, in order of first mention

  /** `x` is mentioned before `y` is. */
  ghost predicate Earlier(xs: seq<string>, x: string, y: string) {
    exists p :: 0 <= p < |xs| && xs[p] == x && y !in xs[..p + 1]
  }

  ghost predicate FirstMentions(ys: seq<string>, xs: seq<string>) {
    && Distinct(ys)
    && (forall x :: x in ys <==> x in xs)
    && (forall i, j | 0 <= i < j < |ys| :: Earlier(xs, ys[i], ys[j]))
  }

  lemma EarlierInLonger(xs: seq<string>, z: string, x: string, y: string)
    requires Earlier(xs, x, y)
    ensures Earlier(xs + [z], x, y)
  {
    var p :| 0 <= p < |xs| && xs[p] == x && y !in xs[..p + 1];
    assert (xs + [z])[p] == x && (xs + [z])[..p + 1] == xs[..p + 1];
  }

  lemma EarlierThanNew(xs: seq<string>, z: string, x: string)
    requires x in xs && z !in xs
    ensures Earlier(xs + [z], x, z)
  {
    var p :| 0 <= p < |xs| && xs[p] == x;
    assert (xs + [z])[p] == x && (xs + [z])[..p + 1] == xs[..p + 1];
  }

  lemma {:induction false} WithoutDuplicatesIsFirstMentions(xs: seq<string>)
    ensures FirstMentions(WithoutDuplicates(xs), xs)
  {
    if xs != [] {
      var front, z := xs[..|xs| - 1], xs[|xs| - 1];
      var ys, all := WithoutDuplicates(front), WithoutDuplicates(xs);
      WithoutDuplicatesIsFirstMentions(front);
      assert xs == front + [z];
      forall i, j | 0 <= i < j < |all| ensures Earlier(xs, all[i], all[j]) {
        if j < |ys| {
          EarlierInLonger(front, z, ys[i], ys[j]);
        } else {
          assert ys[i] in ys;
          EarlierThanNew(front, z, ys[i]);
        }
      }
    }
  }

  /** First mentions determine the list: nothing else has the same members in that order. */
  lemma {:induction false} FirstMentionsUnique(ys: seq<string>, zs: seq<string>, xs: seq<string>, i: nat)
    requires FirstMentions(ys, xs) && FirstMentions(zs, xs) && i <= |ys| && i <= |zs|
    ensures ys[..i] == zs[..i]
  {
    if i > 0 {
      FirstMentionsUnique(ys, zs, xs, i - 1);
      if ys[i - 1] != zs[i - 1] {
        LaterIn(ys, zs, xs, i - 1);
        LaterIn(zs, ys, xs, i - 1);
        NotBothEarlier(xs, ys[i - 1], zs[i - 1]);
      }
    }
  }

  lemma LaterIn(ys: seq<string>, zs: seq<string>, xs: seq<string>, i: nat)
    requires FirstMentions(ys, xs) && FirstMentions(zs, xs) && i < |ys| && i < |zs|
    requires ys[..i] == zs[..i] && ys[i] != zs[i]
    ensures Earlier(xs, ys[i], zs[i])
  {
    assert zs[i] in zs;
    var j :| 0 <= j < |ys| && ys[j] == zs[i];
    assert forall k | 0 <= k < i :: ys[k] == ys[..i][k] == zs[..i][k] == zs[k];
  }

  lemma MentionedBy(xs: seq<string>, q: nat, p: nat)
    requires q <= p < |xs|
    ensures xs[q] in xs[..p + 1]
  {
    assert xs[..p + 1][q] == xs[q];
  }

  lemma NotBothEarlier(xs: seq<string>, x: string, y: string)
    requires Earlier(xs, x, y)
    ensures !Earlier(xs, y, x)
  {
    var p :| 0 <= p < |xs| && xs[p] == x && y !in xs[..p + 1];
    forall q | 0 <= q < |xs| && xs[q] == y ensures x in xs[..q + 1] {
      if p <= q {
        MentionedBy(xs, p, q);
      }
    }
  }

  // ---------------------------------------------------------------- which row acts

  lemma {:induction false} FlaggedAreListed(rows: seq<Instance>, key: Key, r: Instance)
    requires r in rows && IsActiveBranch(r, key)
    ensures r in ActiveParallel(rows, key)
  {
    var front, last := rows[..|rows| - 1], rows[|rows| - 1];
    assert rows == front + [last];
    if r != last {
      FlaggedAreListed(front, key, r);
    }
  }

  /** A branch whose last row is in a state that offers the action. */
  ghost predicate BranchOffers(def: Definition, rows: seq<Instance>, key: Key, action: string) {
    exists i: nat :: i < |rows| && IsBranch(rows[i], key) && !Superseded(rows, i)
                     && Offered(def, key.tenant, rows[i].currentState, action).Some?
  }

  lemma OfferingBranchActs(def: Definition, rows: seq<Instance>, req: Request)
    requires Sound(rows) && req.action != "" && BranchOffers(def, rows, req.key, req.action)
    ensures BranchFor(def, rows, req).Some?
  {
    OfferingIsListed(def, ActiveParallel(rows, req.key), req.key.tenant, req.action);
    var i: nat :| i < |rows| && IsBranch(rows[i], req.key) && !Superseded(rows, i)
      && Offered(def, req.key.tenant, rows[i].currentState, req.action).Some?;
    assert rows[i] in rows && SoundAt(rows, i);
    FlaggedAreListed(rows, req.key, rows[i]);
  }

  lemma ActingBranchOffers(def: Definition, rows: seq<Instance>, req: Request)
    requires Sound(rows) && BranchFor(def, rows, req).Some?
    ensures BranchOffers(def, rows, req.key, req.action)
    ensures BranchFor(def, rows, req).value.isParallelBranch
  {
    var r := BranchFor(def, rows, req).value;
    OfferingIsListed(def, ActiveParallel(rows, req.key), req.key.tenant, req.action);
    ListedAreRows(rows, req.key);
    var i: nat :| i < |rows| && rows[i] == r;
    assert SoundAt(rows, i) && !Superseded(rows, i);
  }

  /** An action goes to a branch exactly when some branch's last row offers it, the linear row notwithstanding. */
  lemma BranchActsIff(def: Definition, reqs: seq<Request>, rows: seq<Instance>, req: Request)
    requires History(def, reqs, rows) && req.action != ""
    ensures BranchOffers(def, rows, req.key, req.action)
       <==> Picked(def, rows, req).Ok? && Picked(def, rows, req).value.1.isParallelBranch
  {
    if BranchOffers(def, rows, req.key, req.action) {
      OfferingBranchActs(def, rows, req);
      ActingBranchOffers(def, rows, req);
    }
    if Picked(def, rows, req).Ok? && Picked(def, rows, req).value.1.isParallelBranch {
      PickedBranch(def, reqs, rows, req);
      ActingBranchOffers(def, rows, req);
    }
  }

  lemma {:induction false} LinearInsertKeepsList(rows: seq<Instance>, inst: Instance, key: Key, n: nat)
    requires !inst.isParallelBranch && n <= |rows|
    ensures ActiveParallel(Inserted(rows, inst)[..n], key) == ActiveParallel(rows[..n], key)
  {
    var after := Inserted(rows, inst);
    if n > 0 {
      LinearInsertKeepsList(rows, inst, key, n - 1);
      assert after[..n][..n - 1] == after[..n - 1] && rows[..n][..n - 1] == rows[..n - 1];
      assert after[n - 1] == rows[n - 1] || !rows[n - 1].isParallelBranch;
    }
  }

  function TargetFor(def: Definition, existing: Instance, req: Request): Option<State> {
    match Offered(def, req.key.tenant, existing.currentState, req.action)
    case None => None
    case Some(a) => StateByID(def.states, req.key.tenant, a.nextState)
  }

  lemma ActedMergeIsJoin(def: Definition, db: Db, existing: Instance, req: Request)
    requires Acted(def, db, existing, req).kind == Merge
    ensures existing.branchId.Some? && TargetFor(def, existing, req).Some?
    ensures Acted(def, db, existing, req) == JoinStep(db, existing, TargetFor(def, existing, req).value, req)
  {
  }

  lemma MergeIsBranchJoin(def: Definition, earlier: seq<Request>, db: Db, req: Request)
    requires History(def, earlier, db.rows) && Keyed(db.execs) && Transitioned(def, db, req).kind == Merge
    ensures BranchFor(def, db.rows, req).Some? && TargetFor(def, BranchFor(def, db.rows, req).value, req).Some?
    ensures var branch := BranchFor(def, db.rows, req).value;
            Transitioned(def, db, req) == JoinStep(db, branch, TargetFor(def, branch, req).value, req)
  {
    var rows, existing, i := TransitionActs(def, earlier, db, req);
    ActedMergeIsJoin(def, db.(rows := rows), existing, req);
    PickedWellFormed(def, earlier, db.rows, req);
    PickedBranch(def, earlier, db.rows, req);
  }

  lemma PickedWellFormed(def: Definition, earlier: seq<Request>, rows: seq<Instance>, req: Request)
    requires History(def, earlier, rows) && Picked(def, rows, req).Ok?
    ensures WellFormed(Picked(def, rows, req).value.1)
  {
    PickedHistory(def, earlier, rows, req);
  }

  lemma MergeAppends(db: Db, existing: Instance, target: State, req: Request) returns (inst: Instance)
    requires JoinStep(db, existing, target, req).kind == Merge
    ensures var out := JoinStep(db, existing, target, req);
            && inst.key == existing.key && !inst.isParallelBranch
            && out.db.rows == Inserted(db.rows, inst) && out.result == Ok(Stored(db.rows, inst))
  {
    var execs := Marked(db.execs, existing.key, existing.branchId.value);
    var parallelState := FirstRunning(db.execs, existing.key).value.parallelState;
    GetExecIs(execs, existing.key, parallelState);
    var exec := GetExec(execs, existing.key, parallelState).value;
    inst := MergedRow(exec, ActiveParallel(db.rows, exec.key), req, target.id);
  }

  /**
   * After a merge the linear row acts exactly on what no drawn row's state offers, for a request that names no other
   * current state than its own; the merge retires none of the drawn rows.
   */
  lemma MergedRowActsIff(def: Definition, earlier: seq<Request>, db: Db, req: Request, next: Request)
    requires History(def, earlier, db.rows) && Keyed(db.execs) && Transitioned(def, db, req).kind == Merge
    requires next.key == req.key && next.action != ""
    ensures var out := Transitioned(def, db, req);
            && out.result.Ok?
            && (Picked(def, out.db.rows, next) == Ok((out.db.rows, out.result.value))
                <==> && (forall r <- ActiveParallel(db.rows, req.key) ::
                           Offered(def, req.key.tenant, r.currentState, next.action).None?)
                     && (next.currentState.None? || next.currentState.value == out.result.value.currentState))
  {
    hide Transitioned, Picked;
    MergeIsBranchJoin(def, earlier, db, req);
    var branch := BranchFor(def, db.rows, req).value;
    BranchOfKey(def, db.rows, req);
    var inst := MergeAppends(db, branch, TargetFor(def, branch, req).value, req);
    TransitionKeepsHistory(def, earlier, db, req);
    NewLinearActsIff(def, db.rows, inst, next);
  }

  lemma BranchOfKey(def: Definition, rows: seq<Instance>, req: Request)
    requires BranchFor(def, rows, req).Some?
    ensures BranchFor(def, rows, req).value.key == req.key
  {
    OfferingIsListed(def, ActiveParallel(rows, req.key), req.key.tenant, req.action);
    ListedAreRows(rows, req.key);
  }

  lemma NewLinearActsIff(def: Definition, rows: seq<Instance>, inst: Instance, next: Request)
    requires Sound(Inserted(rows, inst)) && !inst.isParallelBranch && inst.key == next.key && next.action != ""
    ensures Picked(def, Inserted(rows, inst), next) == Ok((Inserted(rows, inst), Stored(rows, inst)))
       <==> && (forall r <- ActiveParallel(rows, next.key) ::
                  Offered(def, next.key.tenant, r.currentState, next.action).None?)
            && (next.currentState.None? || next.currentState.value == inst.currentState)
  {
    LinearInsertKeepsList(rows, inst, next.key, |rows|);
    assert rows[..|rows|] == rows;
    ListsAfter(rows, inst, next.key);
    OfferingIsListed(def, ActiveParallel(rows, next.key), next.key.tenant, next.action);
    FlagIsLastLinear(Inserted(rows, inst), next.key);
    ListedAreRows(rows, next.key);
  }

  lemma ListsAfter(rows: seq<Instance>, inst: Instance, key: Key)
    requires !inst.isParallelBranch
    requires ActiveParallel(Inserted(rows, inst)[..|rows|], key) == ActiveParallel(rows, key)
    ensures ActiveParallel(Inserted(rows, inst), key) == ActiveParallel(rows, key)
    ensures inst.key == key ==> LastLinear(Inserted(rows, inst), key) == Some(Stored(rows, inst))
  {
    assert Inserted(rows, inst)[|rows|] == Stored(rows, inst);
  }

  /** What the guard asks of a request that goes to a branch. */
  function AskedOf(def: Definition, branch: Instance, req: Request): Option<Attributes> {
    match Offered(def, req.key.tenant, branch.currentState, req.action)
    case None => None
    case Some(a) => Some(a.required)
  }

  lemma JoinDropsPayload(db: Db, existing: Instance, target: State, req: Request, other: Request)
    requires req.action == other.action
    requires JoinStep(db, existing, target, req).kind == Merge
    ensures JoinStep(db, existing, target, other) == JoinStep(db, existing, target, req)
       <==> IsEscalation(other) == IsEscalation(req)
  {
  }

  /**
   * What the last joiner sends with its request is checked by the guard and then dropped: another request for the same
   * action has the same outcome exactly when the guard lets it pass and its comment escalates as much or as little.
   */
  lemma LastPayloadDropped(def: Definition, earlier: seq<Request>, db: Db, req: Request, other: Request)
    requires History(def, earlier, db.rows) && Keyed(db.execs) && Transitioned(def, db, req).kind == Merge
    requires other.key == req.key && other.action == req.action
    ensures BranchFor(def, db.rows, req).Some? && AskedOf(def, BranchFor(def, db.rows, req).value, req).Some?
    ensures Transitioned(def, db, other) == Transitioned(def, db, req)
       <==> GuardOk(other.attributes, AskedOf(def, BranchFor(def, db.rows, req).value, req).value)
            && IsEscalation(other) == IsEscalation(req)
  {
    MergeIsBranchJoin(def, earlier, db, req);
    var branch := BranchFor(def, db.rows, req).value;
    JoinDropsPayload(db, branch, TargetFor(def, branch, req).value, req, other);
    SameBranchActs(def, db, branch, req, other);
  }

  lemma SameBranchActs(def: Definition, db: Db, branch: Instance, req: Request, other: Request)
    requires other.key == req.key && other.action == req.action && BranchFor(def, db.rows, req) == Some(branch)
    requires Transitioned(def, db, req).kind == Merge
    ensures AskedOf(def, branch, req).Some? && TargetFor(def, branch, req).Some?
    ensures var target := TargetFor(def, branch, req).value;
            Transitioned(def, db, other)
            == if GuardOk(other.attributes, AskedOf(def, branch, req).value) then JoinStep(db, branch, target, other)
               else Outcome(db, Err(NotAuthorized), Stay)
  {
  }
}
