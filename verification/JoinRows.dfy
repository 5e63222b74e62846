/**
 * The joins of an execution as interleaving steps, with the history rows they write: what a merge would draw at any moment,
 * and what the documents of a join come to when another merges first.
 */
module JoinRows {
  import opened Prelude
  import opened Lists
  import opened WorkflowModel
  import opened WorkflowHistory
  import opened WorkflowOrigins
  import opened WorkflowRuns
  import opened WorkflowContents
  import J = JoinRace
  import X = WorkflowExample

  /** A request and the branch row it was picked for. */
  datatype Join = Join(existing: Instance, req: Request)

  /** The execution, its join state, and one request for each of its branches. */
  datatype Setup = Setup(exec: Execution, target: State, joins: seq<Join>)

  /** The race, the history, and for each branch the row it has by now. */
  datatype RowRace = RowRace(race: J.Race, rows: seq<Instance>, current: seq<Instance>)

  predicate Waits(r: J.Race, i: nat)
    requires i < |r.phases| && r.phases[i].Read?
  {
    |r.phases[i].seen| < |r.branches|
  }

  predicate Sized(x: Setup, s: RowRace) {
    |x.joins| == |s.current| == |s.race.branches|
  }

  /** What deciding writes: a waiting row, or a row merged from the branches' rows as they are then. */
  function DecidedRow(x: Setup, s: RowRace, i: nat): Instance
    requires Sized(x, s) && J.Enabled(s.race, J.Decide(i))
  {
    if Waits(s.race, i) then WaitingRow(x.joins[i].existing, x.joins[i].req, x.target.id)
    else MergedRow(x.exec, ActiveParallel(s.rows, x.exec.key), x.joins[i].req, x.target.id)
  }

  function RowStep(x: Setup, s: RowRace, e: J.Event): RowRace
    requires Sized(x, s) && J.Enabled(s.race, e)
  {
    var race := J.Step(s.race, e);
    if !e.Decide? then s.(race := race)
    else
      var row := DecidedRow(x, s, e.i);
      RowRace(race, Inserted(s.rows, row),
              if Waits(s.race, e.i) then s.current[e.i := Stored(s.rows, row)] else s.current)
  }

  function RowRun(x: Setup, s: RowRace, events: seq<J.Event>): (r: RowRace)
    requires Sized(x, s) && J.Valid(s.race, events)
    ensures Sized(x, r) && r.race == J.After(s.race, events)
    decreases |events|
  {
    if events == [] then s else RowRun(x, RowStep(x, s, events[0]), events[1..])
  }

  // ---------------------------------------------------------------- the branches' rows are what is listed

  /** The waiting row of a request, as stored. */
  predicate IsWaitingRow(x: Setup, j: Join, row: Instance) {
    row == WaitingRow(j.existing, j.req, x.target.id).(id := row.id, isLatest := true)
  }

  ghost predicate OfBranch(x: Setup, branch: string, row: Instance) {
    row.key == x.exec.key && row.isParallelBranch && row.branchId == Some(branch) && WellFormed(row)
  }

  /** A branch whose request waits has its waiting row, and any other the row its request was picked for. */
  ghost predicate CurrentOf(x: Setup, s: RowRace, j: nat)
    requires Sized(x, s) && j < |s.current| && |s.race.phases| == |s.race.branches|
  {
    && OfBranch(x, s.race.branches[j], s.current[j]) && s.current[j].isLatest
    && OfBranch(x, s.race.branches[j], x.joins[j].existing)
    && if s.race.phases[j] == J.Waiting then IsWaitingRow(x, x.joins[j], s.current[j])
       else s.current[j] == x.joins[j].existing
  }

  ghost predicate Listed(x: Setup, s: RowRace) {
    forall row :: row in s.rows && IsActiveBranch(row, x.exec.key) <==> row in s.current
  }

  ghost predicate RowInv(x: Setup, s: RowRace) {
    && Sized(x, s) && |s.race.phases| == |s.race.branches| && Distinct(s.race.branches) && Sound(s.rows)
    && (forall j: nat | j < |s.current| :: CurrentOf(x, s, j))
    && Listed(x, s)
  }

  lemma LinearKeepsListed(x: Setup, s: RowRace, row: Instance)
    requires Listed(x, s) && !row.isParallelBranch
    ensures Listed(x, s.(rows := Inserted(s.rows, row)))
  {
    var after := Inserted(s.rows, row);
    forall r ensures r in after && IsActiveBranch(r, x.exec.key) <==> r in s.rows && IsActiveBranch(r, x.exec.key) {
      if r in after && IsActiveBranch(r, x.exec.key) {
        var k :| 0 <= k < |after| && after[k] == r;
        assert k < |s.rows| && s.rows[k] == r;
      }
      if r in s.rows && IsActiveBranch(r, x.exec.key) {
        var k :| 0 <= k < |s.rows| && s.rows[k] == r;
        assert after[k] == r;
      }
    }
  }

  lemma BranchReplaced(x: Setup, s: RowRace, i: nat, row: Instance)
    requires RowInv(x, s) && i < |s.current| && OfBranch(x, s.race.branches[i], row)
    ensures Listed(x, s.(rows := Inserted(s.rows, row), current := s.current[i := Stored(s.rows, row)]))
  {
    var after, current := Inserted(s.rows, row), s.current[i := Stored(s.rows, row)];
    forall r | r in after && IsActiveBranch(r, x.exec.key) ensures r in current {
      var k :| 0 <= k < |after| && after[k] == r;
      if k < |s.rows| {
        assert s.rows[k] == r && r in s.rows;
        var j: nat :| j < |s.current| && s.current[j] == r;
        assert CurrentOf(x, s, j) && j != i;
        assert current[j] == r;
      } else {
        assert current[i] == r;
      }
    }
    forall r | r in current ensures r in after && IsActiveBranch(r, x.exec.key) {
      var j: nat :| j < |current| && current[j] == r;
      if j == i {
        assert after[|s.rows|] == r;
      } else {
        assert CurrentOf(x, s, j) && s.current[j] in s.current;
        var k :| 0 <= k < |s.rows| && s.rows[k] == r;
        assert after[k] == r;
      }
    }
  }

  lemma WaitKeepsRowInv(x: Setup, s: RowRace, i: nat)
    requires RowInv(x, s) && J.Enabled(s.race, J.Decide(i)) && Waits(s.race, i)
    ensures RowInv(x, RowStep(x, s, J.Decide(i)))
  {
    hide Listed;
    var row, after := DecidedRow(x, s, i), RowStep(x, s, J.Decide(i));
    assert CurrentOf(x, s, i);
    InsertedSound(s.rows, row);
    BranchReplaced(x, s, i, row);
    SameListed(x, s.(rows := after.rows, current := after.current), after);
    forall j: nat | j < |after.current| ensures CurrentOf(x, after, j) {
      assert CurrentOf(x, s, j);
    }
  }

  lemma SameListed(x: Setup, s: RowRace, s': RowRace)
    requires Listed(x, s) && s.rows == s'.rows && s.current == s'.current
    ensures Listed(x, s')
  {
  }

  lemma MergeKeepsRowInv(x: Setup, s: RowRace, i: nat)
    requires RowInv(x, s) && J.Enabled(s.race, J.Decide(i)) && !Waits(s.race, i)
    ensures RowInv(x, RowStep(x, s, J.Decide(i)))
  {
    hide Listed;
    var row, after := DecidedRow(x, s, i), RowStep(x, s, J.Decide(i));
    InsertedSound(s.rows, row);
    LinearKeepsListed(x, s, row);
    SameListed(x, s.(rows := after.rows), after);
    forall j: nat | j < |after.current| ensures CurrentOf(x, after, j) {
      assert CurrentOf(x, s, j);
    }
  }

  lemma StepKeepsRowInv(x: Setup, s: RowRace, e: J.Event)
    requires RowInv(x, s) && J.Enabled(s.race, e)
    ensures RowInv(x, RowStep(x, s, e))
  {
    hide Listed;
    if e.Decide? {
      if Waits(s.race, e.i) { WaitKeepsRowInv(x, s, e.i); } else { MergeKeepsRowInv(x, s, e.i); }
    } else {
      var after := RowStep(x, s, e);
      SameListed(x, s, after);
      forall j: nat | j < |after.current| ensures CurrentOf(x, after, j) {
        assert CurrentOf(x, s, j);
      }
    }
  }

  lemma {:induction false} RunKeepsRowInv(x: Setup, s: RowRace, events: seq<J.Event>)
    requires RowInv(x, s) && J.Valid(s.race, events)
    ensures RowInv(x, RowRun(x, s, events))
    decreases |events|
  {
    hide RowInv, RowStep;
    if events != [] {
      StepKeepsRowInv(x, s, events[0]);
      StepIsRaceStep(x, s, events[0]);
      RunKeepsRowInv(x, RowStep(x, s, events[0]), events[1..]);
    }
  }

  lemma StepIsRaceStep(x: Setup, s: RowRace, e: J.Event)
    requires RowInv(x, s) && J.Enabled(s.race, e)
    ensures Sized(x, s) && RowStep(x, s, e).race == J.Step(s.race, e) && Sized(x, RowStep(x, s, e))
  {
  }

  // ---------------------------------------------------------------- what a merge draws

  function Existing(joins: seq<Join>): seq<Instance> {
    seq(|joins|, j requires 0 <= j < |joins| => joins[j].existing)
  }

  /** The race as it begins: each request was picked for its branch's row, and the key has no other branch rows. */
  ghost predicate Begins(x: Setup, rows: seq<Instance>) {
    && Distinct(x.exec.active) && |x.joins| == |x.exec.active| && Sound(rows)
    && (forall j: nat | j < |x.joins| :: OfBranch(x, x.exec.active[j], x.joins[j].existing))
    && forall r :: r in ActiveParallel(rows, x.exec.key) <==> r in Existing(x.joins)
  }

  function Begun(x: Setup, rows: seq<Instance>): RowRace {
    RowRace(J.Forked(x.exec.active), rows, Existing(x.joins))
  }

  lemma ActiveIff(rows: seq<Instance>, key: Key, r: Instance)
    ensures r in ActiveParallel(rows, key) <==> r in rows && IsActiveBranch(r, key)
  {
    ListedAreRows(rows, key);
    if r in rows && IsActiveBranch(r, key) { FlaggedAreListed(rows, key, r); }
  }

  lemma BeginsInv(x: Setup, rows: seq<Instance>)
    requires Begins(x, rows)
    ensures RowInv(x, Begun(x, rows))
  {
    var s := Begun(x, rows);
    forall r ensures r in rows && IsActiveBranch(r, x.exec.key) <==> r in s.current { ActiveIff(rows, x.exec.key, r); }
    forall j: nat | j < |s.current| ensures CurrentOf(x, s, j) {
      ActiveIff(rows, x.exec.key, s.current[j]);
      assert s.current[j] in s.current;
    }
  }

  /** A request is past its decision exactly when the schedule has it. */
  lemma {:induction false} DecidedIff(r: J.Race, events: seq<J.Event>, i: nat)
    requires J.Valid(r, events) && i < |r.phases| == |r.branches|
    ensures |J.After(r, events).phases| == |r.phases|
    ensures J.PastRead(J.After(r, events).phases[i]) <==> J.PastRead(r.phases[i]) || J.Decide(i) in events
    decreases |events|
  {
    if events != [] {
      assert events == [events[0]] + events[1..];
      DecidedIff(J.Step(r, events[0]), events[1..], i);
    }
  }

  /**
   * At any moment of any schedule the listed branch rows are one for each branch: the waiting row of a request that has
   * decided to wait, and for every other request, decided or not, the row it was picked for.
   */
  lemma ListedRows(x: Setup, rows: seq<Instance>, events: seq<J.Event>, j: nat)
    requires Begins(x, rows) && J.Valid(J.Forked(x.exec.active), events) && j < |x.joins|
    ensures var s := RowRun(x, Begun(x, rows), events);
            && |s.race.phases| == |x.joins| == |s.current|
            && (forall r :: r in ActiveParallel(s.rows, x.exec.key) <==> r in s.current)
            && s.current[j].branchId == Some(x.exec.active[j])
            && (J.Decide(j) in events <==> J.PastRead(s.race.phases[j]))
            && if s.race.phases[j] == J.Waiting then IsWaitingRow(x, x.joins[j], s.current[j])
               else s.current[j] == x.joins[j].existing
  {
    hide RowRun;
    BeginsInv(x, rows);
    var s := Begun(x, rows);
    RunKeepsRowInv(x, s, events);
    J.KeepsBranches(s.race, events);
    DecidedIff(s.race, events, j);
    var end := RowRun(x, s, events);
    assert CurrentOf(x, end, j);
    forall r ensures r in ActiveParallel(end.rows, x.exec.key) <==> r in end.current { ActiveIff(end.rows, x.exec.key, r); }
  }

  lemma {:induction false} DrawnDocument(drawn: seq<Instance>, d: string)
    ensures d in DocumentsDrawn(drawn) <==> exists r <- drawn :: d in r.documents
  {
    if drawn != [] {
      DrawnDocument(drawn[1..], d);
      assert drawn == [drawn[0]] + drawn[1..];
    }
  }

  /** The documents that a branch contributes to a merge: those sent with the join once it waits, else its row's. */
  function Contributed(x: Setup, r: J.Race, j: nat): seq<string>
    requires j < |x.joins| == |r.phases|
  {
    if r.phases[j] == J.Waiting then x.joins[j].req.documents else x.joins[j].existing.documents
  }

  /** A merge takes the documents of a join exactly if that request has decided, and waits, before it. */
  lemma MergeDocumentsIff(x: Setup, rows: seq<Instance>, events: seq<J.Event>, i: nat, d: string)
    requires Begins(x, rows) && J.Valid(J.Forked(x.exec.active), events)
    requires J.Enabled(J.After(J.Forked(x.exec.active), events), J.Decide(i))
    requires !Waits(J.After(J.Forked(x.exec.active), events), i)
    ensures var s := RowRun(x, Begun(x, rows), events);
            && |s.race.phases| == |x.joins|
            && (d in DecidedRow(x, s, i).documents
                <==> exists j :: 0 <= j < |x.joins| && d in Contributed(x, s.race, j))
  {
    hide RowRun, ActiveParallel, DecidedRow;
    var s := RowRun(x, Begun(x, rows), events);
    ListedRows(x, rows, events, i);
    var drawn := ActiveParallel(s.rows, x.exec.key);
    MergedDocumentsOf(x, s, i);
    MergedIsDrawn(drawn, "");
    DrawnDocument(drawn, d);
    forall j: nat | j < |x.joins| ensures s.current[j].documents == Contributed(x, s.race, j) && s.current[j] in drawn {
      ListedRows(x, rows, events, j);
      assert s.current[j] in s.current;
    }
    if r :| r in drawn && d in r.documents {
      var j: nat :| j < |s.current| && s.current[j] == r;
      assert d in Contributed(x, s.race, j);
    }
  }

  lemma MergedDocumentsOf(x: Setup, s: RowRace, i: nat)
    requires Sized(x, s) && J.Enabled(s.race, J.Decide(i)) && !Waits(s.race, i)
    ensures DecidedRow(x, s, i).documents == MergedDocuments(ActiveParallel(s.rows, x.exec.key))
  {
  }

  // ---------------------------------------------------------------- uninterrupted, the rows are those of the service's join

  function JoinedRows(x: Setup, s: RowRace, i: nat): seq<Instance>
    requires Sized(x, s) && i < |s.race.phases| == |s.race.branches| && s.race.running && s.race.phases[i] == J.Start
  {
    RowStep(x, RowStep(x, RowStep(x, RowStep(x, s, J.Find(i)), J.Mark(i)), J.Reread(i)), J.Decide(i)).rows
  }

  lemma UninterruptedWritesRows(db: Db, existing: Instance, req: Request, x: Setup, s: RowRace, i: nat)
    requires WorkflowJoin.Keyed(db.execs) && FirstRunning(db.execs, existing.key).Some?
    requires J.Shows(s.race, FirstRunning(db.execs, existing.key).value) && s.rows == db.rows && Sized(x, s)
    requires i < |s.race.phases| == |s.race.branches| && s.race.phases[i] == J.Start
    requires existing.branchId == Some(s.race.branches[i]) && x.joins[i] == Join(existing, req)
    requires x.exec.key == existing.key && x.exec.active == s.race.branches
    ensures s.race.running && JoinedRows(x, s, i) == JoinStep(db, existing, x.target, req).db.rows
  {
    WorkflowJoin.FirstRunningIs(db.execs, existing.key);
    var e := FirstRunning(db.execs, existing.key).value;
    var at: nat :| at < |db.execs| && db.execs[at] == e;
    var execs := Marked(db.execs, existing.key, existing.branchId.value);
    WorkflowJoin.MarkedKeyed(db.execs, existing.key, existing.branchId.value);
    WorkflowJoin.GetExecAt(execs, at);
    var updated := MarkedExec(e, existing.key, existing.branchId.value);
    assert updated.completed == J.MarkOf(s.race, i);
  }

  // ---------------------------------------------------------------- a decision that comes too late

  /** The example process after its fork; the first branch's join sends a document. */
  function LateSetup(): Setup {
    Setup(X.AFTER_FORK.execs[0], X.BOTH, [Join(X.ON_A, X.Ask(X.DONE_A, ["d"])), Join(X.ON_B, X.Ask(X.DONE_B, []))])
  }

  const LATE: seq<J.Event> := [J.Find(0), J.Find(1)] + ([J.Mark(0), J.Reread(0)] + ([J.Mark(1), J.Reread(1)] + []))

  lemma LateSchedule()
    ensures J.Valid(J.Forked(["a", "b"]), LATE)
    ensures J.After(J.Forked(["a", "b"]), LATE) == J.Race(["a", "b"], ["a", "b"], true, [J.Read(["a"]), J.Read(["a", "b"])])
  {
    var all := ["a", "b"];
    var found, one := J.Race(all, [], true, [J.Found, J.Found]), J.Race(all, ["a"], true, [J.Read(["a"]), J.Found]);
    assert J.Forked(all).phases == [J.Start, J.Start] && [] + ["a"] == ["a"] && ["a"] + ["b"] == all;
    J.TwoSteps(one, J.Race(all, all, true, [J.Read(["a"]), J.Read(all)]), J.Mark(1), J.Reread(1), []);
    J.TwoSteps(found, one, J.Mark(0), J.Reread(0), [J.Mark(1), J.Reread(1)] + []);
    J.TwoSteps(J.Forked(all), found, J.Find(0), J.Find(1), [J.Mark(0), J.Reread(0)] + ([J.Mark(1), J.Reread(1)] + []));
  }

  lemma SoundAfterFork()
    ensures Sound(X.AFTER_FORK.rows)
  {
    hide Transitioned;
    X.Forks();
    EmptyHistory(X.DEF);
    TransitionKeepsHistory(X.DEF, [], Db([], []), X.Ask(X.GO, []));
  }

  lemma LateBegins()
    ensures Begins(LateSetup(), X.AFTER_FORK.rows)
  {
    hide Sound, ActiveParallel;
    var x, rows := LateSetup(), X.AFTER_FORK.rows;
    SoundAfterFork();
    X.ActiveAfterFork();
    assert Existing(x.joins) == [X.ON_A, X.ON_B];
  }

  /** Between a request's re-read and its waiting row another may merge, without the document the first has sent. */
  lemma LateDocumentLost()
    ensures var x := LateSetup();
            && Begins(x, X.AFTER_FORK.rows) && J.Valid(J.Forked(x.exec.active), LATE)
            && J.Enabled(J.After(J.Forked(x.exec.active), LATE), J.Decide(1))
            && !Waits(J.After(J.Forked(x.exec.active), LATE), 1)
            && var s := RowRun(x, Begun(x, X.AFTER_FORK.rows), LATE);
               x.joins[0].req.documents == ["d"] && "d" !in DecidedRow(x, s, 1).documents
  {
    hide RowRun, DecidedRow, Begins, J.Valid, J.After, LATE;
    var x := LateSetup();
    LateBegins();
    LateSchedule();
    MergeDocumentsIff(x, X.AFTER_FORK.rows, LATE, 1, "d");
  }
}
