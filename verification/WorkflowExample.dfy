/**
 * A process with two branches, run from nothing stored: it forks, waits for the second branch and merges, with every row
 * and execution written out. The action that should then close it goes to the branch row that waited.
 */
module WorkflowExample {
  import opened Prelude
  import opened GoStrings
  import opened WorkflowModel
  import opened WorkflowOrigins

  const OPEN := State("t", "0", "p", "open", true, false, false, [])
  const REVIEW := State("t", "1", "p", "review", false, true, false, ["a", "b"])
  const SIDE_A := State("t", "2", "p", "a", false, false, false, [])
  const SIDE_B := State("t", "3", "p", "b", false, false, false, [])
  const BOTH := State("t", "4", "p", "both", false, false, true, [])
  const CLOSED := State("t", "5", "p", "closed", false, false, false, [])

  const GO := Action("t", "go", "0", "1", map[])
  const DONE_A := Action("t", "doneA", "2", "4", map[])
  const DONE_B := Action("t", "doneB", "3", "4", map[])
  const CLOSE := Action("t", "close", "4", "5", map[])

  const DEF := Definition([OPEN, REVIEW, SIDE_A, SIDE_B, BOTH, CLOSED], [GO, DONE_A, DONE_B, CLOSE])

  const KEY := Key("t", "e", "p")

  function Ask(a: Action, documents: seq<string>): Request {
    Request(KEY, a.name, None, None, documents, None, [], map[])
  }

  // ---------------------------------------------------------------- the rows written

  const INITIAL := Instance(0, KEY, "", Active, None, [], None, [], "0", map[], None, None, false, true,
                            None, None, false)
  const ON_A := Instance(1, KEY, "go", Active, None, [], None, [], "2", map[], Some(0), Some("a"), true, true,
                         None, None, false)
  const ON_B := Instance(2, KEY, "go", Active, None, [], None, [], "3", map[], Some(0), Some("b"), true, true,
                         None, None, false)
  const WAITING := Instance(3, KEY, "doneA", WaitingForJoin, None, [], None, [], "4", map[], Some(0), Some("a"), true,
                            true, None, None, false)
  const MERGED := Instance(4, KEY, "doneB", Active, Some("Merged from parallel branches: " + "a, b"), [], None, [], "4",
                           map[], None, None, false, true, None, None, false)

  const AFTER_FORK := Db([INITIAL, ON_A, ON_B], [Execution(0, KEY, "1", "4", ["a", "b"], [], Running)])
  const AFTER_WAIT := Db([INITIAL, ON_A.(isLatest := false), ON_B, WAITING],
                         [Execution(0, KEY, "1", "4", ["a", "b"], ["a"], Running)])
  const AFTER_MERGE := Db([INITIAL.(isLatest := false), ON_A.(isLatest := false), ON_B, WAITING, MERGED],
                          [Execution(0, KEY, "1", "4", ["a", "b"], ["a", "b"], Finished)])

  const ALL_MARKED := Execution(0, KEY, "1", "4", ["a", "b"], ["a", "b"], Running)

  // ---------------------------------------------------------------- looking up the definition

  lemma {:induction false} ByIDAt(states: seq<State>, id: string, i: nat)
    requires i < |states| && states[i].tenant == "t" && states[i].id == id && forall j | 0 <= j < i :: states[j].id != id
    ensures StateByID(states, "t", id) == Some(states[i])
  {
    if i > 0 { ByIDAt(states[1..], id, i - 1); }
  }

  lemma {:induction false} ByCodeAt(states: seq<State>, code: string, i: nat)
    requires i < |states| && states[i].tenant == "t" && states[i].process == "p" && states[i].code == code
    requires forall j | 0 <= j < i :: states[j].code != code
    ensures StateByCode(states, "t", "p", code) == Some(states[i])
  {
    if i > 0 { ByCodeAt(states[1..], code, i - 1); }
  }

  lemma {:induction false} FirstJoinAt(states: seq<State>, i: nat)
    requires i < |states| && states[i].isJoin && forall j | 0 <= j < i :: !states[j].isJoin
    ensures FirstJoin(states) == Some(states[i])
  {
    if i > 0 { FirstJoinAt(states[1..], i - 1); }
  }

  lemma {:induction false} AllOfProcess(states: seq<State>)
    requires forall s <- states :: s.tenant == "t" && s.process == "p"
    ensures StatesOf(states, "t", "p") == states
  {
    if states != [] {
      AllOfProcess(states[1..]);
      assert states == [states[0]] + states[1..];
    }
  }

  lemma OnlyOffer(a: Action)
    requires a in DEF.actions
    ensures Offered(DEF, "t", a.currentState, a.name) == Some(a)
  {
    OfferedLeaves(DEF, "t", a.currentState, a.name);
    ActionsFromIn(DEF.actions, "t", a.currentState);
    NamedIn(ActionsFrom(DEF.actions, "t", a.currentState), a.name);
  }

  lemma NoOffer(state: string, name: string)
    requires forall a <- DEF.actions :: a.currentState != state || a.name != name
    ensures Offered(DEF, "t", state, name) == None
  {
    OfferedLeaves(DEF, "t", state, name);
  }

  // ---------------------------------------------------------------- the fork

  lemma StartPicked()
    ensures Picked(DEF, [], Ask(GO, [])) == Ok(([INITIAL], INITIAL))
  {
    var req := Ask(GO, []);
    AllOfProcess(DEF.states);
    assert InitialFor(DEF, KEY) == Ok(OPEN);
    assert BranchFor(DEF, [], req) == None && LatestLinear([], KEY) == None;
    assert Inserted([], InitialRow(req, "0")) == [INITIAL] && Stored([], InitialRow(req, "0")) == INITIAL;
  }

  lemma TwoBranchRows()
    ensures ForkRows(DEF, [INITIAL], INITIAL, Ask(GO, []), ["a", "b"]) == ([INITIAL, ON_A, ON_B], true)
  {
    var req := Ask(GO, []);
    ByCodeAt(DEF.states, "a", 2);
    ByCodeAt(DEF.states, "b", 3);
    assert Inserted([INITIAL], BranchRow(INITIAL, req, "a", "2")) == [INITIAL, ON_A];
    assert Inserted([INITIAL, ON_A], BranchRow(INITIAL, req, "b", "3")) == [INITIAL, ON_A, ON_B];
    ForkOne([INITIAL, ON_A, ON_B], []);
    ForkOne([INITIAL, ON_A], ["b"]);
    ForkOne([INITIAL], ["a", "b"]);
  }

  lemma ForkOne(rows: seq<Instance>, branches: seq<string>)
    ensures ForkRows(DEF, rows, INITIAL, Ask(GO, []), branches)
         == if branches == [] then (rows, true)
            else match StateByCode(DEF.states, "t", "p", branches[0])
                 case None => (rows, false)
                 case Some(s) => ForkRows(DEF, Inserted(rows, BranchRow(INITIAL, Ask(GO, []), branches[0], s.id)), INITIAL,
                                          Ask(GO, []), branches[1..])
  {
  }

  lemma Forks()
    ensures Transitioned(DEF, Db([], []), Ask(GO, [])) == Outcome(AFTER_FORK, Ok(ON_A), Fork)
  {
    hide Picked, ForkStep, StateByID, Offered;
    StartPicked();
    OnlyOffer(GO);
    ByIDAt(DEF.states, "1", 1);
    ForksFromInitial();
  }

  lemma JoinsAtBoth()
    ensures JoinStateFor(DEF, REVIEW) == Some(BOTH)
  {
    hide StatesOf, FirstJoin;
    AllOfProcess(DEF.states);
    FirstJoinAt(DEF.states, 4);
  }

  lemma ForksFromInitial()
    ensures ForkStep(DEF, Db([INITIAL], []), INITIAL, REVIEW, Ask(GO, [])) == Outcome(AFTER_FORK, Ok(ON_A), Fork)
  {
    hide ForkRows, StateByCode, JoinStateFor, DEF;
    JoinsAtBoth();
    TwoBranchRows();
    SideAFound();
    assert [] + [NewExec([], KEY, REVIEW, BOTH)] == AFTER_FORK.execs;
  }

  lemma SideAFound()
    ensures StateByCode(DEF.states, "t", "p", "a") == Some(SIDE_A)
  {
    ByCodeAt(DEF.states, "a", 2);
  }

  // ---------------------------------------------------------------- the first join waits

  lemma ActiveStep(rows: seq<Instance>, last: Instance)
    ensures ActiveParallel(rows + [last], KEY)
         == (if IsActiveBranch(last, KEY) then [last] else []) + ActiveParallel(rows, KEY)
  {
    assert (rows + [last])[..|rows|] == rows;
  }

  lemma ActiveAfterFork()
    ensures ActiveParallel(AFTER_FORK.rows, KEY) == [ON_B, ON_A]
  {
    ActiveStep([], INITIAL);
    ActiveStep([INITIAL], ON_A);
    ActiveStep([INITIAL, ON_A], ON_B);
    assert [INITIAL, ON_A, ON_B] == [INITIAL, ON_A] + [ON_B] && [] + [INITIAL] == [INITIAL];
    assert [INITIAL] + [ON_A] == [INITIAL, ON_A];
  }

  lemma Waits()
    ensures Transitioned(DEF, AFTER_FORK, Ask(DONE_A, [])) == Outcome(AFTER_WAIT, Ok(WAITING), Wait)
  {
    hide ActiveParallel, StateByID, Offered;
    var req := Ask(DONE_A, []);
    ActiveAfterFork();
    NoOffer("3", "doneA");
    OnlyOffer(DONE_A);
    assert Offering(DEF, [ON_B, ON_A][1..], "t", "doneA") == Some(ON_A);
    ByIDAt(DEF.states, "4", 4);
    assert Inserted(AFTER_FORK.rows, WaitingRow(ON_A, req, "4")) == AFTER_WAIT.rows;
    assert [] + ["a"] == ["a"];
    assert Marked(AFTER_FORK.execs, KEY, "a") == AFTER_WAIT.execs;
    assert JoinStep(AFTER_FORK, ON_A, BOTH, req) == Outcome(AFTER_WAIT, Ok(WAITING), Wait);
  }

  // ---------------------------------------------------------------- the second join merges

  lemma NoneActive()
    ensures ActiveParallel([], KEY) == []
  {
  }

  lemma ActiveAfterWait()
    ensures ActiveParallel(AFTER_WAIT.rows, KEY) == [WAITING, ON_B]
  {
    hide ActiveParallel;
    NoneActive();
    var gone := ON_A.(isLatest := false);
    ActiveStep([], INITIAL);
    ActiveStep([INITIAL], gone);
    ActiveStep([INITIAL, gone], ON_B);
    ActiveStep([INITIAL, gone, ON_B], WAITING);
    assert [] + [INITIAL] == [INITIAL] && [INITIAL] + [gone] == [INITIAL, gone];
    assert [INITIAL, gone] + [ON_B] == [INITIAL, gone, ON_B] && [INITIAL, gone, ON_B] + [WAITING] == AFTER_WAIT.rows;
  }

  lemma MergedOfTwo(documents: seq<string>)
    ensures Stored(AFTER_WAIT.rows, MergedRow(ALL_MARKED, [WAITING, ON_B], Ask(DONE_B, documents), "4")) == MERGED
  {
    var drawn := [WAITING, ON_B];
    NothingDrawn([]);
    NothingDrawn([WAITING]);
    NothingDrawn(drawn);
    assert Join(["b"], ", ") == "b" && ["a", "b"][1..] == ["b"];
    assert "a" + ", " + "b" == "a, b";
    assert Join(["a", "b"], ", ") == "a, b";
  }

  lemma NothingDrawn(drawn: seq<Instance>)
    requires drawn == [] || drawn == [WAITING] || drawn == [WAITING, ON_B]
    ensures MergedAttributes(drawn) == map[] && MergedDocuments(drawn) == [] && MergedAssignees(drawn) == []
    decreases |drawn|
  {
    if drawn != [] {
      var front := drawn[..|drawn| - 1];
      assert front == [] || front == [WAITING];
      NothingDrawn(front);
      assert Combine(map[], map[]) == map[];
    }
  }

  lemma MergeWrites(marked: Db, req: Request)
    requires marked == Db(AFTER_WAIT.rows, [ALL_MARKED]) && ActiveParallel(marked.rows, KEY) == [WAITING, ON_B]
    requires Stored(marked.rows, MergedRow(ALL_MARKED, [WAITING, ON_B], req, "4")) == MERGED
    ensures MergeStep(marked, ALL_MARKED, BOTH, req) == Outcome(AFTER_MERGE, Ok(MERGED), Merge)
  {
    hide ActiveParallel;
    var row := MergedRow(ALL_MARKED, [WAITING, ON_B], req, "4");
    assert Inserted(marked.rows, row) == AFTER_MERGE.rows;
    assert Replaced(marked.execs, ALL_MARKED.(status := Finished)) == AFTER_MERGE.execs;
  }

  lemma Merges(documents: seq<string>)
    ensures Transitioned(DEF, AFTER_WAIT, Ask(DONE_B, documents)) == Outcome(AFTER_MERGE, Ok(MERGED), Merge)
  {
    hide ActiveParallel, StateByID, Offered, MergedRow;
    var req := Ask(DONE_B, documents);
    ActiveAfterWait();
    NoOffer("4", "doneB");
    OnlyOffer(DONE_B);
    assert Offering(DEF, [WAITING, ON_B][1..], "t", "doneB") == Some(ON_B);
    ByIDAt(DEF.states, "4", 4);
    var marked := Db(AFTER_WAIT.rows, Marked(AFTER_WAIT.execs, KEY, "b"));
    assert ["a"] + ["b"] == ["a", "b"];
    assert marked.execs == [ALL_MARKED];
    MergedOfTwo(documents);
    MergeWrites(marked, req);
    assert JoinStep(AFTER_WAIT, ON_B, BOTH, req) == MergeStep(marked, ALL_MARKED, BOTH, req);
  }

  /** From nothing stored: the process forks, waits for the second branch, and merges; the last documents are dropped. */
  lemma ForkWaitMerge(documents: seq<string>)
    ensures Run(DEF, Db([], []), [Ask(GO, []), Ask(DONE_A, []), Ask(DONE_B, documents)]) == AFTER_MERGE
    ensures Transitioned(DEF, Run(DEF, Db([], []), [Ask(GO, []), Ask(DONE_A, [])]), Ask(DONE_B, documents))
         == Outcome(AFTER_MERGE, Ok(MERGED), Merge)
    ensures MERGED.documents == []
  {
    hide Transitioned;
    Forks();
    Waits();
    Merges(documents);
    var go, doneA, doneB := Ask(GO, []), Ask(DONE_A, []), Ask(DONE_B, documents);
    assert [go, doneA, doneB][1..] == [doneA, doneB] && [doneA, doneB][1..] == [doneB] && [go, doneA][1..] == [doneA];
    assert Run(DEF, AFTER_MERGE, []) == AFTER_MERGE && [doneB][1..] == [] && [doneA][1..] == [];
    assert Run(DEF, AFTER_WAIT, [doneB]) == AFTER_MERGE && Run(DEF, AFTER_FORK, [doneA]) == AFTER_WAIT;
    assert Run(DEF, AFTER_FORK, [doneA, doneB]) == AFTER_MERGE;
  }

  // ---------------------------------------------------------------- the action that goes astray

  lemma ActiveAfterMerge()
    ensures ActiveParallel(AFTER_MERGE.rows, KEY) == [WAITING, ON_B]
  {
    hide ActiveParallel;
    NoneActive();
    var first, gone := INITIAL.(isLatest := false), ON_A.(isLatest := false);
    ActiveStep([], first);
    ActiveStep([first], gone);
    ActiveStep([first, gone], ON_B);
    ActiveStep([first, gone, ON_B], WAITING);
    ActiveStep([first, gone, ON_B, WAITING], MERGED);
    assert [] + [first] == [first] && [first] + [gone] == [first, gone];
    assert [first, gone] + [ON_B] == [first, gone, ON_B];
    assert [first, gone, ON_B] + [WAITING] == [first, gone, ON_B, WAITING];
    assert [first, gone, ON_B, WAITING] + [MERGED] == AFTER_MERGE.rows;
  }

  /** The action that should close the merged process moves the row that waited on branch a, and nothing else. */
  lemma CloseGoesAstray()
    ensures var out := Transitioned(DEF, AFTER_MERGE, Ask(CLOSE, []));
            && Picked(DEF, AFTER_MERGE.rows, Ask(CLOSE, [])) == Ok((AFTER_MERGE.rows, WAITING))
            && out.result.Ok? && out.result.value.currentState == "5" && out.result.value.branchId == Some("a")
            && |out.db.rows| == 6 && out.db.rows[4] == MERGED && out.db.rows[5] == out.result.value
  {
    hide ActiveParallel, StateByID, Offered, Followed;
    var req := Ask(CLOSE, []);
    ActiveAfterMerge();
    OnlyOffer(CLOSE);
    OnlyFollowed(CLOSE);
    ByIDAt(DEF.states, "5", 5);
    assert Picked(DEF, AFTER_MERGE.rows, req) == Ok((AFTER_MERGE.rows, WAITING));
    assert Acted(DEF, AFTER_MERGE, WAITING, req) == LinearStep(DEF, AFTER_MERGE, WAITING, req);
  }

  lemma OnlyFollowed(a: Action)
    requires a in DEF.actions
    ensures Followed(DEF, "t", a.currentState, a.name) == Some(a)
  {
    OnlyOffer(a);
    OfferedLeaves(DEF, "t", a.currentState, a.name);
  }
}
