/** The join as separate, interleaving database steps. */
module JoinRace {
  import opened Lists
  import opened Prelude
  import W = WorkflowModel
  import WorkflowJoin

  /** Where a request is; `Read` carries the marks it saw, `Merging` those it will write back. */
  datatype Phase = Start | Found | Marked | Read(seen: seq<string>) | Merging(seen: seq<string>) | Waiting | Merged | Failed

  /** The execution row, the history rows written so far, and one request for each branch. */
  datatype Race = Race(branches: seq<string>, completed: seq<string>, running: bool, phases: seq<Phase>)

  /** `Decide` writes the waiting or the merged row; a merging request then closes the execution. */
  datatype Event = Find(i: nat) | Mark(i: nat) | Reread(i: nat) | Decide(i: nat) | Close(i: nat)

  predicate Enabled(r: Race, e: Event) {
    && e.i < |r.phases| == |r.branches|
    && match e
       case Find(i) => r.phases[i] == Start
       case Mark(i) => r.phases[i] == Found
       case Reread(i) => r.phases[i] == Marked
       case Decide(i) => r.phases[i].Read?
       case Close(i) => r.phases[i].Merging?
  }

  function MarkOf(r: Race, i: nat): seq<string>
    requires i < |r.branches|
  {
    if r.running && r.branches[i] !in r.completed then r.completed + [r.branches[i]] else r.completed
  }

  function Step(r: Race, e: Event): Race
    requires Enabled(r, e)
  {
    match e
    case Find(i) => r.(phases := r.phases[i := if r.running then Found else Failed])
    case Mark(i) => r.(completed := MarkOf(r, i), phases := r.phases[i := Marked])
    case Reread(i) => r.(phases := r.phases[i := Read(r.completed)])
    case Decide(i) =>
      var seen := r.phases[i].seen;
      r.(phases := r.phases[i := if |seen| < |r.branches| then Waiting else Merging(seen)])
    case Close(i) => r.(completed := r.phases[i].seen, running := false, phases := r.phases[i := Merged])
  }

  function Forked(branches: seq<string>): Race {
    Race(branches, [], true, seq(|branches|, i => Start))
  }

  function After(r: Race, events: seq<Event>): Race
    requires Valid(r, events)
    decreases |events|
  {
    if events == [] then r else After(Step(r, events[0]), events[1..])
  }

  predicate Valid(r: Race, events: seq<Event>)
    decreases |events|
  {
    events == [] || (Enabled(r, events[0]) && Valid(Step(r, events[0]), events[1..]))
  }

  /** No request can take another step. */
  predicate Done(r: Race) {
    forall p <- r.phases :: p == Waiting || p == Merged || p == Failed
  }

  // ---------------------------------------------------------------- the invariant

  predicate HasMarked(p: Phase) { p == Marked || p.Read? || p.Merging? || p == Waiting || p == Merged }

  predicate All(r: Race, marks: seq<string>) { forall b <- r.branches :: b in marks }

  /** A mark stands for each request past its mark and no other; nothing fails; merging means all were seen. */
  ghost predicate Inv(r: Race) {
    && |r.phases| == |r.branches| && Distinct(r.branches) && Distinct(r.completed)
    && (forall b <- r.completed :: b in r.branches)
    && (forall i | 0 <= i < |r.phases| :: r.branches[i] in r.completed <==> HasMarked(r.phases[i]))
    && (forall i | 0 <= i < |r.phases| :: PhaseInv(r, r.phases[i]))
    && (!r.running ==> All(r, r.completed))
  }

  /** What was seen was marked; a request that saw every mark does not wait; and the last mark is seen by its maker. */
  ghost predicate PhaseInv(r: Race, p: Phase) {
    match p
    case Read(seen) => Snapshot(r, seen)
    case Merging(seen) => Snapshot(r, seen) && All(r, seen)
    case Merged => All(r, r.completed)
    case Failed => false
    case _ => true
  }

  ghost predicate Snapshot(r: Race, seen: seq<string>) { seen <= r.completed && Distinct(seen) }

  // ---------------------------------------------------------------- counting distinct marks

  /** As many marks as branches: all of them, and no more. */
  lemma CountIsAll(r: Race, marks: seq<string>)
    requires Inv(r) && Snapshot(r, marks)
    ensures |marks| <= |r.branches|
    ensures |marks| >= |r.branches| <==> All(r, marks)
    ensures All(r, marks) ==> marks == r.completed
  {
    assert forall m <- marks :: m in r.completed && m in r.branches;
    DistinctFits(marks, r.branches);
    if All(r, marks) {
      DistinctFits(r.branches, marks);
      DistinctFits(r.completed, r.branches);
    }
  }

  lemma AllIffEveryoneMarked(r: Race)
    requires Inv(r)
    ensures All(r, r.completed) <==> forall i | 0 <= i < |r.phases| :: HasMarked(r.phases[i])
  {
    if forall i | 0 <= i < |r.phases| :: HasMarked(r.phases[i]) {
      forall b | b in r.branches ensures b in r.completed {
        var i :| 0 <= i < |r.branches| && r.branches[i] == b;
        assert HasMarked(r.phases[i]);
      }
    }
    if All(r, r.completed) {
      assert forall i | 0 <= i < |r.phases| :: r.branches[i] in r.branches;
    }
  }

  // ---------------------------------------------------------------- every step keeps the invariant

  /** While some request has not marked, the execution is running. */
  lemma StillRunning(r: Race, i: nat)
    requires Inv(r) && i < |r.phases| && !HasMarked(r.phases[i])
    ensures r.running
  {
    assert r.branches[i] in r.branches && r.branches[i] !in r.completed;
  }

  lemma MarkKeepsInv(r: Race, i: nat)
    requires Inv(r) && Enabled(r, Mark(i))
    ensures Inv(Step(r, Mark(i)))
  {
    StillRunning(r, i);
    var after := Step(r, Mark(i));
    assert after.completed == r.completed + [r.branches[i]];
    assert r.branches[i] in r.branches;
    forall j | 0 <= j < |after.phases| ensures PhaseInv(after, after.phases[j]) {
      assert PhaseInv(r, r.phases[j]);
    }
  }

  lemma FindKeepsInv(r: Race, i: nat)
    requires Inv(r) && Enabled(r, Find(i))
    ensures Inv(Step(r, Find(i)))
  {
    StillRunning(r, i);
  }

  lemma DecideKeepsInv(r: Race, i: nat)
    requires Inv(r) && Enabled(r, Decide(i))
    ensures Inv(Step(r, Decide(i)))
  {
    assert PhaseInv(r, r.phases[i]);
    CountIsAll(r, r.phases[i].seen);
  }

  lemma CloseKeepsInv(r: Race, i: nat)
    requires Inv(r) && Enabled(r, Close(i))
    ensures Inv(Step(r, Close(i)))
    ensures Step(r, Close(i)).completed == r.completed
  {
    assert PhaseInv(r, r.phases[i]);
    CountIsAll(r, r.phases[i].seen);
  }

  lemma StepKeepsInv(r: Race, e: Event)
    requires Inv(r) && Enabled(r, e)
    ensures Inv(Step(r, e))
  {
    match e
    case Find(i) => FindKeepsInv(r, i);
    case Mark(i) => MarkKeepsInv(r, i);
    case Reread(i) =>
    case Decide(i) => DecideKeepsInv(r, i);
    case Close(i) => CloseKeepsInv(r, i);
  }

  // ---------------------------------------------------------------- no lost join

  predicate SawAll(r: Race, p: Phase) {
    p == Marked || (p.Read? && |p.seen| >= |r.branches|) || p.Merging? || p == Merged
  }

  /** Once every branch is marked, some request is on its way to the merge. */
  ghost predicate Carried(r: Race) {
    r.branches != [] && All(r, r.completed) ==> exists i :: 0 <= i < |r.phases| && SawAll(r, r.phases[i])
  }

  lemma StepKeepsCarried(r: Race, e: Event)
    requires Inv(r) && Carried(r) && Enabled(r, e)
    ensures Carried(Step(r, e))
  {
    var after := Step(r, e);
    if after.branches != [] && All(after, after.completed) {
      if e.Mark? {
        assert SawAll(after, after.phases[e.i]);
      } else {
        if e.Close? { CloseKeepsInv(r, e.i); }
        CountIsAll(r, r.completed);
        var i :| 0 <= i < |r.phases| && SawAll(r, r.phases[i]);
        assert SawAll(after, after.phases[i]);
      }
    }
  }

  lemma {:induction false} RunKeepsInv(r: Race, events: seq<Event>)
    requires Valid(r, events) && Inv(r) && Carried(r)
    ensures Inv(After(r, events)) && Carried(After(r, events))
    decreases |events|
  {
    if events != [] {
      StepKeepsInv(r, events[0]);
      StepKeepsCarried(r, events[0]);
      RunKeepsInv(Step(r, events[0]), events[1..]);
    }
  }

  lemma ForkedInv(branches: seq<string>)
    requires Distinct(branches)
    ensures Inv(Forked(branches)) && Carried(Forked(branches))
  {
    if branches != [] {
      assert branches[0] in branches;
    }
  }

  /**
   * In every interleaving of the joins of an execution's branches: none fails, a merge has all branches marked
   * behind it, and when all are through at least one has merged.
   */
  lemma NoLostJoin(branches: seq<string>, events: seq<Event>)
    requires branches != [] && Distinct(branches) && Valid(Forked(branches), events)
    ensures var r := After(Forked(branches), events);
            && |r.phases| == |branches|
            && (forall p <- r.phases :: p != Failed)
            && (forall p <- r.phases :: p.Merging? || p == Merged ==> forall q <- r.phases :: HasMarked(q))
            && (!r.running ==> forall q <- r.phases :: HasMarked(q))
            && (Done(r) ==> exists p <- r.phases :: p == Merged)
  {
    var r := After(Forked(branches), events);
    ForkedInv(branches);
    RunKeepsInv(Forked(branches), events);
    KeepsBranches(Forked(branches), events);
    AllIffEveryoneMarked(r);
    forall p | p in r.phases ensures p != Failed && (p.Merging? || p == Merged ==> All(r, r.completed)) {
      var i :| 0 <= i < |r.phases| && r.phases[i] == p;
      assert PhaseInv(r, r.phases[i]);
    }
    if Done(r) {
      DoneHasMerged(r);
    }
  }

  lemma {:induction false} KeepsBranches(r: Race, events: seq<Event>)
    requires Valid(r, events)
    ensures After(r, events).branches == r.branches && |After(r, events).phases| == |r.phases|
    decreases |events|
  {
    if events != [] {
      KeepsBranches(Step(r, events[0]), events[1..]);
    }
  }

  lemma DoneHasMerged(r: Race)
    requires Inv(r) && Carried(r) && Done(r) && r.branches != []
    ensures exists p <- r.phases :: p == Merged
  {
    forall i | 0 <= i < |r.phases| ensures HasMarked(r.phases[i]) {
      assert PhaseInv(r, r.phases[i]) && r.phases[i] in r.phases;
    }
    AllIffEveryoneMarked(r);
    var i :| 0 <= i < |r.phases| && SawAll(r, r.phases[i]);
    assert r.phases[i] in r.phases;
  }

  // ---------------------------------------------------------------- who merges

  predicate PastRead(p: Phase) { p.Merging? || p == Waiting || p == Merged }

  lemma {:induction false} SeenKept(r: Race, events: seq<Event>, i: nat)
    requires Valid(r, events) && i < |r.phases| == |r.branches|
    ensures |After(r, events).phases| == |r.phases|
    ensures PastRead(r.phases[i]) ==> PastRead(After(r, events).phases[i])
    ensures r.phases[i].Read? ==>
              After(r, events).phases[i] == r.phases[i] || PastRead(After(r, events).phases[i])
    decreases |events|
  {
    if events != [] {
      SeenKept(Step(r, events[0]), events[1..], i);
    }
  }

  /** A request merges exactly when every branch was marked at the moment it read the execution again. */
  lemma MergesIffAllMarkedAtReread(branches: seq<string>, before: seq<Event>, i: nat, after: seq<Event>)
    requires Distinct(branches) && Valid(Forked(branches), before)
    requires Enabled(After(Forked(branches), before), Reread(i))
    requires Valid(Step(After(Forked(branches), before), Reread(i)), after)
    requires Enabled(After(Step(After(Forked(branches), before), Reread(i)), after), Decide(i))
    ensures var at := After(Forked(branches), before);
            var later := After(Step(at, Reread(i)), after);
            Step(later, Decide(i)).phases[i].Merging? <==> forall p <- at.phases :: HasMarked(p)
  {
    var at := After(Forked(branches), before);
    ForkedInv(branches);
    RunKeepsInv(Forked(branches), before);
    SeenKept(Step(at, Reread(i)), after, i);
    CountIsAll(at, at.completed);
    AllIffEveryoneMarked(at);
    KeepsBranches(Step(at, Reread(i)), after);
    assert forall p <- at.phases :: exists j :: 0 <= j < |at.phases| && at.phases[j] == p;
  }

  // ---------------------------------------------------------------- every run ends

  function StepsLeft(p: Phase): nat {
    match p
    case Start => 5
    case Found => 4
    case Marked => 3
    case Read(_) => 2
    case Merging(_) => 1
    case _ => 0
  }

  function Work(phases: seq<Phase>): nat {
    if phases == [] then 0 else StepsLeft(phases[0]) + Work(phases[1..])
  }

  lemma {:induction false} WorkUpdate(phases: seq<Phase>, i: nat, p: Phase)
    requires i < |phases|
    ensures Work(phases[i := p]) == Work(phases) - StepsLeft(phases[i]) + StepsLeft(p)
  {
    if i == 0 {
      assert phases[0 := p] == [p] + phases[1..];
    } else {
      WorkUpdate(phases[1..], i - 1, p);
      assert phases[i := p][1..] == phases[1..][i - 1 := p];
    }
  }

  /** Each step uses up work, and until all requests are through one of them can step. */
  lemma StepsForward(r: Race, e: Event)
    requires Enabled(r, e)
    ensures Work(Step(r, e).phases) < Work(r.phases)
  {
    WorkUpdate(r.phases, e.i, Step(r, e).phases[e.i]);
    assert Step(r, e).phases == r.phases[e.i := Step(r, e).phases[e.i]];
  }

  lemma CanStep(r: Race)
    requires |r.phases| == |r.branches| && !Done(r)
    ensures exists e :: Enabled(r, e)
  {
    var p :| p in r.phases && p != Waiting && p != Merged && p != Failed;
    var i: nat :| i < |r.phases| && r.phases[i] == p;
    var e := match p case Start => Find(i) case Found => Mark(i) case Marked => Reread(i)
             case Read(_) => Decide(i) case _ => Close(i);
    assert Enabled(r, e);
  }

  lemma {:induction false} WorkOfFork(n: nat)
    ensures Work(seq(n, i => Start)) == 5 * n
  {
    if n > 0 {
      WorkOfFork(n - 1);
      assert seq(n, i => Start)[1..] == seq(n - 1, i => Start);
    }
  }

  lemma {:induction false} RunWork(r: Race, events: seq<Event>)
    requires Valid(r, events)
    ensures |events| + Work(After(r, events).phases) <= Work(r.phases)
    decreases |events|
  {
    if events != [] {
      StepsForward(r, events[0]);
      RunWork(Step(r, events[0]), events[1..]);
    }
  }

  /** No schedule runs for more than five steps a request, and one that cannot be extended has merged. */
  lemma {:induction false} EveryScheduleEnds(branches: seq<string>, events: seq<Event>)
    requires branches != [] && Distinct(branches) && Valid(Forked(branches), events)
    ensures |events| <= 5 * |branches|
    ensures (forall e :: !Enabled(After(Forked(branches), events), e)) ==>
              exists p <- After(Forked(branches), events).phases :: p == Merged
  {
    WorkOfFork(|branches|);
    RunWork(Forked(branches), events);
    KeepsBranches(Forked(branches), events);
    NoLostJoin(branches, events);
    if !Done(After(Forked(branches), events)) {
      CanStep(After(Forked(branches), events));
    }
  }

  // ---------------------------------------------------------------- how many merge

  function Merges(phases: seq<Phase>): nat {
    if phases == [] then 0 else (if phases[0] == Merged then 1 else 0) + Merges(phases[1..])
  }

  /** The re-reads of a schedule that no mark follows. */
  function LateRereads(events: seq<Event>): nat {
    if events == [] then 0
    else (if events[0].Reread? && NoMark(events) then 1 else 0) + LateRereads(events[1..])
  }

  predicate NoMark(events: seq<Event>) { forall e <- events :: !e.Mark? }

  /** On its way to a merge: it saw at least `n` marks. */
  predicate Merger(n: nat, p: Phase) { (p.Read? && |p.seen| >= n) || p.Merging? || p == Merged }

  function Mergers(n: nat, phases: seq<Phase>): nat {
    if phases == [] then 0 else (if Merger(n, phases[0]) then 1 else 0) + Mergers(n, phases[1..])
  }

  lemma {:induction false} MergersUpdate(n: nat, phases: seq<Phase>, i: nat, p: Phase)
    requires i < |phases|
    ensures Mergers(n, phases[i := p])
         == Mergers(n, phases) - (if Merger(n, phases[i]) then 1 else 0) + if Merger(n, p) then 1 else 0
  {
    if i == 0 {
      assert phases[0 := p] == [p] + phases[1..];
    } else {
      MergersUpdate(n, phases[1..], i - 1, p);
      assert phases[i := p][1..] == phases[1..][i - 1 := p];
    }
  }

  /** Only a re-read that sees every mark adds a merger, and no step takes one away. */
  lemma StepMergers(r: Race, e: Event)
    requires Inv(r) && Enabled(r, e)
    ensures Mergers(|r.branches|, Step(r, e).phases)
         == Mergers(|r.branches|, r.phases) + if e.Reread? && All(r, r.completed) then 1 else 0
  {
    MergersUpdate(|r.branches|, r.phases, e.i, Step(r, e).phases[e.i]);
    assert Step(r, e).phases == r.phases[e.i := Step(r, e).phases[e.i]];
    if e.Reread? { CountIsAll(r, r.completed); }
    if e.Find? { StillRunning(r, e.i); }
  }

  lemma {:induction false} UnmarkedKept(r: Race, events: seq<Event>, i: nat)
    requires Valid(r, events) && i < |r.phases| == |r.branches| && NoMark(events)
    ensures |After(r, events).phases| == |r.phases|
    ensures HasMarked(After(r, events).phases[i]) ==> HasMarked(r.phases[i])
    decreases |events|
  {
    if events != [] {
      assert !events[0].Mark?;
      UnmarkedKept(Step(r, events[0]), events[1..], i);
    }
  }

  lemma {:induction false} AllMarkedStays(r: Race, events: seq<Event>)
    requires Inv(r) && Valid(r, events) && All(r, r.completed)
    ensures NoMark(events)
    decreases |events|
  {
    if events != [] {
      AllIffEveryoneMarked(r);
      StepKeepsInv(r, events[0]);
      if events[0].Close? { CloseKeepsInv(r, events[0].i); }
      AllMarkedStays(Step(r, events[0]), events[1..]);
      assert events == [events[0]] + events[1..];
    }
  }

  /** In a schedule that ends with all through, everyone is marked once no mark is to come. */
  lemma AllMarkedIff(r: Race, events: seq<Event>)
    requires Inv(r) && Carried(r) && Valid(r, events) && Done(After(r, events))
    ensures All(r, r.completed) <==> NoMark(events)
  {
    if All(r, r.completed) {
      AllMarkedStays(r, events);
    } else if NoMark(events) {
      RunKeepsInv(r, events);
      forall i | 0 <= i < |r.phases| ensures HasMarked(r.phases[i]) {
        UnmarkedKept(r, events, i);
        var end := After(r, events);
        assert PhaseInv(end, end.phases[i]) && end.phases[i] in end.phases;
      }
      AllIffEveryoneMarked(r);
    }
  }

  lemma {:induction false} RunMergers(r: Race, events: seq<Event>)
    requires Inv(r) && Carried(r) && Valid(r, events) && Done(After(r, events))
    ensures Mergers(|r.branches|, After(r, events).phases) == Mergers(|r.branches|, r.phases) + LateRereads(events)
    decreases |events|
  {
    if events != [] {
      AllMarkedIff(r, events);
      StepMergers(r, events[0]);
      StepKeepsInv(r, events[0]);
      StepKeepsCarried(r, events[0]);
      RunMergers(Step(r, events[0]), events[1..]);
    }
  }

  lemma {:induction false} MergersOfDone(n: nat, phases: seq<Phase>)
    requires forall p <- phases :: !p.Read? && !p.Merging?
    ensures Mergers(n, phases) == Merges(phases)
  {
    if phases != [] { MergersOfDone(n, phases[1..]); }
  }

  lemma {:induction false} NoMergersAtFork(n: nat, k: nat)
    ensures Mergers(n, seq(k, i => Start)) == 0
  {
    if k > 0 {
      NoMergersAtFork(n, k - 1);
      assert seq(k, i => Start)[1..] == seq(k - 1, i => Start);
    }
  }

  /**
   * In a schedule with all requests through, as many requests merge as re-reads follow the last mark. The merge
   * is unique exactly for schedules with one such re-read.
   */
  lemma MergesAreLateRereads(branches: seq<string>, events: seq<Event>)
    requires Distinct(branches) && Valid(Forked(branches), events) && Done(After(Forked(branches), events))
    ensures Merges(After(Forked(branches), events).phases) == LateRereads(events)
  {
    var r := Forked(branches);
    ForkedInv(branches);
    RunMergers(r, events);
    KeepsBranches(r, events);
    NoMergersAtFork(|branches|, |branches|);
    MergersOfDone(|branches|, After(r, events).phases);
  }

  /** The merge need not be unique: two requests that both read after the last mark both merge. */
  lemma TwoMayMerge()
    ensures var events := [Find(0), Find(1), Mark(0), Mark(1)] + READ_THEN_CLOSE;
            Valid(Forked(["a", "b"]), events) && After(Forked(["a", "b"]), events).phases == [Merged, Merged]
  {
    hide READ_THEN_CLOSE, BothMarked;
    BothMerge();
    BothGetMarked(READ_THEN_CLOSE);
    assert [Find(0), Find(1), Mark(0), Mark(1)] + READ_THEN_CLOSE
        == [Find(0), Find(1)] + ([Mark(0), Mark(1)] + READ_THEN_CLOSE);
  }

  lemma BothGetMarked(events: seq<Event>)
    requires Valid(BothMarked(), events)
    ensures var all := [Find(0), Find(1)] + ([Mark(0), Mark(1)] + events);
            Valid(Forked(["a", "b"]), all) && After(Forked(["a", "b"]), all) == After(BothMarked(), events)
  {
    var r0, r2 := Forked(["a", "b"]), Race(["a", "b"], [], true, [Found, Found]);
    assert r0.phases == [Start, Start];
    TwoSteps(r2, BothMarked(), Mark(0), Mark(1), events);
    TwoSteps(r0, r2, Find(0), Find(1), [Mark(0), Mark(1)] + events);
  }

  const READ_THEN_CLOSE: seq<Event> := [Reread(0), Reread(1), Decide(0), Decide(1), Close(0), Close(1)]

  function BothMarked(): Race { Race(["a", "b"], ["a", "b"], true, [Marked, Marked]) }

  lemma BothMerge()
    ensures Valid(BothMarked(), READ_THEN_CLOSE) && After(BothMarked(), READ_THEN_CLOSE).phases == [Merged, Merged]
  {
    var all := ["a", "b"];
    var r6, r8 := Race(all, all, true, [Read(all), Read(all)]), Race(all, all, true, [Merging(all), Merging(all)]);
    TwoSteps(r8, Race(all, all, false, [Merged, Merged]), Close(0), Close(1), []);
    TwoSteps(r6, r8, Decide(0), Decide(1), [Close(0), Close(1)] + []);
    TwoSteps(BothMarked(), r6, Reread(0), Reread(1), [Decide(0), Decide(1)] + ([Close(0), Close(1)] + []));
    assert READ_THEN_CLOSE == [Reread(0), Reread(1)] + ([Decide(0), Decide(1)] + ([Close(0), Close(1)] + []));
  }

  lemma TwoSteps(r: Race, next: Race, e: Event, f: Event, events: seq<Event>)
    requires Enabled(r, e) && Enabled(Step(r, e), f) && Step(Step(r, e), f) == next && Valid(next, events)
    ensures Valid(r, [e, f] + events) && After(r, [e, f] + events) == After(next, events)
  {
    assert ([e, f] + events)[1..] == [f] + events && ([f] + events)[1..] == events;
  }

  // ---------------------------------------------------------------- uninterrupted, the steps are the service's join

  /** The race as it stands in the executions table. */
  ghost predicate Shows(r: Race, e: W.Execution) {
    r.branches == e.active && r.completed == e.completed && (r.running <==> e.status == W.Running)
  }

  function Uninterrupted(r: Race, i: nat): Race
    requires i < |r.phases| == |r.branches| && r.running && r.phases[i] == Start
  {
    Step(Step(Step(Step(r, Find(i)), Mark(i)), Reread(i)), Decide(i))
  }

  lemma UninterruptedIsJoinStep(db: W.Db, existing: W.Instance, target: W.State, req: W.Request, r: Race, i: nat)
    requires WorkflowJoin.Keyed(db.execs) && W.FirstRunning(db.execs, existing.key).Some?
    requires Shows(r, W.FirstRunning(db.execs, existing.key).value)
    requires i < |r.phases| == |r.branches| && r.phases[i] == Start && existing.branchId == Some(r.branches[i])
    ensures r.running
    ensures var out := W.JoinStep(db, existing, target, req);
            var decided := Uninterrupted(r, i);
            var id := W.FirstRunning(db.execs, existing.key).value.id;
            && id < |out.db.execs|
            && (out.kind == W.Wait <==> decided.phases[i] == Waiting)
            && (out.kind == W.Merge <==> decided.phases[i].Merging?)
            && (out.kind == W.Wait ==> Shows(decided, out.db.execs[id]))
            && (out.kind == W.Merge ==> Shows(Step(decided, Close(i)), out.db.execs[id]))
  {
    WorkflowJoin.FirstRunningIs(db.execs, existing.key);
    var e := W.FirstRunning(db.execs, existing.key).value;
    var at: nat :| at < |db.execs| && db.execs[at] == e;
    WorkflowJoin.JoinStepAt(db, existing, target, req, at);
  }
}
