/** The latest flag against the whole history. */
module WorkflowHistory {
  import opened Prelude
  import opened WorkflowModel

  // ---------------------------------------------------------------- the flag

  ghost predicate Superseded(rows: seq<Instance>, i: nat)
    requires i < |rows|
  {
    exists j :: i < j < |rows| && SameClass(rows[i], rows[j])
  }

  /** A branch row names its branch; no row is completed or carries an SLA, which no path ever sets. */
  predicate WellFormed(r: Instance) {
    && (r.isParallelBranch <==> r.branchId.Some?) && r.status != Completed
    && r.stateSla == None && r.processSla == None
  }

  /** Ids are places, branch rows carry a branch, and a flag marks exactly the rows nothing supersedes. */
  ghost predicate Sound(rows: seq<Instance>) { forall i | 0 <= i < |rows| :: SoundAt(rows, i) }

  ghost predicate SoundAt(rows: seq<Instance>, i: nat)
    requires i < |rows|
  {
    rows[i].id == i && WellFormed(rows[i]) && (rows[i].isLatest <==> !Superseded(rows, i))
  }

  /** The earlier history, its flags apart. */
  ghost predicate Extends(before: seq<Instance>, after: seq<Instance>) {
    |before| <= |after| && forall i | 0 <= i < |before| :: after[i] == before[i].(isLatest := after[i].isLatest)
  }

  lemma InsertedSupersedes(rows: seq<Instance>, inst: Instance, i: nat)
    requires i < |rows|
    ensures Superseded(Inserted(rows, inst), i) <==> Superseded(rows, i) || SameClass(rows[i], inst)
  {
    var after := Inserted(rows, inst);
    if Superseded(rows, i) {
      var j :| i < j < |rows| && SameClass(rows[i], rows[j]);
      assert SameClass(after[i], after[j]);
    }
    if SameClass(rows[i], inst) {
      assert SameClass(after[i], after[|rows|]);
    }
    if Superseded(after, i) {
      var j :| i < j < |after| && SameClass(after[i], after[j]);
      assert j < |rows| ==> SameClass(rows[i], rows[j]);
    }
  }

  lemma InsertedSound(rows: seq<Instance>, inst: Instance)
    requires Sound(rows) && WellFormed(inst)
    ensures Sound(Inserted(rows, inst))
  {
    var after := Inserted(rows, inst);
    forall i | 0 <= i < |after| ensures SoundAt(after, i) {
      if i < |rows| {
        assert SoundAt(rows, i);
        InsertedSupersedes(rows, inst, i);
      }
    }
  }

  /** No class has two flagged rows, so the unique index on the latest linear row never rejects an insert. */
  lemma OneFlagPerClass(rows: seq<Instance>, inst: Instance)
    requires Sound(rows) && WellFormed(inst)
    ensures forall i, j | 0 <= i < j <= |rows| && SameClass(Inserted(rows, inst)[i], Inserted(rows, inst)[j]) ::
              !(Inserted(rows, inst)[i].isLatest && Inserted(rows, inst)[j].isLatest)
  {
    InsertedSound(rows, inst);
    var after := Inserted(rows, inst);
    forall i: nat, j: nat | i < j < |after| && SameClass(after[i], after[j]) ensures !after[i].isLatest {
      assert SoundAt(after, i) && Superseded(after, i);
    }
  }

  // ---------------------------------------------------------------- lookups by flag are scans of the history

  predicate IsLinear(r: Instance, key: Key) { r.key == key && !r.isParallelBranch }

  predicate IsBranch(r: Instance, key: Key) { r.key == key && r.isParallelBranch && r.branchId.Some? }

  function LastLinear(rows: seq<Instance>, key: Key): Option<Instance> {
    if rows == [] then None
    else if IsLinear(rows[|rows| - 1], key) then Some(rows[|rows| - 1])
    else LastLinear(rows[..|rows| - 1], key)
  }

  /** From the newest row back, the first row met of each branch not met before. */
  function LastOfBranches(rows: seq<Instance>, key: Key, met: set<string>): seq<Instance> {
    if rows == [] then []
    else
      var last := rows[|rows| - 1];
      if IsBranch(last, key) && last.branchId.value !in met
      then [last] + LastOfBranches(rows[..|rows| - 1], key, met + {last.branchId.value})
      else LastOfBranches(rows[..|rows| - 1], key, met)
  }

  lemma {:induction false} LatestLinearFound(rows: seq<Instance>, key: Key)
    ensures match LatestLinear(rows, key)
            case Some(r) => r in rows && IsLatestLinear(r, key)
            case None => forall r <- rows :: !IsLatestLinear(r, key)
  {
    if rows != [] {
      LatestLinearFound(rows[1..], key);
      assert rows == [rows[0]] + rows[1..];
    }
  }

  ghost predicate LastLinearAt(rows: seq<Instance>, key: Key, i: nat) {
    i < |rows| && IsLinear(rows[i], key) && forall j | i < j < |rows| :: !IsLinear(rows[j], key)
  }

  lemma {:induction false} LastLinearFound(rows: seq<Instance>, key: Key)
    ensures match LastLinear(rows, key)
            case Some(r) => exists i: nat :: LastLinearAt(rows, key, i) && rows[i] == r
            case None => forall r <- rows :: !IsLinear(r, key)
  {
    if rows != [] {
      var front := rows[..|rows| - 1];
      LastLinearFound(front, key);
      assert rows == front + [rows[|rows| - 1]];
      if IsLinear(rows[|rows| - 1], key) {
        assert LastLinearAt(rows, key, |rows| - 1);
      } else if LastLinear(front, key).Some? {
        var i: nat :| LastLinearAt(front, key, i) && front[i] == LastLinear(front, key).value;
        assert LastLinearAt(rows, key, i);
      }
    }
  }

  lemma FlagIsLastLinear(rows: seq<Instance>, key: Key)
    requires Sound(rows)
    ensures LatestLinear(rows, key) == LastLinear(rows, key)
  {
    LatestLinearFound(rows, key);
    LastLinearFound(rows, key);
    if LastLinear(rows, key).Some? {
      var i: nat :| LastLinearAt(rows, key, i) && rows[i] == LastLinear(rows, key).value;
      LastLinearIsFlagged(rows, key, i);
      assert rows[i] in rows;
    }
  }

  lemma LastLinearIsFlagged(rows: seq<Instance>, key: Key, i: nat)
    requires Sound(rows) && LastLinearAt(rows, key, i)
    ensures IsLatestLinear(rows[i], key)
    ensures forall r <- rows :: IsLatestLinear(r, key) ==> r == rows[i]
  {
    assert SoundAt(rows, i);
    forall r | r in rows && IsLatestLinear(r, key) ensures r == rows[i] {
      var k: nat :| k < |rows| && rows[k] == r;
      if k < i {
        EarlierUnflagged(rows, key, k, i);
      }
    }
  }

  lemma EarlierUnflagged(rows: seq<Instance>, key: Key, k: nat, i: nat)
    requires Sound(rows) && k < i < |rows| && IsLinear(rows[k], key) && IsLinear(rows[i], key)
    ensures !rows[k].isLatest
  {
    assert SoundAt(rows, k) && SameClass(rows[k], rows[i]);
  }

  function Met(rows: seq<Instance>, key: Key): (met: set<string>)
    ensures forall b :: b in met <==> exists r <- rows :: IsBranch(r, key) && r.branchId == Some(b)
  {
    set r | r in rows && IsBranch(r, key) :: r.branchId.value
  }

  lemma MetOneMore(r: Instance, rows: seq<Instance>, key: Key)
    ensures Met([r] + rows, key) == if IsBranch(r, key) then {r.branchId.value} + Met(rows, key) else Met(rows, key)
  {
    assert r in [r] + rows;
  }

  lemma FlagsAreLastOfBranches(rows: seq<Instance>, key: Key)
    requires Sound(rows)
    ensures ActiveParallel(rows, key) == LastOfBranches(rows, key, {})
  {
    assert rows + [] == rows;
    FlagsAreLastBefore(rows, [], key);
    assert Met([], key) == {};
  }

  lemma {:induction false} FlagsAreLastBefore(rows: seq<Instance>, newer: seq<Instance>, key: Key)
    requires Sound(rows + newer)
    ensures ActiveParallel(rows, key) == LastOfBranches(rows, key, Met(newer, key))
    decreases |rows|
  {
    if rows != [] {
      var front, r := rows[..|rows| - 1], rows[|rows| - 1];
      assert rows == front + [r];
      assert front + ([r] + newer) == rows + newer;
      FlagsAreLastBefore(front, [r] + newer, key);
      FlagIffNotMet(front + ([r] + newer), key, |front|);
      assert (front + ([r] + newer))[|front| + 1..] == newer;
      OneMoreRow(front, r, newer, key);
    }
  }

  lemma OneMoreRow(front: seq<Instance>, r: Instance, newer: seq<Instance>, key: Key)
    requires ActiveParallel(front, key) == LastOfBranches(front, key, Met([r] + newer, key))
    requires IsActiveBranch(r, key) <==> IsBranch(r, key) && r.branchId.value !in Met(newer, key)
    ensures ActiveParallel(front + [r], key) == LastOfBranches(front + [r], key, Met(newer, key))
  {
    var met := Met(newer, key);
    ListsStep(front, r, key, met);
    MetOneMore(r, newer, key);
    if IsBranch(r, key) {
      assert {r.branchId.value} + met == met + {r.branchId.value};
      if r.branchId.value in met {
        assert met + {r.branchId.value} == met;
      }
    }
  }

  /** Both lists, one newer row at a time. */
  lemma ListsStep(rows: seq<Instance>, r: Instance, key: Key, met: set<string>)
    ensures ActiveParallel(rows + [r], key)
         == (if IsActiveBranch(r, key) then [r] else []) + ActiveParallel(rows, key)
    ensures LastOfBranches(rows + [r], key, met)
         == if IsBranch(r, key) && r.branchId.value !in met
            then [r] + LastOfBranches(rows, key, met + {r.branchId.value})
            else LastOfBranches(rows, key, met)
  {
    assert (rows + [r])[..|rows|] == rows;
  }

  lemma FlagIffNotMet(rows: seq<Instance>, key: Key, i: nat)
    requires Sound(rows) && i < |rows|
    ensures IsActiveBranch(rows[i], key)
       <==> IsBranch(rows[i], key) && rows[i].branchId.value !in Met(rows[i + 1..], key)
  {
    assert SoundAt(rows, i);
    if IsBranch(rows[i], key) {
      if Superseded(rows, i) {
        var j :| i < j < |rows| && SameClass(rows[i], rows[j]);
        assert rows[j] == rows[i + 1..][j - i - 1];
        assert IsBranch(rows[j], key) && rows[j] in rows[i + 1..];
      }
      if rows[i].branchId.value in Met(rows[i + 1..], key) {
        var r :| r in rows[i + 1..] && IsBranch(r, key) && r.branchId == rows[i].branchId;
        var k :| 0 <= k < |rows[i + 1..]| && rows[i + 1..][k] == r;
        assert SameClass(rows[i], rows[i + 1 + k]);
      }
    }
  }
}
