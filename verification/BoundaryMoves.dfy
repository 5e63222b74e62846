/** Creating and moving nodes of the boundary tree. */
module BoundaryMoves {
  import opened Prelude
  import opened GoStrings
  import opened Sql
  import opened BoundaryPaths

  /** A created node gets the path its parent pointer calls for; no other row is touched. */
  lemma CreateKeepsPaths(table: seq<Relationship>, req: Relationship)
    requires PathInv(table) && CleanCode(req.code) && Created(table, req).Ok?
    ensures PathInv(Created(table, req).value)
    ensures Created(table, req).value[..|table|] == table
  {
    var table' := Created(table, req).value;
    var row := table'[|table|];
    assert table'[..|table|] == table;
    forall r | r in table ensures PathOk(table', r) {
      assert PathOk(table, r);
      assert forall p :: p in table ==> p in table';
    }
    if !IsRootParent(req.parent) {
      var p := Find(table, req.tenant, req.hierarchy, req.parent).value;
      OwnCode(table, p);
      assert p in table' && IsParent(p, row);
    }
    assert forall r :: r in table' <==> r in table || r == row;
  }

  /** An update of row `cur` that keeps its code and hierarchy type. */
  ghost predicate KeepsKey(table: seq<Relationship>, cur: Relationship, req: Relationship) {
    && PathInv(table) && cur in table
    && req.id == cur.id && req.tenant == cur.tenant && req.code == cur.code && req.hierarchy == cur.hierarchy
  }

  predicate Below(cur: Relationship, r: Relationship) {
    SameTree(cur, r) && HasPrefix(r.path, cur.path + "|")
  }

  /** Row by row, what a move does: the node, its descendants, everyone else. */
  function MovedRow(cur: Relationship, req: Relationship, newPath: string, r: Relationship): Relationship {
    if r == cur then Assigned(cur, req.(path := newPath))
    else if Below(cur, r) then r.(path := newPath + r.path[|cur.path|..])
    else r
  }

  lemma CurrentFound(table: seq<Relationship>, cur: Relationship, req: Relationship)
    requires KeepsKey(table, cur, req)
    ensures FindId(table, req.id, req.tenant) == Some(cur)
  {
    var found := FindId(table, req.id, req.tenant).value;
    var i :| 0 <= i < |table| && table[i] == cur;
    var j :| 0 <= j < |table| && table[j] == found;
  }

  lemma NotBelowItself(cur: Relationship)
    ensures !Below(cur, cur)
  {
  }

  lemma ChildRowsAreBelow(table: seq<Relationship>, cur: Relationship, r: Relationship)
    requires PathInv(table) && cur in table && r in table
    ensures IsChildRow(r, cur.tenant, cur.hierarchy, cur.path) <==> Below(cur, r)
    ensures Below(cur, r) ==> HasPrefix(r.path, cur.path)
  {
    OwnCode(table, cur);
    assert cur.path + "|%" == cur.path + "|" + "%";
    LikePrefix(r.path, cur.path + "|");
    if Below(cur, r) { BarAt(r.path, cur.path); }
  }

  /** A move rewrites the node and exactly its descendants, and cannot fail halfway. */
  lemma MoveRewrites(table: seq<Relationship>, cur: Relationship, req: Relationship, parentPath: string)
    requires KeepsKey(table, cur, req) && cur.parent != req.parent
    requires ParentPath(table, req.tenant, req.hierarchy, req.parent) == Ok(parentPath)
    ensures var newPath := BuildMaterializedPath(parentPath, cur.code);
      var (table', error) := Updated(table, req);
      && error == None && |table'| == |table| && UniqueKeys(table')
      && forall i | 0 <= i < |table| :: table'[i] == MovedRow(cur, req, newPath, table[i])
  {
    CurrentFound(table, cur, req);
    var newPath := BuildMaterializedPath(parentPath, cur.code);
    var middle := Rewritten(table, req.tenant, req.hierarchy, cur.path, newPath);
    var table' := AssignedRow(middle, req.(path := newPath));
    forall i | 0 <= i < |table| ensures table'[i] == MovedRow(cur, req, newPath, table[i]) {
      var r := table[i];
      assert r in table;
      ChildRowsAreBelow(table, cur, r);
      if Below(cur, r) { ReplacePrefix(r.path, cur.path, newPath); }
      var k :| 0 <= k < |table| && table[k] == cur;
      assert r.id == cur.id <==> i == k;
    }
    assert UniqueKeys(table') by {
      forall i | 0 <= i < |table|
        ensures table'[i].id == table[i].id && SameTree(table'[i], table[i]) && table'[i].code == table[i].code
      {
        assert table'[i] == MovedRow(cur, req, newPath, table[i]);
        assert CleanCode(cur.code);
      }
    }
  }

  /** The new parent is the moved node itself or one of its descendants. */
  ghost predicate ParentInside(table: seq<Relationship>, cur: Relationship, parent: string) {
    exists p :: p in table && SameTree(p, cur) && p.code == parent && AncestorOrSelf(table, cur, p)
  }

  /** What a caller has to check before an update for the paths to stay right. */
  ghost predicate SafeUpdate(table: seq<Relationship>, cur: Relationship, req: Relationship) {
    if cur.parent == req.parent then req.path == "" || req.path == cur.path
    else
      && (req.parent == "" ==> IsRootParent(cur.parent))
      && (IsRootParent(req.parent) || !ParentInside(table, cur, req.parent))
  }

  lemma InsideIffBelow(table: seq<Relationship>, cur: Relationship, p: Relationship)
    requires PathInv(table) && cur in table && p in table && SameTree(p, cur)
    ensures ParentInside(table, cur, p.code) <==> p == cur || Below(cur, p)
  {
    DescendantIffPrefix(table, cur, p);
    assert Walk(table, [cur]);
    if q :| q in table && SameTree(q, cur) && q.code == p.code && AncestorOrSelf(table, cur, q) {
      SameRow(table, p, q);
    }
  }

  lemma ParentBelow(table: seq<Relationship>, cur: Relationship, p: Relationship, r: Relationship)
    requires PathInv(table) && cur in table && p in table && r in table
    requires IsParent(p, r) && r != cur
    ensures Below(cur, r) <==> p == cur || Below(cur, p)
  {
    if Below(cur, r) {
      var q := PrefixThroughParent(table, cur, r);
      SameRow(table, p, q);
    }
    if p == cur || Below(cur, p) {
      var q := ParentOf(table, r);
      SameRow(table, p, q);
      PrefixGrows(cur.path + "|", p.path, "|" + r.code);
      ConcatAssoc(p.path, "|", r.code);
      if p == cur { assert r.path[..|p.path| + 1] == p.path + "|"; }
    }
  }

  lemma OtherRowsStayOk(table: seq<Relationship>, table': seq<Relationship>, cur: Relationship, req: Relationship,
                        newPath: string, i: nat)
    requires KeepsKey(table, cur, req) && |table'| == |table|
    requires forall i | 0 <= i < |table| :: table'[i] == MovedRow(cur, req, newPath, table[i])
    requires newPath != "" && i < |table| && table[i] != cur
    ensures PathOk(table', table'[i])
  {
    var r := table[i];
    assert r in table;
    if IsRootParent(r.parent) {
      RootPath(table, r);
      if Below(cur, r) { BarAt(r.path, cur.path); assert false; }
      assert PathOk(table, r);
    } else {
      var p := ParentOf(table, r);
      ParentBelow(table, cur, p, r);
      var j :| 0 <= j < |table| && table[j] == p;
      assert table'[j] in table';
      NotBelowItself(cur);
      if Below(cur, r) {
        if p != cur { BarAt(p.path, cur.path); }
        CutPath(r.path, p.path, r.code, |cur.path|);
        assert table'[j].path == newPath + p.path[|cur.path|..];
        ConcatAssoc(newPath, p.path[|cur.path|..], "|" + r.code);
        ConcatAssoc(newPath + p.path[|cur.path|..], "|", r.code);
        ConcatAssoc(p.path[|cur.path|..], "|", r.code);
      }
      assert IsParent(table'[j], table'[i]);
    }
  }

  lemma CutPath(path: string, front: string, code: string, n: nat)
    requires path == front + "|" + code && n <= |front|
    ensures path[n..] == front[n..] + "|" + code
  {
  }

  lemma MovedTable(table: seq<Relationship>, cur: Relationship, req: Relationship)
    returns (table': seq<Relationship>, newPath: string, k: nat)
    requires KeepsKey(table, cur, req) && cur.parent != req.parent && Updated(table, req).1 == None
    ensures table' == Updated(table, req).0 && |table'| == |table| && UniqueKeys(table')
    ensures ParentPath(table, req.tenant, req.hierarchy, req.parent).Ok?
    ensures newPath == BuildMaterializedPath(ParentPath(table, req.tenant, req.hierarchy, req.parent).value, cur.code)
    ensures newPath != ""
    ensures forall i | 0 <= i < |table| :: table'[i] == MovedRow(cur, req, newPath, table[i])
    ensures k < |table| && table[k] == cur
    ensures forall r <- table' :: CleanCode(r.code)
    ensures forall i | 0 <= i < |table| && i != k :: PathOk(table', table'[i])
  {
    CurrentFound(table, cur, req);
    var parentPath := ParentPath(table, req.tenant, req.hierarchy, req.parent).value;
    MoveRewrites(table, cur, req, parentPath);
    table' := Updated(table, req).0;
    newPath := BuildMaterializedPath(parentPath, cur.code);
    assert CleanCode(cur.code);
    k :| 0 <= k < |table| && table[k] == cur;
    OthersStayOk(table, table', cur, req, newPath, k);
    MovedCodesClean(table, table', cur, req, newPath);
  }

  lemma OthersStayOk(table: seq<Relationship>, table': seq<Relationship>, cur: Relationship, req: Relationship,
                     newPath: string, k: nat)
    requires KeepsKey(table, cur, req) && |table'| == |table| && newPath != "" && k < |table| && table[k] == cur
    requires forall i | 0 <= i < |table| :: table'[i] == MovedRow(cur, req, newPath, table[i])
    ensures forall i | 0 <= i < |table| && i != k :: PathOk(table', table'[i])
  {
    forall i | 0 <= i < |table| && i != k ensures PathOk(table', table'[i]) {
      OtherRowsStayOk(table, table', cur, req, newPath, i);
    }
  }

  lemma MovedCodesClean(table: seq<Relationship>, table': seq<Relationship>, cur: Relationship, req: Relationship,
                        newPath: string)
    requires KeepsKey(table, cur, req) && |table'| == |table|
    requires forall i | 0 <= i < |table| :: table'[i] == MovedRow(cur, req, newPath, table[i])
    ensures forall r <- table' :: CleanCode(r.code)
  {
    hide CleanCode;
    forall r | r in table' ensures CleanCode(r.code) {
      var i :| 0 <= i < |table'| && table'[i] == r;
      assert table[i] in table;
    }
  }

  lemma InvFromRow(table: seq<Relationship>, k: nat)
    requires UniqueKeys(table) && k < |table| && forall r <- table :: CleanCode(r.code)
    requires forall i | 0 <= i < |table| && i != k :: PathOk(table, table[i])
    ensures PathInv(table) <==> PathOk(table, table[k])
  {
    assert table[k] in table;
    if PathOk(table, table[k]) {
      forall r | r in table ensures PathOk(table, r) {
        var i :| 0 <= i < |table| && table[i] == r;
      }
    }
  }

  /** The moved row itself is right exactly when the move was safe. */
  lemma MovedRowOkIff(table: seq<Relationship>, cur: Relationship, req: Relationship,
                      table': seq<Relationship>, newPath: string, k: nat)
    requires KeepsKey(table, cur, req) && cur.parent != req.parent && |table'| == |table| && UniqueKeys(table')
    requires var parentPath := ParentPath(table, req.tenant, req.hierarchy, req.parent);
      parentPath.Ok? && newPath == BuildMaterializedPath(parentPath.value, cur.code)
    requires forall i | 0 <= i < |table| :: table'[i] == MovedRow(cur, req, newPath, table[i])
    requires k < |table| && table[k] == cur
    ensures PathOk(table', table'[k]) <==> SafeUpdate(table, cur, req)
  {
    assert CleanCode(cur.code);
    var row := table'[k];
    if req.parent == "" {
      assert newPath == cur.code && row.parent == cur.parent;
      if !IsRootParent(cur.parent) { KeptParentTooLong(table', row); }
    } else if req.parent == "null" {
      assert newPath == cur.code;
    } else {
      var p := Find(table, req.tenant, req.hierarchy, req.parent).value;
      OwnCode(table, p);
      var j :| 0 <= j < |table| && table[j] == p;
      assert table'[j] in table' && IsParent(table'[j], row);
      assert newPath == p.path + "|" + cur.code;
      InsideIffBelow(table, cur, p);
      OnlyParent(table', table'[j], row);
      if p != cur && Below(cur, p) { BarAt(p.path, cur.path); }
    }
  }

  lemma KeptParentTooLong(table: seq<Relationship>, row: Relationship)
    requires !IsRootParent(row.parent) && row.path == row.code
    ensures !PathOk(table, row)
  {
  }

  lemma OnlyParent(table: seq<Relationship>, p: Relationship, row: Relationship)
    requires UniqueKeys(table) && p in table && IsParent(p, row)
    ensures PathOk(table, row) <==> row.path == p.path + "|" + row.code
  {
    if q :| q in table && IsParent(q, row) && row.path == q.path + "|" + row.code {
      SameRow(table, p, q);
    }
  }

  lemma PayloadOnly(table: seq<Relationship>, cur: Relationship, req: Relationship)
    returns (table': seq<Relationship>, k: nat)
    requires KeepsKey(table, cur, req) && cur.parent == req.parent && Updated(table, req).1 == None
    ensures table' == Updated(table, req).0 && |table'| == |table| && UniqueKeys(table')
    ensures k < |table| && table[k] == cur && table'[k] == Assigned(cur, req)
    ensures forall i | 0 <= i < |table| && i != k :: table'[i] == table[i]
  {
    CurrentFound(table, cur, req);
    k :| 0 <= k < |table| && table[k] == cur;
    table' := Updated(table, req).0;
  }

  /** Without a new parent, the paths stay right exactly when the row's own path does. */
  lemma PayloadUpdateIff(table: seq<Relationship>, cur: Relationship, req: Relationship)
    requires KeepsKey(table, cur, req) && cur.parent == req.parent && Updated(table, req).1 == None
    ensures PathInv(Updated(table, req).0) <==> req.path == "" || req.path == cur.path
  {
    var table', k := PayloadOnly(table, cur, req);
    var row := table'[k];
    assert CleanCode(cur.code);
    if req.path == "" || req.path == cur.path {
      forall r | r in table' ensures PathOk(table', r) {
        var i :| 0 <= i < |table'| && table'[i] == r;
        SamePathOk(table, table', i);
      }
      forall r | r in table' ensures CleanCode(r.code) {
        var i :| 0 <= i < |table'| && table'[i] == r;
        assert table[i] in table;
      }
    } else {
      assert row in table';
      if PathInv(table') {
        assert PathOk(table', row) && PathOk(table, cur);
        if !IsRootParent(cur.parent) { ForeignPath(table, table', k); }
      }
    }
  }

  lemma SamePathOk(table: seq<Relationship>, table': seq<Relationship>, i: nat)
    requires PathInv(table) && |table'| == |table| && i < |table|
    requires forall i | 0 <= i < |table| ::
      && table'[i].path == table[i].path && table'[i].code == table[i].code
      && table'[i].parent == table[i].parent && SameTree(table'[i], table[i])
    ensures PathOk(table', table'[i])
  {
    assert table[i] in table;
    assert PathOk(table, table[i]);
    if !IsRootParent(table[i].parent) {
      var p := ParentOf(table, table[i]);
      var j :| 0 <= j < |table| && table[j] == p;
      assert table'[j] in table' && IsParent(table'[j], table'[i]);
    }
  }

  lemma ForeignPath(table: seq<Relationship>, table': seq<Relationship>, k: nat)
    requires PathInv(table) && PathInv(table') && |table'| == |table| && k < |table|
    requires table'[k].code == table[k].code && table'[k].parent == table[k].parent && SameTree(table'[k], table[k])
    requires forall i | 0 <= i < |table| && i != k :: table'[i] == table[i]
    requires !IsRootParent(table[k].parent)
    ensures table'[k].path == table[k].path
  {
    assert table[k] in table && table'[k] in table';
    var p := ParentOf(table, table[k]);
    var q := ParentOf(table', table'[k]);
    var j :| 0 <= j < |table| && table[j] == p;
    assert j != k;
    assert table'[j] in table';
    SameRow(table', table'[j], q);
  }

  /**
   * After a successful update that keeps code and hierarchy type, every row's path is again its
   * parent's path plus its own code exactly when the update was safe: without a new parent, no
   * foreign path is sent along; with one, the node is not detached by an empty parent (which the
   * struct update skips) and the new parent is not inside the moved subtree.
   */
  lemma UpdateKeepsPathsIff(table: seq<Relationship>, cur: Relationship, req: Relationship)
    requires KeepsKey(table, cur, req) && Updated(table, req).1 == None
    ensures PathInv(Updated(table, req).0) <==> SafeUpdate(table, cur, req)
  {
    if cur.parent == req.parent {
      PayloadUpdateIff(table, cur, req);
    } else {
      var table', newPath, k := MovedTable(table, cur, req);
      InvFromRow(table', k);
      MovedRowOkIff(table, cur, req, table', newPath, k);
    }
  }

  const NORTH := Relationship(0, "t", "A", "h", "zone", "", "A")
  const SOUTH := Relationship(1, "t", "B", "h", "zone", "A", "A|B")

  lemma TwoRowsRight()
    ensures PathInv([NORTH, SOUTH])
  {
    assert IsParent(NORTH, SOUTH) && NORTH in [NORTH, SOUTH] && "A" + "|" + "B" == "A|B";
  }

  /** Moving a root under its own child succeeds and makes each the other's parent. */
  lemma MoveUnderOwnChild()
    ensures var table, req := [NORTH, SOUTH], NORTH.(parent := "B");
            var (after, error) := Updated(table, req);
            && PathInv(table) && KeepsKey(table, NORTH, req) && error == None && !PathInv(after)
            && |after| == 2 && IsParent(after[0], after[1]) && IsParent(after[1], after[0])
  {
    hide PathInv, Updated;
    var table, req := [NORTH, SOUTH], NORTH.(parent := "B");
    TwoRowsRight();
    assert NORTH in table && SOUTH in table;
    FoundSouth();
    MoveRewrites(table, NORTH, req, SOUTH.path);
    assert Walk(table, [SOUTH, NORTH]);
    assert ParentInside(table, NORTH, SOUTH.code);
    UpdateKeepsPathsIff(table, NORTH, req);
    assert MovedRow(NORTH, req, BuildMaterializedPath(SOUTH.path, "A"), table[0]).parent == "B";
    assert MovedRow(NORTH, req, BuildMaterializedPath(SOUTH.path, "A"), table[1]).parent == "A";
  }

  /** Detaching a child with an empty parent succeeds, gives it a root's path, and leaves it attached. */
  lemma DetachKeepsParent()
    ensures var table, req := [NORTH, SOUTH], SOUTH.(parent := "");
            var (after, error) := Updated(table, req);
            && PathInv(table) && KeepsKey(table, SOUTH, req) && error == None && !PathInv(after)
            && |after| == 2 && after[1].path == "B" && IsParent(after[0], after[1])
  {
    hide PathInv, Updated;
    var table, req := [NORTH, SOUTH], SOUTH.(parent := "");
    TwoRowsRight();
    assert NORTH in table && SOUTH in table;
    MoveRewrites(table, SOUTH, req, "");
    UpdateKeepsPathsIff(table, SOUTH, req);
    assert MovedRow(SOUTH, req, BuildMaterializedPath("", "B"), table[1]).path == "B";
    assert MovedRow(SOUTH, req, BuildMaterializedPath("", "B"), table[0]) == NORTH;
  }

  lemma FoundSouth()
    ensures ParentPath([NORTH, SOUTH], "t", "h", "B") == Ok(SOUTH.path)
  {
    var found := Find([NORTH, SOUTH], "t", "h", "B");
    assert SOUTH in [NORTH, SOUTH];
  }

  /** A move leaves every row alone but the node and its descendants by parent pointers. */
  lemma MoveTouchesOnlySubtree(table: seq<Relationship>, cur: Relationship, req: Relationship, i: nat)
    requires KeepsKey(table, cur, req) && cur.parent != req.parent && Updated(table, req).1 == None
    requires i < |table|
    ensures |Updated(table, req).0| == |table|
    ensures !(SameTree(cur, table[i]) && AncestorOrSelf(table, cur, table[i])) ==>
              Updated(table, req).0[i] == table[i]
    ensures table[i] != cur ==>
              Updated(table, req).0[i] == table[i].(path := Updated(table, req).0[i].path)
  {
    var table', newPath, k := MovedTable(table, cur, req);
    assert table[i] in table;
    if SameTree(cur, table[i]) {
      DescendantIffPrefix(table, cur, table[i]);
      assert Walk(table, [cur]);
    }
  }

  datatype TreeOperation = CreateOp(req: Relationship) | UpdateOp(req: Relationship)

  function Perform(table: seq<Relationship>, op: TreeOperation): seq<Relationship> {
    match op
    case CreateOp(req) => (match Created(table, req) case Ok(t) => t case Err(_) => table)
    case UpdateOp(req) => Updated(table, req).0
  }

  ghost predicate Admissible(table: seq<Relationship>, op: TreeOperation) {
    match op
    case CreateOp(req) => CleanCode(req.code)
    case UpdateOp(req) =>
      forall cur <- table :: cur.id == req.id && cur.tenant == req.tenant ==>
        req.code == cur.code && req.hierarchy == cur.hierarchy && SafeUpdate(table, cur, req)
  }

  ghost predicate AllAdmissible(table: seq<Relationship>, ops: seq<TreeOperation>)
    decreases |ops|
  {
    ops == [] || (Admissible(table, ops[0]) && AllAdmissible(Perform(table, ops[0]), ops[1..]))
  }

  function PerformAll(table: seq<Relationship>, ops: seq<TreeOperation>): seq<Relationship>
    decreases |ops|
  {
    if ops == [] then table else PerformAll(Perform(table, ops[0]), ops[1..])
  }

  lemma UpdateStepKeepsPaths(table: seq<Relationship>, req: Relationship)
    requires PathInv(table) && Admissible(table, UpdateOp(req))
    ensures PathInv(Updated(table, req).0)
  {
    if FindId(table, req.id, req.tenant).Some? {
      var cur := FindId(table, req.id, req.tenant).value;
      if Updated(table, req).1 == None {
        UpdateKeepsPathsIff(table, cur, req);
      } else if cur.parent != req.parent {
        if ParentPath(table, req.tenant, req.hierarchy, req.parent).Ok? {
          MoveRewrites(table, cur, req, ParentPath(table, req.tenant, req.hierarchy, req.parent).value);
        }
      }
    }
  }

  /** Over any run of creations and safe updates, failed ones included, the paths stay right. */
  lemma {:induction false} RunsKeepPaths(table: seq<Relationship>, ops: seq<TreeOperation>)
    requires PathInv(table) && AllAdmissible(table, ops)
    ensures PathInv(PerformAll(table, ops))
    decreases |ops|
  {
    if ops != [] {
      match ops[0] {
        case CreateOp(req) => if Created(table, req).Ok? { CreateKeepsPaths(table, req); }
        case UpdateOp(req) => UpdateStepKeepsPaths(table, req);
      }
      RunsKeepPaths(Perform(table, ops[0]), ops[1..]);
    }
  }
}
