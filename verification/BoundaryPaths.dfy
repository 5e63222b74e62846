/** The boundary tree: parent codes, and every row's path of codes from the root. */
module BoundaryPaths {
  import opened Prelude
  import opened GoStrings
  import opened Sql

  datatype Relationship = Relationship(
    id: nat, tenant: string, code: string, hierarchy: string, boundaryType: string,
    parent: string, path: string)

  datatype PathError = NotFound | NoSuchParent(code: string) | ConstraintViolation

  // ---------------------------------------------------------------- the table

  predicate IsRootParent(parent: string) {
    parent == "" || parent == "null"
  }

  predicate SameTree(a: Relationship, b: Relationship) {
    a.tenant == b.tenant && a.hierarchy == b.hierarchy
  }

  predicate IsParent(p: Relationship, r: Relationship) {
    SameTree(p, r) && !IsRootParent(r.parent) && p.code == r.parent
  }

  /** Primary key (tenant, code, hierarchy type) and the unique id. */
  predicate UniqueKeys(table: seq<Relationship>) {
    forall i, j | 0 <= i < j < |table| ::
      table[i].id != table[j].id && !(SameTree(table[i], table[j]) && table[i].code == table[j].code)
  }

  predicate CleanCode(code: string) {
    code != "" && code != "null" && '|' !in code && LikeLiteral(code)
  }

  /** A row's path is its parent's path, a bar and its own code; a root's path is its code. */
  ghost predicate PathOk(table: seq<Relationship>, r: Relationship) {
    if IsRootParent(r.parent) then r.path == r.code
    else exists p :: p in table && IsParent(p, r) && r.path == p.path + "|" + r.code
  }

  ghost predicate PathInv(table: seq<Relationship>) {
    && UniqueKeys(table)
    && (forall r <- table :: CleanCode(r.code))
    && (forall r {:trigger PathOk(table, r)} | r in table :: PathOk(table, r))
  }

  function Find(table: seq<Relationship>, tenant: string, hierarchy: string, code: string): (r: Option<Relationship>)
    ensures r.Some? ==> r.value in table && r.value.tenant == tenant && r.value.hierarchy == hierarchy && r.value.code == code
    ensures r.None? ==> forall x <- table :: !(x.tenant == tenant && x.hierarchy == hierarchy && x.code == code)
  {
    if table == [] then None
    else if table[0].tenant == tenant && table[0].hierarchy == hierarchy && table[0].code == code then Some(table[0])
    else Find(table[1..], tenant, hierarchy, code)
  }

  function FindId(table: seq<Relationship>, id: nat, tenant: string): (r: Option<Relationship>)
    ensures r.Some? ==> r.value in table && r.value.id == id && r.value.tenant == tenant
    ensures r.None? ==> forall x <- table :: !(x.id == id && x.tenant == tenant)
  {
    if table == [] then None
    else if table[0].id == id && table[0].tenant == tenant then Some(table[0])
    else FindId(table[1..], id, tenant)
  }

  // ---------------------------------------------------------------- what the operations do

  function BuildMaterializedPath(parentPath: string, code: string): string {
    if parentPath == "" then code else parentPath + "|" + code
  }

  /** The path of the named parent, "" for no parent. */
  function ParentPath(table: seq<Relationship>, tenant: string, hierarchy: string, parent: string): Result<string,
                      PathError> {
    if IsRootParent(parent) then Ok("")
    else match Find(table, tenant, hierarchy, parent)
         case None => Err(NoSuchParent(parent))
         case Some(p) => Ok(p.path)
  }

  function Created(table: seq<Relationship>, req: Relationship): Result<seq<Relationship>, PathError> {
    match ParentPath(table, req.tenant, req.hierarchy, req.parent)
    case Err(e) => Err(e)
    case Ok(parentPath) =>
      var inserted := table + [req.(path := BuildMaterializedPath(parentPath, req.code))];
      if UniqueKeys(inserted) then Ok(inserted) else Err(ConstraintViolation)
  }

  predicate IsChildRow(r: Relationship, tenant: string, hierarchy: string, oldPath: string) {
    r.tenant == tenant && r.hierarchy == hierarchy && Like(r.path, oldPath + "|%")
  }

  function Rewritten(table: seq<Relationship>, tenant: string, hierarchy: string, oldPath: string, newPath: string)
    : seq<Relationship>
  {
    seq(|table|, i requires 0 <= i < |table| =>
      if IsChildRow(table[i], tenant, hierarchy, oldPath)
      then table[i].(path := ReplaceFirst(table[i].path, oldPath, newPath)) else table[i])
  }

  function NonEmpty(given: string, kept: string): string {
    if given == "" then kept else given
  }

  /** A struct update: fields left empty keep their stored value. */
  function Assigned(r: Relationship, req: Relationship): Relationship {
    Relationship(r.id, r.tenant, NonEmpty(req.code, r.code), NonEmpty(req.hierarchy, r.hierarchy),
                 NonEmpty(req.boundaryType, r.boundaryType), NonEmpty(req.parent, r.parent),
                 NonEmpty(req.path, r.path))
  }

  function AssignedRow(table: seq<Relationship>, req: Relationship): seq<Relationship> {
    seq(|table|, i requires 0 <= i < |table| =>
      if table[i].id == req.id && table[i].tenant == req.tenant then Assigned(table[i], req) else table[i])
  }

  /** The last statement; a violated constraint leaves the table as the children's updates left it. */
  function Committed(table: seq<Relationship>, req: Relationship): (seq<Relationship>, Option<PathError>) {
    var updated := AssignedRow(table, req);
    if UniqueKeys(updated) then (updated, None) else (table, Some(ConstraintViolation))
  }

  function Updated(table: seq<Relationship>, req: Relationship): (seq<Relationship>, Option<PathError>) {
    match FindId(table, req.id, req.tenant)
    case None => (table, Some(NotFound))
    case Some(current) =>
      if current.parent == req.parent then Committed(table, req)
      else
        match ParentPath(table, req.tenant, req.hierarchy, req.parent)
        case Err(e) => (table, Some(e))
        case Ok(parentPath) =>
          var newPath := BuildMaterializedPath(parentPath, req.code);
          Committed(Rewritten(table, req.tenant, req.hierarchy, current.path, newPath), req.(path := newPath))
  }

  function WithPath(table: seq<Relationship>, id: nat, path: string): seq<Relationship> {
    seq(|table|, i requires 0 <= i < |table| => if table[i].id == id then table[i].(path := path) else table[i])
  }

  // ---------------------------------------------------------------- the repository

  class BoundaryRelationshipRepository {
    var table: seq<Relationship>

    constructor ()
      ensures table == []
    {
      table := [];
    }

    method Create(req: Relationship) returns (error: Option<PathError>)
      modifies this
      ensures match Created(old(table), req)
        case Ok(t) => error == None && table == t
        case Err(e) => error == Some(e) && table == old(table)
    {
      var parentPath := "";
      if req.parent != "" && req.parent != "null" {
        var parent := Find(table, req.tenant, req.hierarchy, req.parent);
        if parent.None? { return Some(NoSuchParent(req.parent)); }
        parentPath := parent.value.path;
      }
      var inserted := table + [req.(path := BuildMaterializedPath(parentPath, req.code))];
      if !UniqueKeys(inserted) { return Some(ConstraintViolation); }
      table := inserted;
      return None;
    }

    /** Children first, then the row itself. */
    method Update(req: Relationship) returns (error: Option<PathError>)
      requires UniqueKeys(table)
      modifies this
      ensures (table, error) == Updated(old(table), req)
    {
      var current := FindId(table, req.id, req.tenant);
      if current.None? { return Some(NotFound); }
      var row := req;
      if current.value.parent != req.parent {
        var parentPath := "";
        if req.parent != "" && req.parent != "null" {
          var parent := Find(table, req.tenant, req.hierarchy, req.parent);
          if parent.None? { return Some(NoSuchParent(req.parent)); }
          parentPath := parent.value.path;
        }
        row := req.(path := BuildMaterializedPath(parentPath, req.code));
        UpdateChildrenMaterializedPaths(current.value.path, row.path, req.tenant, req.hierarchy);
      }
      var updated := AssignedRow(table, row);
      if !UniqueKeys(updated) { return Some(ConstraintViolation); }
      table := updated;
      return None;
    }

    method UpdateChildrenMaterializedPaths(oldPath: string, newPath: string, tenant: string, hierarchy: string)
      requires UniqueKeys(table)
      modifies this
      ensures table == Rewritten(old(table), tenant, hierarchy, oldPath, newPath)
    {
      var children: seq<Relationship> := [];
      for i := 0 to |table|
        invariant table == old(table)
        invariant forall c :: c in children <==> c in table[..i] && IsChildRow(c, tenant, hierarchy, oldPath)
      {
        if IsChildRow(table[i], tenant, hierarchy, oldPath) {
          children := children + [table[i]];
        }
      }
      ghost var before := table;
      assert before[..|before|] == before;
      for n := 0 to |children|
        invariant table == RewrittenOf(before, children[..n], oldPath, newPath)
      {
        var child := children[n];
        assert child in before;
        OneChildMore(before, children[..n], child, oldPath, newPath);
        assert children[..n + 1] == children[..n] + [child];
        table := WithPath(table, child.id, ReplaceFirst(child.path, oldPath, newPath));
      }
      assert children[..|children|] == children;
      assert forall i | 0 <= i < |before| :: before[i] in before;
    }
  }

  /** The table with the paths of some of its rows rewritten. */
  function RewrittenOf(table: seq<Relationship>, rows: seq<Relationship>, oldPath: string,
                       newPath: string): seq<Relationship> {
    seq(|table|, i requires 0 <= i < |table| =>
      if table[i] in rows then table[i].(path := ReplaceFirst(table[i].path, oldPath, newPath)) else table[i])
  }

  /** Updating a row by its id rewrites that row and no other. */
  lemma OneChildMore(table: seq<Relationship>, rows: seq<Relationship>, child: Relationship, oldPath: string,
                     newPath: string)
    requires UniqueKeys(table) && child in table
    ensures WithPath(RewrittenOf(table, rows, oldPath, newPath), child.id, ReplaceFirst(child.path, oldPath, newPath))
         == RewrittenOf(table, rows + [child], oldPath, newPath)
  {
    hide ReplaceFirst;
    var k :| 0 <= k < |table| && table[k] == child;
    forall i | 0 <= i < |table| ensures (table[i].id == child.id <==> i == k) && (table[i] == child <==> i == k) {
    }
    assert forall r :: r in rows + [child] <==> r in rows || r == child;
  }

  // ---------------------------------------------------------------- ancestry by parent pointers

  /** A walk up the parent pointers from its first row to its last. */
  ghost predicate Walk(table: seq<Relationship>, walk: seq<Relationship>) {
    && |walk| >= 1
    && (forall r <- walk :: r in table)
    && (forall i | 0 <= i < |walk| - 1 :: IsParent(walk[i + 1], walk[i]))
  }

  ghost predicate AncestorOrSelf(table: seq<Relationship>, a: Relationship, r: Relationship) {
    exists walk :: Walk(table, walk) && walk[0] == r && walk[|walk| - 1] == a
  }

  function Steps(r: Relationship): seq<string> { Split(r.path, '|') }

  lemma ParentOf(table: seq<Relationship>, r: Relationship) returns (p: Relationship)
    requires PathInv(table) && r in table && !IsRootParent(r.parent)
    ensures p in table && IsParent(p, r) && r.path == p.path + "|" + r.code && |p.path| < |r.path|
    ensures Steps(r) == Steps(p) + [r.code]
  {
    assert PathOk(table, r);
    p :| p in table && IsParent(p, r) && r.path == p.path + "|" + r.code;
    StepsAppend(p.path, r.code);
  }

  lemma {:induction false} StepsAppend(path: string, code: string)
    requires '|' !in code
    ensures Split(path + "|" + code, '|') == Split(path, '|') + [code]
  {
    JoinOfSplit(path, '|');
    JoinAppend(Split(path, '|'), code, "|");
    SplitOfJoin(Split(path, '|') + [code], '|');
  }

  lemma RootSteps(table: seq<Relationship>, r: Relationship)
    requires PathInv(table) && r in table && IsRootParent(r.parent)
    ensures Steps(r) == [r.code]
  {
    assert PathOk(table, r);
    SplitWhole(r.code, '|');
  }

  lemma SameRow(table: seq<Relationship>, a: Relationship, b: Relationship)
    requires UniqueKeys(table) && a in table && b in table && SameTree(a, b) && a.code == b.code
    ensures a == b
  {
    var i :| 0 <= i < |table| && table[i] == a;
    var j :| 0 <= j < |table| && table[j] == b;
  }

  lemma OwnCode(table: seq<Relationship>, r: Relationship)
    requires PathInv(table) && r in table
    ensures r.code in Steps(r) && LikeLiteral(r.path) && r.path != ""
    decreases |r.path|
  {
    if IsRootParent(r.parent) {
      RootSteps(table, r);
      assert PathOk(table, r);
    } else {
      var p := ParentOf(table, r);
      OwnCode(table, p);
    }
  }

  /** The prefix test of the subtree rewrite picks exactly the proper descendants. */
  lemma DescendantIffPrefix(table: seq<Relationship>, a: Relationship, r: Relationship)
    requires PathInv(table) && a in table && r in table && SameTree(a, r)
    ensures HasPrefix(r.path, a.path + "|") <==> AncestorOrSelf(table, a, r) && a != r
  {
    if walk :| Walk(table, walk) && walk[0] == r && walk[|walk| - 1] == a {
      WalkStaysInTree(table, walk);
    }
    if HasPrefix(r.path, a.path + "|") {
      var walk := WalkByPrefix(table, a, r);
    }
  }

  lemma WalkTail(table: seq<Relationship>, walk: seq<Relationship>)
    requires Walk(table, walk) && |walk| >= 2
    ensures Walk(table, walk[1..])
  {
    forall i | 0 <= i < |walk| - 2 ensures IsParent(walk[1..][i + 1], walk[1..][i]) {
      assert IsParent(walk[i + 2], walk[i + 1]);
    }
  }

  lemma WalkExtend(table: seq<Relationship>, r: Relationship, walk: seq<Relationship>)
    requires Walk(table, walk) && r in table && IsParent(walk[0], r)
    ensures Walk(table, [r] + walk)
  {
    var longer := [r] + walk;
    forall i | 0 <= i < |longer| - 1 ensures IsParent(longer[i + 1], longer[i]) {
      if i > 0 { assert IsParent(walk[i], walk[i - 1]); }
    }
  }

  lemma {:induction false} WalkStaysInTree(table: seq<Relationship>, walk: seq<Relationship>)
    requires PathInv(table) && Walk(table, walk)
    ensures SameTree(walk[0], walk[|walk| - 1])
    ensures walk[|walk| - 1].code in Steps(walk[0])
    ensures |walk| > 1 ==> HasPrefix(walk[0].path, walk[|walk| - 1].path + "|")
    decreases |walk|
  {
    var r, a := walk[0], walk[|walk| - 1];
    if |walk| == 1 {
      OwnCode(table, r);
    } else {
      WalkTail(table, walk);
      WalkStaysInTree(table, walk[1..]);
      assert IsParent(walk[0 + 1], walk[0]);
      var p := ParentOf(table, r);
      SameRow(table, p, walk[1]);
      PrefixGrows(a.path + "|", p.path, "|" + r.code);
      ConcatAssoc(p.path, "|", r.code);
      if |walk| == 2 { assert r.path[..|p.path| + 1] == p.path + "|"; }
    }
  }

  lemma PrefixGrows(prefix: string, s: string, more: string)
    ensures HasPrefix(s, prefix) ==> HasPrefix(s + more, prefix)
  {
    if HasPrefix(s, prefix) { assert (s + more)[..|prefix|] == s[..|prefix|]; }
  }

  /** An ancestor's code is on the path, and every code on the path is an ancestor's. */
  lemma AncestorIffOnPath(table: seq<Relationship>, a: Relationship, r: Relationship)
    requires PathInv(table) && a in table && r in table && SameTree(a, r)
    ensures AncestorOrSelf(table, a, r) <==> a.code in Steps(r)
  {
    if walk :| Walk(table, walk) && walk[0] == r && walk[|walk| - 1] == a {
      WalkStaysInTree(table, walk);
    }
    if a.code in Steps(r) {
      var walk := WalkTo(table, a.code, r);
      WalkStaysInTree(table, walk);
      SameRow(table, walk[|walk| - 1], a);
    }
  }

  lemma WalkTo(table: seq<Relationship>, code: string, r: Relationship) returns (walk: seq<Relationship>)
    requires PathInv(table) && r in table && code in Steps(r)
    ensures Walk(table, walk) && walk[0] == r && walk[|walk| - 1].code == code
    decreases |r.path|
  {
    if r.code == code {
      walk := [r];
    } else if IsRootParent(r.parent) {
      RootSteps(table, r);
      assert false;
    } else {
      var p := ParentOf(table, r);
      var rest := WalkTo(table, code, p);
      WalkExtend(table, r, rest);
      walk := [r] + rest;
    }
  }

  lemma WalkByPrefix(table: seq<Relationship>, a: Relationship, r: Relationship) returns (walk: seq<Relationship>)
    requires PathInv(table) && a in table && r in table && SameTree(a, r)
    requires HasPrefix(r.path, a.path + "|")
    ensures Walk(table, walk) && walk[0] == r && walk[|walk| - 1] == a
    decreases |r.path|
  {
    var p := PrefixThroughParent(table, a, r);
    var rest := [p];
    if |a.path| != |p.path| {
      rest := WalkByPrefix(table, a, p);
    }
    WalkExtend(table, r, rest);
    walk := [r] + rest;
  }

  lemma PrefixThroughParent(table: seq<Relationship>, a: Relationship, r: Relationship) returns (p: Relationship)
    requires PathInv(table) && a in table && r in table && SameTree(a, r)
    requires HasPrefix(r.path, a.path + "|")
    ensures p in table && IsParent(p, r) && |p.path| < |r.path|
    ensures |a.path| == |p.path| ==> p == a
    ensures |a.path| != |p.path| ==> HasPrefix(p.path, a.path + "|")
  {
    var n: nat := |a.path|;
    BarAt(r.path, a.path);
    if IsRootParent(r.parent) {
      RootPath(table, r);
      assert false;
    } else {
      p := ParentOf(table, r);
      if n > |p.path| {
        BarInTail(p.path, r.code, n);
        assert false;
      } else if n == |p.path| {
        assert p.path == r.path[..n] == a.path;
        PathDetermines(table, p, a);
      } else {
        assert p.path[..n + 1] == r.path[..n + 1];
      }
    }
  }

  lemma BarAt(path: string, front: string)
    requires HasPrefix(path, front + "|")
    ensures |front| < |path| && path[|front|] == '|' && path[..|front|] == front
  {
    assert path[|front|] == path[..|front| + 1][|front|];
    assert path[..|front|] == path[..|front| + 1][..|front|];
  }

  lemma RootPath(table: seq<Relationship>, r: Relationship)
    requires PathInv(table) && r in table && IsRootParent(r.parent)
    ensures '|' !in r.path
  {
    assert PathOk(table, r);
  }

  lemma BarInTail(front: string, code: string, n: nat)
    requires |front| < n < |front + "|" + code| && (front + "|" + code)[n] == '|'
    ensures '|' in code
  {
    assert code[n - |front| - 1] == '|';
  }

  lemma PathDetermines(table: seq<Relationship>, a: Relationship, b: Relationship)
    requires PathInv(table) && a in table && b in table && SameTree(a, b) && a.path == b.path
    ensures a == b
  {
    LastStep(table, a);
    LastStep(table, b);
    SameRow(table, a, b);
  }

  lemma LastStep(table: seq<Relationship>, r: Relationship)
    requires PathInv(table) && r in table
    ensures Steps(r)[|Steps(r)| - 1] == r.code
  {
    if IsRootParent(r.parent) {
      RootSteps(table, r);
    } else {
      var p := ParentOf(table, r);
    }
  }
}
