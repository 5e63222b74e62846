/** The rows that tree operations leave. */
module BoundaryTreeRows {
  import opened Prelude
  import opened GoStrings
  import opened Sql
  import opened BoundaryPaths
  import BoundaryMoves

  /** The id is a row's own, and so are the tenant, hierarchy type and code together. */
  predicate Clash(a: Relationship, b: Relationship) {
    a.id == b.id || (a.tenant == b.tenant && a.hierarchy == b.hierarchy && a.code == b.code)
  }

  predicate KeysApart(table: seq<Relationship>) {
    forall i, j | 0 <= i < j < |table| :: !Clash(table[i], table[j])
  }

  /** A parent is asked for, by a code other than the text of a null. */
  predicate AsksParent(req: Relationship) { req.parent != "" && req.parent != "null" }

  /** The row with the asked parent's code in the request's tenant and hierarchy type. */
  predicate IsAsked(p: Relationship, req: Relationship) {
    p.tenant == req.tenant && p.hierarchy == req.hierarchy && p.code == req.parent
  }

  predicate ParentMissing(table: seq<Relationship>, req: Relationship) {
    AsksParent(req) && forall p <- table :: !IsAsked(p, req)
  }

  /** The code alone for a root, or below the asked parent's path. */
  ghost predicate PathFor(table: seq<Relationship>, req: Relationship, path: string) {
    if !AsksParent(req) then path == req.code
    else exists p <- table :: IsAsked(p, req) && path == if p.path == "" then req.code else p.path + "|" + req.code
  }

  lemma ParentPathIs(table: seq<Relationship>, req: Relationship)
    ensures var r := ParentPath(table, req.tenant, req.hierarchy, req.parent);
            if ParentMissing(table, req) then r == Err(NoSuchParent(req.parent))
            else r.Ok? && PathFor(table, req, BuildMaterializedPath(r.value, req.code))
  {
  }

  /** A creation appends the request's row under its path, or is refused for its parent or for a key already there. */
  lemma CreatedRow(table: seq<Relationship>, req: Relationship) returns (path: string)
    requires KeysApart(table)
    ensures BoundaryMoves.Perform(table, BoundaryMoves.CreateOp(req))
         == if Created(table, req).Ok? then Created(table, req).value else table
    ensures ParentMissing(table, req) || PathFor(table, req, path)
    ensures Created(table, req)
         == if ParentMissing(table, req) then Err(NoSuchParent(req.parent))
            else if exists r <- table :: Clash(r, req) then Err(ConstraintViolation)
            else Ok(table + [Relationship(req.id, req.tenant, req.code, req.hierarchy, req.boundaryType, req.parent, path)])
  {
    ParentPathIs(table, req);
    var parentPath := ParentPath(table, req.tenant, req.hierarchy, req.parent);
    path := if parentPath.Ok? then BuildMaterializedPath(parentPath.value, req.code) else "";
    var inserted := table + [req.(path := path)];
    if r :| r in table && Clash(r, req) {
      var i :| 0 <= i < |table| && table[i] == r;
      assert Clash(inserted[i], inserted[|table|]);
    } else {
      assert forall i | 0 <= i < |table| :: !Clash(table[i], req);
      forall i, j | 0 <= i < j < |inserted| ensures !Clash(inserted[i], inserted[j]) {}
    }
    ApartIff(inserted);
  }

  lemma ApartIff(table: seq<Relationship>)
    ensures UniqueKeys(table) <==> KeysApart(table)
  {
    if UniqueKeys(table) {
      forall i, j | 0 <= i < j < |table| ensures !Clash(table[i], table[j]) {}
    }
    if KeysApart(table) {
      forall i, j | 0 <= i < j < |table| ensures table[i].id != table[j].id
        && !(SameTree(table[i], table[j]) && table[i].code == table[j].code) {
        assert !Clash(table[i], table[j]);
      }
    }
  }

  // ---------------------------------------------------------------- moving

  /** The first occurrence of one path in another gives way to a third; a path without one stays. */
  ghost predicate FirstReplaced(was: string, stored: string, oldPath: string, newPath: string) {
    if Contains(was, oldPath) then
      exists i: nat :: FirstOccurrence(was, oldPath, i) && stored == was[..i] + newPath + was[i + |oldPath|..]
    else stored == was
  }

  /** Rows of the request's tenant and hierarchy type with the old path and a bar before their own get the new path. */
  ghost predicate BelowMoved(table: seq<Relationship>, after: seq<Relationship>, req: Relationship, oldPath: string,
                             newPath: string) {
    |after| == |table| && forall i | 0 <= i < |table| :: RowMoved(table[i], after[i], req, oldPath, newPath)
  }

  ghost predicate RowMoved(r: Relationship, stored: Relationship, req: Relationship, oldPath: string, newPath: string) {
    if r.tenant == req.tenant && r.hierarchy == req.hierarchy && Like(r.path, oldPath + "|%") then
      stored == r.(path := stored.path) && FirstReplaced(r.path, stored.path, oldPath, newPath)
    else stored == r
  }

  /** A value sent, or the old one if none is. */
  predicate Set(was: string, stored: string, sent: string) { stored == if |sent| > 0 then sent else was }

  /** The k-th row with the values sent, the others as they were. */
  ghost predicate RowSet(table: seq<Relationship>, after: seq<Relationship>, k: nat, req: Relationship, path: string)
    requires k < |table|
  {
    && |after| == |table| && (forall i | 0 <= i < |table| && i != k :: after[i] == table[i])
    && after[k].id == table[k].id && after[k].tenant == table[k].tenant
    && Set(table[k].code, after[k].code, req.code) && Set(table[k].hierarchy, after[k].hierarchy, req.hierarchy)
    && Set(table[k].boundaryType, after[k].boundaryType, req.boundaryType)
    && Set(table[k].parent, after[k].parent, req.parent) && Set(table[k].path, after[k].path, path)
  }

  lemma RewrittenMoves(table: seq<Relationship>, req: Relationship, oldPath: string, newPath: string)
    ensures BelowMoved(table, Rewritten(table, req.tenant, req.hierarchy, oldPath, newPath), req, oldPath, newPath)
  {
    hide Like, Index;
    var after := Rewritten(table, req.tenant, req.hierarchy, oldPath, newPath);
    forall i | 0 <= i < |table| ensures RowMoved(table[i], after[i], req, oldPath, newPath) {
      ReplacedIs(table[i].path, oldPath, newPath);
    }
  }

  lemma ReplacedIs(was: string, oldPath: string, newPath: string)
    ensures FirstReplaced(was, ReplaceFirst(was, oldPath, newPath), oldPath, newPath)
  {
  }

  lemma AssignedSets(table: seq<Relationship>, req: Relationship, path: string, k: nat)
    requires k < |table| && table[k].id == req.id && table[k].tenant == req.tenant
    requires forall i | 0 <= i < |table| && i != k :: table[i].id != req.id
    ensures RowSet(table, AssignedRow(table, req.(path := path)), k, req, path)
  {
  }

  lemma RowOfId(table: seq<Relationship>, req: Relationship) returns (k: nat)
    requires KeysApart(table)
    ensures match FindId(table, req.id, req.tenant)
            case None => forall r <- table :: !(r.id == req.id && r.tenant == req.tenant)
            case Some(cur) => k < |table| && table[k] == cur && cur.id == req.id && cur.tenant == req.tenant
                              && forall i | 0 <= i < |table| && i != k :: table[i].id != req.id
  {
    k := 0;
    if FindId(table, req.id, req.tenant).Some? {
      k :| k < |table| && table[k] == FindId(table, req.id, req.tenant).value;
      forall i | 0 <= i < |table| && i != k ensures table[i].id != req.id {
        assert !Clash(table[if i < k then i else k], table[if i < k then k else i]);
      }
    }
  }

  /**
   * An update of an unknown row or under a missing parent changes nothing. A new parent moves the rows below and gives the
   * row its path; then the values sent are set. If that repeats a key, the rows below have moved all the same.
   */
  lemma UpdatedRows(table: seq<Relationship>, req: Relationship)
    returns (k: nat, path: string, moved: seq<Relationship>, rewrote: seq<Relationship>)
    requires KeysApart(table)
    ensures BoundaryMoves.Perform(table, BoundaryMoves.UpdateOp(req)) == Updated(table, req).0
    ensures var (after, error) := Updated(table, req);
            if forall r <- table :: !(r.id == req.id && r.tenant == req.tenant) then
              after == table && error == Some(NotFound)
            else
              && k < |table| && table[k].id == req.id && table[k].tenant == req.tenant
              && if table[k].parent != req.parent && ParentMissing(table, req) then
                   after == table && error == Some(NoSuchParent(req.parent))
                 else
                   && (if table[k].parent == req.parent then moved == table && path == req.path
                       else PathFor(table, req, path) && BelowMoved(table, moved, req, table[k].path, path))
                   && |moved| == |table| && RowSet(moved, rewrote, k, req, path)
                   && (if KeysApart(rewrote) then after == rewrote && error == None
                       else after == moved && error == Some(ConstraintViolation))
  {
    hide Rewritten, AssignedRow, ParentPath, PathFor, ParentMissing, BelowMoved, RowSet, BuildMaterializedPath;
    k := RowOfId(table, req);
    path, moved, rewrote := "", table, table;
    if FindId(table, req.id, req.tenant).Some? {
      ParentPathIs(table, req);
      if table[k].parent == req.parent {
        path := req.path;
      } else if !ParentMissing(table, req) {
        path := BuildMaterializedPath(ParentPath(table, req.tenant, req.hierarchy, req.parent).value, req.code);
        moved := Rewritten(table, req.tenant, req.hierarchy, table[k].path, path);
        RewrittenMoves(table, req, table[k].path, path);
        SameIds(table, req, table[k].path, path);
      }
      AssignedSets(moved, req, path, k);
      rewrote := AssignedRow(moved, req.(path := path));
      ApartIff(rewrote);
    }
  }

  lemma SameIds(table: seq<Relationship>, req: Relationship, oldPath: string, newPath: string)
    ensures var moved := Rewritten(table, req.tenant, req.hierarchy, oldPath, newPath);
            && |moved| == |table|
            && forall i | 0 <= i < |table| :: moved[i].id == table[i].id && moved[i].tenant == table[i].tenant
  {
    hide IsChildRow;
  }
}
