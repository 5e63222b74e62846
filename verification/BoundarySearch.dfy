/** Searching the boundary tree by codes, from paths alone. */
module BoundarySearch {
  import opened GoStrings
  import opened Lists
  import opened Sql
  import opened BoundaryPaths

  datatype Criteria = Criteria(
    tenant: string, hierarchy: string, boundaryType: string, codes: seq<string>, parent: string,
    includeChildren: bool, includeParents: bool, limit: int, offset: int,
    currentBoundaryCodes: seq<string>, isSearchForRootNode: bool)

  /** `ARRAY[codes] && string_to_array(path, '|')`. */
  predicate Overlap(codes: seq<string>, r: Relationship) {
    exists c <- codes :: c in Steps(r)
  }

  /** The codes the ancestor subquery unnests from the paths of the requested rows. */
  predicate InAncestorSubquery(table: seq<Relationship>, c: Criteria, code: string) {
    exists m <- table ::
      m.code in c.codes && m.tenant == c.tenant && m.hierarchy == c.hierarchy && code in Steps(m)
  }

  predicate CodesSelect(table: seq<Relationship>, c: Criteria, r: Relationship) {
    if c.includeChildren then Overlap(c.codes, r)
    else if c.includeParents then InAncestorSubquery(table, c, r.code)
    else r.code in c.codes
  }

  /** The WHERE clause. */
  predicate Selected(table: seq<Relationship>, c: Criteria, r: Relationship) {
    && r.tenant == c.tenant
    && (c.hierarchy != "" ==> r.hierarchy == c.hierarchy)
    && (c.boundaryType != "" ==> r.boundaryType == c.boundaryType)
    && (c.parent != "" ==> r.parent == c.parent)
    && (c.isSearchForRootNode ==> r.parent == "")
    && (c.currentBoundaryCodes != [] ==> Overlap(c.currentBoundaryCodes, r))
    && (c.codes != [] && !c.isSearchForRootNode ==> CodesSelect(table, c, r))
  }

  function Filter(table: seq<Relationship>, rows: seq<Relationship>, c: Criteria): seq<Relationship> {
    if rows == [] then []
    else (if Selected(table, c, rows[0]) then [rows[0]] else []) + Filter(table, rows[1..], c)
  }

  /** `SearchWithMaterializedPath`, rows in scan order. */
  function SearchWithMaterializedPath(table: seq<Relationship>, c: Criteria): seq<Relationship> {
    Page(Filter(table, table, c), c.limit, c.offset)
  }

  lemma {:induction false} FilterRows(table: seq<Relationship>, rows: seq<Relationship>, c: Criteria)
    ensures forall r :: r in Filter(table, rows, c) <==> r in rows && Selected(table, c, r)
  {
    if rows != [] {
      FilterRows(table, rows[1..], c);
      assert forall r :: r in rows <==> r == rows[0] || r in rows[1..];
    }
  }

  function ByCodes(c: Criteria, codes: seq<string>): Criteria {
    Criteria(c.tenant, c.hierarchy, "", codes, "", false, false, 0, 0, [], false)
  }

  function ByCurrentCodes(c: Criteria, codes: seq<string>): Criteria {
    Criteria(c.tenant, c.hierarchy, "", [], "", false, false, 0, 0, codes, false)
  }

  /** The non-empty codes on a row's path, its own aside. */
  predicate AncestorCode(r: Relationship, code: string) {
    r.path != "" && code in Steps(r) && code != "" && code != r.code
  }

  predicate AncestorOfSome(boundaries: seq<Relationship>, code: string) {
    exists b <- boundaries :: AncestorCode(b, code)
  }

  lemma AncestorOfOneMore(boundaries: seq<Relationship>, b: Relationship, code: string)
    ensures AncestorOfSome(boundaries + [b], code) <==> AncestorOfSome(boundaries, code) || AncestorCode(b, code)
  {
    assert forall x :: x in boundaries + [b] <==> x in boundaries || x == b;
  }

  method AddAncestorCodes(codes: set<string>, boundary: Relationship) returns (codes': set<string>)
    ensures forall code :: code in codes' <==> code in codes || AncestorCode(boundary, code)
  {
    codes' := codes;
    if boundary.path == "" { return; }
    var parts := Split(boundary.path, '|');
    for k := 0 to |parts|
      invariant forall code :: code in codes' <==>
                  code in codes || (code in parts[..k] && code != "" && code != boundary.code)
    {
      assert parts[..k + 1] == parts[..k] + [parts[k]];
      if parts[k] != "" && parts[k] != boundary.code {
        codes' := codes' + {parts[k]};
      }
    }
    assert parts[..|parts|] == parts;
  }

  // ---------------------------------------------------------------- the service

  class BoundaryRelationshipService {
    const repo: BoundaryRelationshipRepository

    constructor (repo: BoundaryRelationshipRepository)
      ensures this.repo == repo
    {
      this.repo := repo;
    }

    /**
     * The first pass finds rows, two more find ancestors and descendants. Each code comes out
     * once; a search by codes yields exactly the rows the flags ask for by parent pointers.
     */
    method SearchWithInternalParameters(c: Criteria) returns (result: seq<Relationship>)
      ensures forall i, j | 0 <= i < j < |result| :: result[i].code != result[j].code
      ensures forall r :: r in result ==> r in Gathered(repo.table, c)
      ensures forall r :: r in Gathered(repo.table, c) ==> exists x <- result :: x.code == r.code
      ensures PathInv(repo.table) && CodeSearch(c) ==> forall r :: r in result <==> Wanted(repo.table, c, r)
      ensures PlainSearch(c) ==> forall r <- result :: r in repo.table && Meets(c, r)
      ensures PlainSearch(c) ==> forall r <- repo.table | Meets(c, r) :: exists x <- result :: x.code == r.code
    {
      if PlainSearch(c) { PlainGathered(repo.table, c); }
      var main := SearchWithMaterializedPath(repo.table, c);
      var parents := GetParentBoundaries(main, c);
      var children := GetChildrenBoundaries(main, c);
      result := CombineBoundaries(main, parents, children);
      if PathInv(repo.table) && CodeSearch(c) { EveryWantedRowFound(repo.table, c, result); }
    }

    method GetParentBoundaries(boundaries: seq<Relationship>, c: Criteria) returns (parents: seq<Relationship>)
      ensures forall r :: r in parents <==> r in ParentRows(repo.table, boundaries, c)
    {
      if !c.includeParents || |boundaries| == 0 { return []; }
      var ancestorCodes: set<string> := {};
      for i := 0 to |boundaries|
        invariant forall code :: code in ancestorCodes <==> AncestorOfSome(boundaries[..i], code)
      {
        forall code ensures AncestorOfSome(boundaries[..i + 1], code) <==>
                            AncestorOfSome(boundaries[..i], code) || AncestorCode(boundaries[i], code)
        {
          AncestorOfOneMore(boundaries[..i], boundaries[i], code);
          assert boundaries[..i + 1] == boundaries[..i] + [boundaries[i]];
        }
        ancestorCodes := AddAncestorCodes(ancestorCodes, boundaries[i]);
      }
      assert boundaries[..|boundaries|] == boundaries;
      if ancestorCodes == {} { return []; }
      var codes := SetToSeq(ancestorCodes);
      parents := SearchWithMaterializedPath(repo.table, ByCodes(c, codes));
      FilterRows(repo.table, repo.table, ByCodes(c, codes));
    }

    method GetChildrenBoundaries(boundaries: seq<Relationship>, c: Criteria) returns (children: seq<Relationship>)
      ensures forall r :: r in children <==> r in ChildRows(repo.table, boundaries, c)
    {
      if !c.includeChildren || |boundaries| == 0 { return []; }
      var currentBoundaryCodes := seq(|boundaries|, i requires 0 <= i < |boundaries| => boundaries[i].code);
      children := SearchWithMaterializedPath(repo.table, ByCurrentCodes(c, currentBoundaryCodes));
      FilterRows(repo.table, repo.table, ByCurrentCodes(c, currentBoundaryCodes));
      forall r ensures Overlap(currentBoundaryCodes, r) <==> exists b <- boundaries :: b.code in Steps(r) {
        if b :| b in boundaries && b.code in Steps(r) {
          var i :| 0 <= i < |boundaries| && boundaries[i] == b;
          assert currentBoundaryCodes[i] == b.code;
        }
        if code :| code in currentBoundaryCodes && code in Steps(r) {
          var i :| 0 <= i < |boundaries| && currentBoundaryCodes[i] == code;
          assert boundaries[i] in boundaries;
        }
      }
    }
  }

  method SetToSeq(s: set<string>) returns (keys: seq<string>)
    ensures forall k :: k in keys <==> k in s
  {
    keys := [];
    var rest := s;
    while rest != {}
      invariant rest <= s && forall k :: k in keys <==> k in s - rest
      decreases |rest|
    {
      var key :| key in rest;
      keys, rest := keys + [key], rest - {key};
    }
  }

  method AddByCode(m: map<string, Relationship>, rows: seq<Relationship>) returns (m': map<string, Relationship>)
    ensures forall k :: k in m' <==> k in m || exists r <- rows :: r.code == k
    ensures forall k :: k in m' ==> (m'[k] in rows && m'[k].code == k) || (k in m && m'[k] == m[k])
  {
    m' := m;
    for i := 0 to |rows|
      invariant forall k :: k in m' <==> k in m || exists r <- rows[..i] :: r.code == k
      invariant forall k :: k in m' ==> (m'[k] in rows && m'[k].code == k) || (k in m && m'[k] == m[k])
    {
      assert rows[..i + 1] == rows[..i] + [rows[i]];
      m' := m'[rows[i].code := rows[i]];
    }
    assert rows[..|rows|] == rows;
  }

  /** Later groups win; the map's order is arbitrary. */
  method CombineBoundaries(main: seq<Relationship>, parents: seq<Relationship>, children: seq<Relationship>)
    returns (result: seq<Relationship>)
    ensures forall i, j | 0 <= i < j < |result| :: result[i].code != result[j].code
    ensures forall r :: r in result ==> r in main || r in parents || r in children
    ensures forall r :: r in main || r in parents || r in children ==> exists x <- result :: x.code == r.code
  {
    var boundaryMap := AddByCode(map[], main);
    boundaryMap := AddByCode(boundaryMap, parents);
    boundaryMap := AddByCode(boundaryMap, children);
    result := ValuesByCode(boundaryMap);
    forall r | r in main || r in parents || r in children ensures exists x <- result :: x.code == r.code {
      assert boundaryMap[r.code] in result && boundaryMap[r.code].code == r.code;
    }
  }

  method ValuesByCode(boundaryMap: map<string, Relationship>) returns (result: seq<Relationship>)
    requires forall k :: k in boundaryMap ==> boundaryMap[k].code == k
    ensures forall i, j | 0 <= i < j < |result| :: result[i].code != result[j].code
    ensures forall r <- result :: r.code in boundaryMap && r == boundaryMap[r.code]
    ensures forall k :: k in boundaryMap ==> boundaryMap[k] in result
  {
    result := [];
    var rest := boundaryMap.Keys;
    while rest != {}
      invariant rest <= boundaryMap.Keys
      invariant forall r <- result :: r.code in boundaryMap.Keys - rest && r == boundaryMap[r.code]
      invariant forall k :: k in boundaryMap.Keys - rest ==> boundaryMap[k] in result
      invariant forall i, j | 0 <= i < j < |result| :: result[i].code != result[j].code
      decreases |rest|
    {
      var key :| key in rest;
      result, rest := result + [boundaryMap[key]], rest - {key};
    }
  }

  // ---------------------------------------------------------------- what is gathered

  ghost function ParentRows(table: seq<Relationship>, boundaries: seq<Relationship>, c: Criteria): set<Relationship> {
    set r | r in table && c.includeParents && r.tenant == c.tenant && (c.hierarchy != "" ==> r.hierarchy == c.hierarchy)
      && AncestorOfSome(boundaries, r.code)
  }

  ghost function ChildRows(table: seq<Relationship>, boundaries: seq<Relationship>, c: Criteria): set<Relationship> {
    set r | r in table && c.includeChildren && r.tenant == c.tenant && (c.hierarchy != "" ==> r.hierarchy == c.hierarchy)
      && exists b <- boundaries :: b.code in Steps(r)
  }

  ghost function Gathered(table: seq<Relationship>, c: Criteria): set<Relationship> {
    var main := SearchWithMaterializedPath(table, c);
    Rows(main) + ParentRows(table, main, c) + ChildRows(table, main, c)
  }

  // ---------------------------------------------------------------- what each pass finds

  /** A row of the tenant that meets each field asked for; a search for roots ignores the codes. */
  predicate Meets(c: Criteria, r: Relationship) {
    && r.tenant == c.tenant
    && (|c.hierarchy| > 0 ==> c.hierarchy == r.hierarchy)
    && (|c.boundaryType| > 0 ==> c.boundaryType == r.boundaryType)
    && (|c.parent| > 0 ==> c.parent == r.parent)
    && (if c.isSearchForRootNode then r.parent == "" else |c.codes| > 0 ==> r.code in c.codes)
  }

  /** No flags, no paging, and no codes of a previous pass. */
  predicate PlainSearch(c: Criteria) {
    !c.includeChildren && !c.includeParents && c.limit <= 0 && c.offset <= 0 && c.currentBoundaryCodes == []
  }

  /** The same with flags: codes then ask for their descendants, else for the ancestors of their rows in the hierarchy. */
  predicate MeetsAt(table: seq<Relationship>, c: Criteria, p: nat) {
    && p < |table|
    && Meets(c.(codes := []), table[p])
    && (|c.currentBoundaryCodes| > 0 ==> exists x <- c.currentBoundaryCodes :: x in Split(table[p].path, '|'))
    && (|c.codes| > 0 && !c.isSearchForRootNode ==>
          if c.includeChildren then exists x <- c.codes :: x in Split(table[p].path, '|')
          else if c.includeParents then
            exists m <- table :: (&& m.tenant == c.tenant && m.hierarchy == c.hierarchy && m.code in c.codes
                                  && table[p].code in Split(m.path, '|'))
          else table[p].code in c.codes)
  }

  lemma MeetsAtIff(table: seq<Relationship>, c: Criteria, p: nat)
    requires p < |table|
    ensures Selected(table, c, table[p]) <==> MeetsAt(table, c, p)
  {
  }

  lemma {:induction false} FilterPlaces(table: seq<Relationship>, k: nat, c: Criteria) returns (at: seq<nat>)
    requires k <= |table|
    ensures Places(at, |table| - k, (p: nat) => MeetsAt(table, c, k + p))
    ensures (forall i | 0 <= i < |at| :: at[i] < |table| - k) && Filter(table, table[k..], c) == At(table[k..], at)
    decreases |table| - k
  {
    var rows := table[k..];
    if rows == [] {
      at := [];
    } else {
      hide Selected, MeetsAt;
      assert rows[0] == table[k] && rows[1..] == table[k + 1..];
      var rest := FilterPlaces(table, k + 1, c);
      MeetsAtIff(table, c, k);
      at := AtShifted(rows, rest, (p: nat) => MeetsAt(table, c, k + p), (p: nat) => MeetsAt(table, c, k + 1 + p));
    }
  }

  /** The first pass is a stretch of the rows met, in the table's order: from the offset on, up to the limit. */
  ghost predicate FirstPass(table: seq<Relationship>, c: Criteria, first: seq<Relationship>) {
    exists at :: Places(at, |table|, (p: nat) => MeetsAt(table, c, p)) && Stretch(At(table, at), first, c.limit, c.offset)
  }

  lemma FirstPassIs(table: seq<Relationship>, c: Criteria)
    ensures FirstPass(table, c, SearchWithMaterializedPath(table, c))
  {
    hide MeetsAt, Stretch, Page, Filter;
    var at := FilterPlaces(table, 0, c);
    assert table[0..] == table;
    assert Places(at, |table|, (p: nat) => MeetsAt(table, c, p));
    PageIs(At(table, at), c.limit, c.offset);
  }

  /** Besides the first pass, the rows on the paths of its rows, and the rows with its codes on their path. */
  lemma GatheredIs(table: seq<Relationship>, c: Criteria) returns (first: seq<Relationship>)
    ensures FirstPass(table, c, first)
    ensures forall r :: r in Gathered(table, c) <==>
              || r in first
              || (&& r in table && r.tenant == c.tenant && (|c.hierarchy| > 0 ==> r.hierarchy == c.hierarchy)
                  && (|| (c.includeParents && exists b <- first :: (&& b.path != "" && r.code in Split(b.path, '|')
                                                                    && r.code != "" && r.code != b.code))
                      || (c.includeChildren && exists b <- first :: b.code in Split(r.path, '|'))))
  {
    hide FirstPass, SearchWithMaterializedPath;
    first := SearchWithMaterializedPath(table, c);
    FirstPassIs(table, c);
  }

  lemma PlainGathered(table: seq<Relationship>, c: Criteria)
    requires PlainSearch(c)
    ensures forall r :: r in Gathered(table, c) <==> r in table && Meets(c, r)
  {
    FilterRows(table, table, c);
  }

  // ---------------------------------------------------------------- closure by parent pointers

  /** A search by codes within one hierarchy type, without other filters or paging. */
  predicate CodeSearch(c: Criteria) {
    && c.hierarchy != "" && c.boundaryType == "" && c.parent == "" && c.codes != []
    && c.limit <= 0 && c.offset <= 0 && c.currentBoundaryCodes == [] && !c.isSearchForRootNode
  }

  predicate InTree(c: Criteria, r: Relationship) {
    r.tenant == c.tenant && r.hierarchy == c.hierarchy
  }

  predicate Requested(table: seq<Relationship>, c: Criteria, m: Relationship) {
    m in table && InTree(c, m) && m.code in c.codes
  }

  /** What the flags ask for, by parent pointers only. */
  ghost predicate Wanted(table: seq<Relationship>, c: Criteria, r: Relationship) {
    r in table && InTree(c, r) && exists m :: Requested(table, c, m) && Reaches(table, c, m, r)
  }

  ghost predicate Reaches(table: seq<Relationship>, c: Criteria, m: Relationship, r: Relationship) {
    || m == r
    || (c.includeParents && AncestorOrSelf(table, r, m))
    || (c.includeChildren && AncestorOrSelf(table, m, r))
  }

  lemma RowOfStep(table: seq<Relationship>, code: string, r: Relationship) returns (a: Relationship)
    requires PathInv(table) && r in table && code in Steps(r)
    ensures a in table && a.code == code && SameTree(a, r) && AncestorOrSelf(table, a, r)
  {
    var walk := WalkTo(table, code, r);
    WalkStaysInTree(table, walk);
    a := walk[|walk| - 1];
  }

  lemma SelfAncestor(table: seq<Relationship>, r: Relationship)
    requires r in table
    ensures AncestorOrSelf(table, r, r)
  {
    assert Walk(table, [r]);
  }

  lemma MainRows(table: seq<Relationship>, c: Criteria, r: Relationship)
    requires PathInv(table) && CodeSearch(c)
    ensures r in SearchWithMaterializedPath(table, c) <==> r in table && InTree(c, r) && CodesSelect(table, c, r)
  {
    FilterRows(table, table, c);
  }

  /** Descendants of requested rows, when children are included. */
  lemma OverlapIsDescendants(table: seq<Relationship>, c: Criteria, r: Relationship)
    requires PathInv(table) && r in table && InTree(c, r)
    ensures Overlap(c.codes, r) <==> exists m :: Requested(table, c, m) && AncestorOrSelf(table, m, r)
  {
    if code :| code in c.codes && code in Steps(r) {
      var m := RowOfStep(table, code, r);
      assert Requested(table, c, m);
    }
    if m :| Requested(table, c, m) && AncestorOrSelf(table, m, r) {
      AncestorIffOnPath(table, m, r);
    }
  }

  /** Ancestors of requested rows, when only parents are included. */
  lemma SubqueryIsAncestors(table: seq<Relationship>, c: Criteria, r: Relationship)
    requires PathInv(table) && r in table && InTree(c, r)
    ensures InAncestorSubquery(table, c, r.code) <==> exists m :: Requested(table, c, m) && AncestorOrSelf(table, r, m)
  {
    if m :| m in table && m.code in c.codes && InTree(c, m) && r.code in Steps(m) {
      AncestorIffOnPath(table, r, m);
      assert Requested(table, c, m);
    }
    if m :| Requested(table, c, m) && AncestorOrSelf(table, r, m) {
      AncestorIffOnPath(table, r, m);
    }
  }

  lemma WantedIsGathered(table: seq<Relationship>, c: Criteria, r: Relationship)
    requires PathInv(table) && CodeSearch(c) && Wanted(table, c, r)
    ensures r in Gathered(table, c)
  {
    var main := SearchWithMaterializedPath(table, c);
    var m :| Requested(table, c, m) && Reaches(table, c, m, r);
    MainRows(table, c, r);
    MainRows(table, c, m);
    SelfAncestor(table, m);
    OverlapIsDescendants(table, c, r);
    OverlapIsDescendants(table, c, m);
    SubqueryIsAncestors(table, c, r);
    SubqueryIsAncestors(table, c, m);
    assert m in main;
    if r !in main {
      AncestorIffOnPath(table, r, m);
      OwnCode(table, m);
      assert CleanCode(r.code);
      assert AncestorCode(m, r.code);
    }
  }

  /** An ancestor of a descendant is itself a descendant or an ancestor. */
  lemma {:induction false} AncestorsAreLinear(table: seq<Relationship>, a: Relationship, m: Relationship,
                                              d: Relationship)
    requires PathInv(table) && AncestorOrSelf(table, a, d) && AncestorOrSelf(table, m, d)
    ensures AncestorOrSelf(table, a, m) || AncestorOrSelf(table, m, a)
    decreases |d.path|
  {
    if a != d && m != d {
      var p := StepUp(table, a, d);
      var q := StepUp(table, m, d);
      SameRow(table, p, q);
      var r := ParentOf(table, d);
      SameRow(table, p, r);
      AncestorsAreLinear(table, a, m, p);
    }
  }

  lemma StepUp(table: seq<Relationship>, a: Relationship, d: Relationship) returns (p: Relationship)
    requires AncestorOrSelf(table, a, d) && a != d
    ensures d in table && p in table && IsParent(p, d) && AncestorOrSelf(table, a, p)
  {
    var walk :| Walk(table, walk) && walk[0] == d && walk[|walk| - 1] == a;
    WalkTail(table, walk);
    p := walk[1];
    assert IsParent(walk[0 + 1], walk[0]);
    assert walk[1..][0] == p && walk[1..][|walk[1..]| - 1] == a;
  }

  lemma AncestorTransitive(table: seq<Relationship>, a: Relationship, b: Relationship, d: Relationship)
    requires AncestorOrSelf(table, a, b) && AncestorOrSelf(table, b, d)
    ensures AncestorOrSelf(table, a, d)
  {
    var upper :| Walk(table, upper) && upper[0] == b && upper[|upper| - 1] == a;
    var lower :| Walk(table, lower) && lower[0] == d && lower[|lower| - 1] == b;
    var walk := lower + upper[1..];
    forall i | 0 <= i < |walk| - 1 ensures IsParent(walk[i + 1], walk[i]) {
      if i < |lower| - 1 {
        assert IsParent(lower[i + 1], lower[i]);
      } else {
        var k := i - (|lower| - 1);
        assert IsParent(upper[k + 1], upper[k]);
      }
    }
    assert Walk(table, walk);
  }

  /** The first pass already stays within what the flags ask for. */
  lemma MainIsWanted(table: seq<Relationship>, c: Criteria, b: Relationship) returns (m: Relationship)
    requires PathInv(table) && CodeSearch(c) && b in SearchWithMaterializedPath(table, c)
    ensures b in table && InTree(c, b) && Requested(table, c, m)
    ensures if c.includeChildren then AncestorOrSelf(table, m, b)
            else if c.includeParents then AncestorOrSelf(table, b, m) else m == b
    ensures Wanted(table, c, b)
  {
    MainRows(table, c, b);
    OverlapIsDescendants(table, c, b);
    SubqueryIsAncestors(table, c, b);
    if c.includeChildren {
      m :| Requested(table, c, m) && AncestorOrSelf(table, m, b);
    } else if c.includeParents {
      m :| Requested(table, c, m) && AncestorOrSelf(table, b, m);
    } else {
      m := b;
    }
    assert Reaches(table, c, m, b);
  }

  lemma GatheredIsWanted(table: seq<Relationship>, c: Criteria, r: Relationship)
    requires PathInv(table) && CodeSearch(c) && r in Gathered(table, c)
    ensures Wanted(table, c, r)
  {
    var main := SearchWithMaterializedPath(table, c);
    if r in main {
      var m := MainIsWanted(table, c, r);
    } else if r in ParentRows(table, main, c) {
      var b :| b in main && AncestorCode(b, r.code);
      var m := MainIsWanted(table, c, b);
      AncestorIffOnPath(table, r, b);
      if c.includeChildren {
        AncestorsAreLinear(table, r, m, b);
      } else {
        AncestorTransitive(table, r, b, m);
      }
      assert Reaches(table, c, m, r);
    } else {
      var b :| b in main && b.code in Steps(r);
      var m := MainIsWanted(table, c, b);
      AncestorIffOnPath(table, b, r);
      if c.includeChildren && b != m { AncestorTransitive(table, m, b, r); }
      assert Reaches(table, c, m, r);
    }
  }

  /** The rows gathered from paths are exactly the closure by parent pointers. */
  lemma SearchIsClosure(table: seq<Relationship>, c: Criteria)
    requires PathInv(table) && CodeSearch(c)
    ensures forall r :: r in Gathered(table, c) <==> Wanted(table, c, r)
  {
    forall r ensures r in Gathered(table, c) <==> Wanted(table, c, r) {
      if r in Gathered(table, c) { GatheredIsWanted(table, c, r); }
      if Wanted(table, c, r) { WantedIsGathered(table, c, r); }
    }
  }

  /** One row per code is all of them: within a tree a code names one row. */
  lemma EveryWantedRowFound(table: seq<Relationship>, c: Criteria, result: seq<Relationship>)
    requires PathInv(table) && CodeSearch(c)
    requires forall r :: r in result ==> r in Gathered(table, c)
    requires forall r :: r in Gathered(table, c) ==> exists x <- result :: x.code == r.code
    ensures forall r :: r in result <==> Wanted(table, c, r)
  {
    hide Gathered, Wanted, PathInv, CodeSearch;
    SearchIsClosure(table, c);
    assert forall x <- result :: Wanted(table, c, x);
    forall r | Wanted(table, c, r) ensures r in result {
      assert r in Gathered(table, c);
      WantedRowFound(table, c, result, r);
    }
  }

  lemma WantedRowFound(table: seq<Relationship>, c: Criteria, result: seq<Relationship>, r: Relationship)
    requires PathInv(table) && Wanted(table, c, r) && (forall x <- result :: Wanted(table, c, x))
    requires exists x <- result :: x.code == r.code
    ensures r in result
  {
    hide AncestorOrSelf;
    var x :| x in result && x.code == r.code;
    SameRow(table, x, r);
  }
}
