/** Boundary rows behind a cache invalidated by key pattern. */
module BoundaryCache {
  import opened Prelude
  import opened GoStrings
  import opened Glob
  import opened MemoryCache
  import opened Sql

  datatype Boundary = Boundary(id: nat, tenant: string, code: string, geometry: string, details: string)

  /** A row to create; the geometry check itself is an input. */
  datatype Draft = Draft(code: string, geometry: string, geometryValid: bool, details: string)

  /** A row to update; struct updates skip the fields left empty. */
  datatype Change = Change(id: nat, code: string, geometry: string, details: string)

  datatype BoundaryError = MissingField | InvalidGeometry | DuplicateCode | EmptyInsert | NotFound | ConstraintViolation

  datatype Store = Store(table: seq<Boundary>, nextId: nat, cache: map<string, seq<Boundary>>)

  function SearchPrefix(tenant: string): string { tenant + ":boundary:search:" }

  function SearchKey(tenant: string, codes: seq<string>): string {
    SearchPrefix(tenant) + Join(codes, ",")
  }

  function CodePattern(tenant: string, code: string): string {
    SearchPrefix(tenant) + "*" + code + "*"
  }

  // ---------------------------------------------------------------- the table

  predicate Asked(b: Boundary, tenant: string, codes: seq<string>) {
    b.tenant == tenant && (codes == [] || b.code in codes)
  }

  /** The unpaged query, rows in scan order. */
  function Answer(table: seq<Boundary>, tenant: string, codes: seq<string>): seq<Boundary> {
    if table == [] then []
    else (if Asked(table[0], tenant, codes) then [table[0]] else []) + Answer(table[1..], tenant, codes)
  }

  predicate CodeTaken(table: seq<Boundary>, tenant: string, code: string) {
    exists b <- table :: b.tenant == tenant && b.code == code
  }

  /** The table's unique constraint on (code, tenant). */
  predicate UniqueCodes(table: seq<Boundary>) {
    forall i, j | 0 <= i < j < |table| :: table[i].tenant != table[j].tenant || table[i].code != table[j].code
  }

  // ---------------------------------------------------------------- what the operations do

  function Invalidated(cache: map<string, seq<Boundary>>, tenant: string, codes: seq<string>)
    : map<string, seq<Boundary>>
  {
    map k | k in cache && forall c <- codes :: !Accepts(k, CodePattern(tenant, c)) :: cache[k]
  }

  function DraftError(table: seq<Boundary>, tenant: string, d: Draft): Option<BoundaryError> {
    if tenant == "" || d.code == "" then Some(MissingField)
    else if !d.geometryValid then Some(InvalidGeometry)
    else if CodeTaken(table, tenant, d.code) then Some(DuplicateCode)
    else None
  }

  function FirstDraftError(table: seq<Boundary>, tenant: string, drafts: seq<Draft>): Option<BoundaryError> {
    if drafts == [] then None
    else if DraftError(table, tenant, drafts[0]).Some? then DraftError(table, tenant, drafts[0])
    else FirstDraftError(table, tenant, drafts[1..])
  }

  function NewRows(tenant: string, drafts: seq<Draft>, nextId: nat): seq<Boundary> {
    seq(|drafts|, i requires 0 <= i < |drafts| =>
      Boundary(nextId + i, tenant, drafts[i].code, drafts[i].geometry, drafts[i].details))
  }

  function DraftCodes(drafts: seq<Draft>): seq<string> {
    seq(|drafts|, i requires 0 <= i < |drafts| => drafts[i].code)
  }

  /** Nothing is written unless everything is; an insert without rows is an error of the database layer. */
  function Created(s: Store, tenant: string, drafts: seq<Draft>): (Store, Option<BoundaryError>) {
    var error := FirstDraftError(s.table, tenant, drafts);
    var table := s.table + NewRows(tenant, drafts, s.nextId);
    if error.Some? then (s, error)
    else if drafts == [] then (s, Some(EmptyInsert))
    else if !UniqueCodes(table) then (s, Some(ConstraintViolation))
    else (Store(table, s.nextId + |drafts|, Invalidated(s.cache, tenant, DraftCodes(drafts))), None)
  }

  function Merged(b: Boundary, c: Change): Boundary {
    Boundary(b.id, b.tenant,
             if c.code == "" then b.code else c.code,
             if c.geometry == "" then b.geometry else c.geometry,
             if c.details == "" then b.details else c.details)
  }

  predicate Targets(c: Change, tenant: string, b: Boundary) {
    b.id == c.id && b.tenant == tenant
  }

  function ApplyChange(table: seq<Boundary>, tenant: string, c: Change): seq<Boundary> {
    seq(|table|, i requires 0 <= i < |table| =>
      if Targets(c, tenant, table[i]) then Merged(table[i], c) else table[i])
  }

  /** Row by row, without an enclosing transaction: a constraint violation keeps what came before. */
  function ApplyChanges(table: seq<Boundary>, tenant: string, changes: seq<Change>): (seq<Boundary>, bool)
    decreases |changes|
  {
    if changes == [] then (table, true)
    else
      var next := ApplyChange(table, tenant, changes[0]);
      if !UniqueCodes(next) then (table, false) else ApplyChanges(next, tenant, changes[1..])
  }

  predicate Present(table: seq<Boundary>, tenant: string, c: Change) {
    exists b <- table :: Targets(c, tenant, b)
  }

  function ChangeCodes(changes: seq<Change>): seq<string> {
    seq(|changes|, i requires 0 <= i < |changes| => changes[i].code)
  }

  function Updated(s: Store, tenant: string, changes: seq<Change>): (Store, Option<BoundaryError>) {
    if exists c <- changes :: !Present(s.table, tenant, c) then (s, Some(NotFound))
    else
      var (table, ok) := ApplyChanges(s.table, tenant, changes);
      if !ok then (s.(table := table), Some(ConstraintViolation))
      else (s.(table := table, cache := Invalidated(s.cache, tenant, ChangeCodes(changes))), None)
  }

  function Found(s: Store, tenant: string, codes: seq<string>, limit: int, offset: int): (Store, seq<Boundary>) {
    var key := SearchKey(tenant, codes);
    if key in s.cache then (s, s.cache[key])
    else
      var rows := Page(Answer(s.table, tenant, codes), limit, offset);
      (s.(cache := s.cache[key := rows]), rows)
  }

  // ---------------------------------------------------------------- the service

  class BoundaryService {
    var table: seq<Boundary>
    var nextId: nat
    const cache: InMemoryCache<seq<Boundary>>

    constructor (cache: InMemoryCache<seq<Boundary>>)
      ensures this.cache == cache && table == [] && nextId == 0
    {
      this.cache := cache;
      table, nextId := [], 0;
    }

    ghost function State(): Store
      reads this, cache
    {
      Store(table, nextId, cache.data)
    }

    method Create(tenant: string, drafts: seq<Draft>) returns (error: Option<BoundaryError>)
      modifies this, cache
      ensures (State(), error) == Created(old(State()), tenant, drafts)
    {
      var createdCodes: seq<string> := [];
      for i := 0 to |drafts|
        invariant FirstDraftError(table, tenant, drafts) == FirstDraftError(table, tenant, drafts[i..])
        invariant unchanged(this) && unchanged(cache)
      {
        var e := DraftError(table, tenant, drafts[i]);
        assert drafts[i..][0] == drafts[i] && drafts[i..][1..] == drafts[i + 1..];
        if e.Some? { return e; }
      }
      for i := 0 to |drafts|
        invariant createdCodes == DraftCodes(drafts)[..i]
        invariant unchanged(this) && unchanged(cache)
      {
        createdCodes := createdCodes + [drafts[i].code];
      }
      if |drafts| == 0 { return Some(EmptyInsert); }
      var inserted := table + NewRows(tenant, drafts, nextId);
      if !UniqueCodes(inserted) { return Some(ConstraintViolation); }
      assert DraftCodes(drafts)[..|drafts|] == DraftCodes(drafts);
      table, nextId := inserted, nextId + |drafts|;
      InvalidateSearchCaches(tenant, createdCodes);
      return None;
    }

    method Update(tenant: string, changes: seq<Change>) returns (error: Option<BoundaryError>)
      modifies this, cache
      ensures (State(), error) == Updated(old(State()), tenant, changes)
    {
      var updatedCodes: seq<string> := [];
      for i := 0 to |changes|
        invariant forall c <- changes[..i] :: Present(table, tenant, c)
        invariant updatedCodes == ChangeCodes(changes)[..i]
        invariant unchanged(this) && unchanged(cache)
      {
        if !Present(table, tenant, changes[i]) {
          assert changes[i] in changes;
          return Some(NotFound);
        }
        updatedCodes := updatedCodes + [changes[i].code];
      }
      assert changes[..|changes|] == changes;
      for i := 0 to |changes|
        invariant ApplyChanges(old(table), tenant, changes) == ApplyChanges(table, tenant, changes[i..])
        invariant nextId == old(nextId) && unchanged(cache)
      {
        var next := ApplyChange(table, tenant, changes[i]);
        assert changes[i..][0] == changes[i] && changes[i..][1..] == changes[i + 1..];
        if !UniqueCodes(next) { return Some(ConstraintViolation); }
        table := next;
      }
      assert ChangeCodes(changes)[..|changes|] == ChangeCodes(changes);
      InvalidateSearchCaches(tenant, updatedCodes);
      return None;
    }

    method Search(tenant: string, codes: seq<string>, limit: int, offset: int) returns (rows: seq<Boundary>)
      modifies cache
      ensures (State(), rows) == Found(old(State()), tenant, codes, limit, offset)
    {
      var key := SearchKey(tenant, codes);
      var cached := cache.Get(key);
      if cached.Some? { return cached.value; }
      rows := Page(Answer(table, tenant, codes), limit, offset);
      cache.Set(key, rows);
    }

    /** The pattern branch, taken because the cache supports pattern deletion. */
    method InvalidateSearchCaches(tenant: string, codes: seq<string>)
      modifies cache
      ensures cache.data == Invalidated(old(cache.data), tenant, codes)
    {
      for i := 0 to |codes|
        invariant cache.data == Invalidated(old(cache.data), tenant, codes[..i])
      {
        cache.DeletePattern(CodePattern(tenant, codes[i]));
        assert forall c :: c in codes[..i + 1] <==> c in codes[..i] || c == codes[i];
      }
      assert codes[..|codes|] == codes;
    }
  }

  // ---------------------------------------------------------------- coherence

  /** Queries whose keys can be read back: colon-free tenant, non-empty comma-free codes. */
  predicate ReadableQuery(tenant: string, codes: seq<string>) {
    ':' !in tenant && codes != [] && forall c <- codes :: c != "" && ',' !in c
  }

  lemma SearchKeyInjective(t1: string, l1: seq<string>, t2: string, l2: seq<string>)
    requires ReadableQuery(t1, l1) && ReadableQuery(t2, l2) && SearchKey(t1, l1) == SearchKey(t2, l2)
    ensures t1 == t2 && l1 == l2
  {
    var rest1, rest2 := "boundary:search:" + Join(l1, ","), "boundary:search:" + Join(l2, ",");
    KeyParts(t1, l1);
    KeyParts(t2, l2);
    SplitConcat(t1, ':', rest1);
    SplitConcat(t2, ':', rest2);
    assert Split(SearchKey(t1, l1), ':')[0] == t1 && Split(SearchKey(t2, l2), ':')[0] == t2;
    var n := |SearchPrefix(t1)|;
    assert SearchKey(t1, l1)[n..] == Join(l1, ",") && SearchKey(t2, l2)[n..] == Join(l2, ",");
    JoinInjective(l1, l2, ',');
  }

  lemma KeyParts(tenant: string, codes: seq<string>)
    ensures SearchKey(tenant, codes) == tenant + ":" + ("boundary:search:" + Join(codes, ","))
  {
    assert ":boundary:search:" == ":" + "boundary:search:";
    ConcatAssoc(tenant, ":", "boundary:search:");
    ConcatAssoc(tenant + ":", "boundary:search:", Join(codes, ","));
  }

  /** Every readable cached entry holds exactly the rows the table would answer with. */
  ghost predicate Coherent(s: Store) {
    forall tenant, codes ::
      ReadableQuery(tenant, codes) && SearchKey(tenant, codes) in s.cache ==>
        Rows(s.cache[SearchKey(tenant, codes)]) == Rows(Answer(s.table, tenant, codes))
  }

  /** One of the codes' patterns accepts the key of the query. */
  predicate DropsQuery(tenant: string, codes: seq<string>, query: seq<string>) {
    exists c <- codes :: Accepts(SearchKey(tenant, query), CodePattern(tenant, c))
  }

  /** A query asking for one of the codes is dropped; an empty code drops every query of the tenant. */
  lemma AskedCodeDropped(tenant: string, codes: seq<string>, query: seq<string>, code: string)
    requires code in codes && (code in query || code == "")
    ensures DropsQuery(tenant, codes, query)
  {
    var rest := Join(query, ",");
    if code == "" {
      assert OccursAt(rest, "", 0);
    } else {
      var k :| 0 <= k < |query| && query[k] == code;
      JoinContainsPart(query, k, ",");
    }
    MatchesContaining(SearchPrefix(tenant), code, rest);
    AcceptsEveryMatch(CodePattern(tenant, code), SearchKey(tenant, query));
  }

  /** An entry asking for an invalidated code is gone. */
  lemma AskedCodeInvalidated(cache: map<string, seq<Boundary>>, tenant: string, codes: seq<string>,
                             query: seq<string>, code: string)
    requires code in codes && (code in query || code == "")
    ensures SearchKey(tenant, query) !in Invalidated(cache, tenant, codes)
  {
    AskedCodeDropped(tenant, codes, query, code);
  }

  lemma {:induction false} AnswerConcat(a: seq<Boundary>, b: seq<Boundary>, tenant: string, codes: seq<string>)
    ensures Answer(a + b, tenant, codes) == Answer(a, tenant, codes) + Answer(b, tenant, codes)
  {
    if a == [] {
      assert a + b == b;
    } else {
      AnswerConcat(a[1..], b, tenant, codes);
      assert (a + b)[1..] == a[1..] + b;
      var head := if Asked(a[0], tenant, codes) then [a[0]] else [];
      ConcatAssoc(head, Answer(a[1..], tenant, codes), Answer(b, tenant, codes));
    }
  }

  lemma {:induction false} AnswerRows(table: seq<Boundary>, tenant: string, codes: seq<string>)
    ensures Rows(Answer(table, tenant, codes)) == set b | b in table && Asked(b, tenant, codes)
  {
    if table != [] {
      AnswerRows(table[1..], tenant, codes);
      var head := if Asked(table[0], tenant, codes) then [table[0]] else [];
      assert Rows(head + Answer(table[1..], tenant, codes)) == Rows(head) + Rows(Answer(table[1..], tenant, codes));
      assert forall b :: b in table <==> b == table[0] || b in table[1..];
      assert Rows(head) == set b | b == table[0] && Asked(b, tenant, codes);
    }
  }

  lemma CreateKeepsCoherent(s: Store, tenant: string, drafts: seq<Draft>)
    requires Coherent(s)
    ensures Coherent(Created(s, tenant, drafts).0)
  {
    var (s', error) := Created(s, tenant, drafts);
    if error.None? {
      var added := NewRows(tenant, drafts, s.nextId);
      forall t, codes | ReadableQuery(t, codes) && SearchKey(t, codes) in s'.cache
        ensures Rows(s'.cache[SearchKey(t, codes)]) == Rows(Answer(s'.table, t, codes))
      {
        AnswerRows(s.table, t, codes);
        AnswerRows(s'.table, t, codes);
        forall b | b in added && Asked(b, t, codes) ensures false {
          assert b.code in DraftCodes(drafts) by {
            var i :| 0 <= i < |added| && added[i] == b;
            assert DraftCodes(drafts)[i] == b.code;
          }
          AskedCodeInvalidated(s.cache, tenant, DraftCodes(drafts), codes, b.code);
        }
      }
    }
  }

  /** Each change leaves its row's code alone, by repeating it or by leaving it empty. */
  ghost predicate CodePreserving(table: seq<Boundary>, tenant: string, changes: seq<Change>) {
    forall b <- table, c <- changes :: Targets(c, tenant, b) ==> c.code == "" || c.code == b.code
  }

  /** Rows only change where a change targets them, and then only in their payload. */
  lemma {:induction false} ChangesTouchTargets(table: seq<Boundary>, tenant: string, changes: seq<Change>)
    requires UniqueCodes(table) && CodePreserving(table, tenant, changes)
    ensures var (table', ok) := ApplyChanges(table, tenant, changes);
      && ok && |table'| == |table|
      && forall i | 0 <= i < |table| ::
           && table'[i].id == table[i].id && table'[i].tenant == table[i].tenant && table'[i].code == table[i].code
           && ((forall c <- changes :: !Targets(c, tenant, table[i])) ==> table'[i] == table[i])
    decreases |changes|
  {
    if changes != [] {
      var next := ApplyChange(table, tenant, changes[0]);
      forall i | 0 <= i < |table|
        ensures next[i].id == table[i].id && next[i].tenant == table[i].tenant && next[i].code == table[i].code
      {
        assert table[i] in table && changes[0] in changes;
      }
      assert CodePreserving(next, tenant, changes[1..]) by {
        forall b, c | b in next && c in changes[1..] && Targets(c, tenant, b)
          ensures c.code == "" || c.code == b.code
        {
          var i :| 0 <= i < |next| && next[i] == b;
          assert Targets(c, tenant, table[i]) && table[i] in table;
        }
      }
      ChangesTouchTargets(next, tenant, changes[1..]);
      forall i | 0 <= i < |table| && forall c <- changes :: !Targets(c, tenant, table[i])
        ensures ApplyChanges(table, tenant, changes).0[i] == table[i]
      {
        assert next[i] == table[i];
      }
    }
  }

  lemma UpdateKeepsCoherent(s: Store, tenant: string, changes: seq<Change>)
    requires Coherent(s) && UniqueCodes(s.table) && CodePreserving(s.table, tenant, changes)
    ensures Coherent(Updated(s, tenant, changes).0) && UniqueCodes(Updated(s, tenant, changes).0.table)
  {
    var (s', error) := Updated(s, tenant, changes);
    ChangesTouchTargets(s.table, tenant, changes);
    if error.None? {
      forall t, codes | ReadableQuery(t, codes) && SearchKey(t, codes) in s'.cache
        ensures Rows(s'.cache[SearchKey(t, codes)]) == Rows(Answer(s'.table, t, codes))
      {
        forall i | 0 <= i < |s.table| && Asked(s.table[i], t, codes) ensures s'.table[i] == s.table[i] {
          forall c | c in changes ensures !Targets(c, tenant, s.table[i]) {
            if Targets(c, tenant, s.table[i]) {
              assert s.table[i] in s.table;
              assert c.code in ChangeCodes(changes) by {
                var n :| 0 <= n < |changes| && changes[n] == c;
                assert ChangeCodes(changes)[n] == c.code;
              }
              AskedCodeInvalidated(s.cache, tenant, ChangeCodes(changes), codes, c.code);
            }
          }
        }
        SameAnswer(s.table, s'.table, t, codes);
      }
    }
  }

  lemma {:induction false} SameAnswer(a: seq<Boundary>, b: seq<Boundary>, tenant: string, codes: seq<string>)
    requires |a| == |b|
    requires forall i | 0 <= i < |a| :: a[i].tenant == b[i].tenant && a[i].code == b[i].code
    requires forall i | 0 <= i < |a| && Asked(a[i], tenant, codes) :: b[i] == a[i]
    ensures Answer(a, tenant, codes) == Answer(b, tenant, codes)
  {
    if a != [] {
      SameAnswer(a[1..], b[1..], tenant, codes);
    }
  }

  /** The page asked for is the whole answer. */
  predicate WholePage(size: nat, limit: int, offset: int) {
    size == 0 || (offset <= 0 && (limit <= 0 || size <= limit))
  }

  lemma {:induction false} AnswerUnique(table: seq<Boundary>, tenant: string, codes: seq<string>)
    requires UniqueCodes(table)
    ensures UniqueCodes(Answer(table, tenant, codes))
  {
    if table != [] {
      AnswerUnique(table[1..], tenant, codes);
      AnswerRows(table[1..], tenant, codes);
      var rest := Answer(table[1..], tenant, codes);
      forall b | b in rest ensures b.tenant != table[0].tenant || b.code != table[0].code {
        assert b in Rows(rest);
      }
    }
  }

  /** Rows with different codes are lost by every page but the whole. */
  lemma PageLoses(rows: seq<Boundary>, limit: int, offset: int)
    requires UniqueCodes(rows)
    ensures Rows(Page(rows, limit, offset)) == Rows(rows) <==> WholePage(|rows|, limit, offset)
  {
    var page := Page(rows, limit, offset);
    if rows != [] && offset > 0 {
      assert rows[0] in Rows(rows);
      assert forall i | 0 <= i < |page| :: page[i] == rows[offset + i];
      assert rows[0] !in page;
    } else if 0 < limit < |rows| {
      assert rows[limit] in Rows(rows);
      assert forall i | 0 <= i < |page| :: page[i] == rows[i];
      assert rows[limit] !in page;
    }
  }

  /**
   * The key leaves limit and offset out: a search keeps the cache right, and returns the rows the table has for the
   * codes, exactly when it is answered from the cache or the page it stores is the whole answer.
   */
  lemma SearchKeepsCoherentIff(s: Store, tenant: string, codes: seq<string>, limit: int, offset: int)
    requires Coherent(s) && UniqueCodes(s.table) && ReadableQuery(tenant, codes)
    ensures Coherent(Found(s, tenant, codes, limit, offset).0)
       <==> SearchKey(tenant, codes) in s.cache || WholePage(|Answer(s.table, tenant, codes)|, limit, offset)
    ensures Rows(Found(s, tenant, codes, limit, offset).1) == Rows(Answer(s.table, tenant, codes))
       <==> SearchKey(tenant, codes) in s.cache || WholePage(|Answer(s.table, tenant, codes)|, limit, offset)
  {
    var s' := Found(s, tenant, codes, limit, offset).0;
    var key := SearchKey(tenant, codes);
    AnswerUnique(s.table, tenant, codes);
    PageLoses(Answer(s.table, tenant, codes), limit, offset);
    if key !in s.cache {
      forall t, l | ReadableQuery(t, l) && SearchKey(t, l) in s'.cache && (t != tenant || l != codes)
        ensures Rows(s'.cache[SearchKey(t, l)]) == Rows(Answer(s'.table, t, l))
      {
        if SearchKey(t, l) == key { SearchKeyInjective(t, l, tenant, codes); }
      }
    }
  }
}
