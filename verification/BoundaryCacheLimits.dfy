/** Where pattern invalidation stops being enough, stated exactly. */
module BoundaryCacheLimits {
  import opened Prelude
  import opened GoStrings
  import opened Glob
  import opened Sql
  import opened BoundaryCache
  import opened BoundaryBatches

  predicate Refused(s: Store, tenant: string, drafts: seq<Draft>) {
    || drafts == []
    || FirstDraftError(s.table, tenant, drafts).Some?
    || !UniqueCodes(s.table + NewRows(tenant, drafts, s.nextId))
  }

  /**
   * A cached "all boundaries of the tenant" search (no codes) is still right after a creation exactly when nothing
   * was created, or some code's pattern accepts the bare key.
   */
  lemma EmptyQueryFreshIff(s: Store, tenant: string, drafts: seq<Draft>)
    requires SearchKey(tenant, []) in s.cache
    requires Rows(s.cache[SearchKey(tenant, [])]) == Rows(Answer(s.table, tenant, []))
    ensures var (s', key) := (Created(s, tenant, drafts).0, SearchKey(tenant, []));
      (key in s'.cache ==> Rows(s'.cache[key]) == Rows(Answer(s'.table, tenant, [])))
        <==> Refused(s, tenant, drafts)
             || exists d <- drafts :: Accepts(SearchPrefix(tenant), CodePattern(tenant, d.code))
  {
    var s' := Created(s, tenant, drafts).0;
    assert SearchKey(tenant, []) == SearchPrefix(tenant) + "" == SearchPrefix(tenant);
    if !Refused(s, tenant, drafts) {
      BareKeyKept(s.cache, tenant, drafts);
      var row := NewRows(tenant, drafts, s.nextId)[0];
      AnswerRows(s.table, tenant, []);
      AnswerRows(s'.table, tenant, []);
      assert row in s'.table && Asked(row, tenant, []);
      assert row !in s.table;
      assert row in Rows(Answer(s'.table, tenant, [])) && row !in Rows(Answer(s.table, tenant, []));
    }
  }

  lemma BareKeyKept(cache: map<string, seq<Boundary>>, tenant: string, drafts: seq<Draft>)
    requires SearchKey(tenant, []) in cache && SearchKey(tenant, []) == SearchPrefix(tenant)
    ensures SearchKey(tenant, []) in Invalidated(cache, tenant, DraftCodes(drafts))
       <==> forall d <- drafts :: !Accepts(SearchPrefix(tenant), CodePattern(tenant, d.code))
  {
    forall d | d in drafts ensures d.code in DraftCodes(drafts) {
      var i :| 0 <= i < |drafts| && drafts[i] == d;
      assert DraftCodes(drafts)[i] == d.code;
    }
  }

  /** Without stars: exactly when the code happens to occur in the fixed part of the key. */
  lemma BareKeyAccepts(tenant: string, code: string)
    requires '*' !in tenant && '*' !in code && code != ""
    ensures Accepts(SearchPrefix(tenant), CodePattern(tenant, code)) <==> Contains(SearchPrefix(tenant), code)
  {
    WordPatternAccepts(SearchPrefix(tenant), code, SearchPrefix(tenant));
    assert SearchPrefix(tenant)[..|SearchPrefix(tenant)|] == SearchPrefix(tenant);
  }

  /** The first boundary of a tenant whose empty list was cached goes unseen. */
  lemma EmptyQueryStale()
    ensures var s, d := Store([], 0, map[SearchKey("t", []) := []]), Draft("A", "", true, "");
            var s' := Created(s, "t", [d]).0;
            && Rows(Answer(s.table, "t", [])) == {} && |s'.table| == 1 && Asked(s'.table[0], "t", [])
            && Found(s', "t", [], 0, 0).1 == []
  {
    hide Accepts, SearchPrefix;
    var s, d := Store([], 0, map[SearchKey("t", []) := []]), Draft("A", "", true, "");
    assert SearchKey("t", []) == SearchPrefix("t") + "" == SearchPrefix("t");
    FirstCreation(s, d);
    NotInPrefix();
    BareKeyAccepts("t", "A");
    BareKeyKept(s.cache, "t", [d]);
  }

  lemma FirstCreation(s: Store, d: Draft)
    requires s.table == [] && d == Draft("A", "", true, "")
    ensures Created(s, "t", [d]).0
         == Store(NewRows("t", [d], s.nextId), s.nextId + 1, Invalidated(s.cache, "t", DraftCodes([d])))
  {
    assert FirstDraftError(s.table, "t", [d][1..]) == None;
    assert s.table + NewRows("t", [d], s.nextId) == NewRows("t", [d], s.nextId);
  }

  lemma NotInPrefix()
    ensures !Contains(SearchPrefix("t"), "A")
  {
    var p := SearchPrefix("t");
    assert 'A' !in p;
    forall i: nat | i <= |p| ensures !OccursAt(p, "A", i) {
      if i < |p| { assert p[i..i + 1][0] == p[i]; }
    }
  }

  // ---------------------------------------------------------------- codes that change

  /** A row whose code is about to change to a free, well-formed one. */
  ghost predicate CodeChange(table: seq<Boundary>, b: Boundary, code: string) {
    && UniqueCodes(table) && UniqueIds(table) && b in table
    && Visible(b) && ReadableQuery(b.tenant, [code])
    && '*' !in b.tenant && '*' !in code && code != b.code && !CodeTaken(table, b.tenant, code)
  }

  function Request(b: Boundary, code: string): Change { Change(b.id, code, "", "") }

  /**
   * Changing one row's code keeps every coherent cache coherent exactly when the new code is part of the old one, or of
   * the fixed part of every key.
   */
  lemma CodeChangeSafeIff(table: seq<Boundary>, nextId: nat, b: Boundary, code: string)
    requires CodeChange(table, b, code)
    ensures (forall cache :: Coherent(Store(table, nextId, cache)) ==>
               Coherent(Updated(Store(table, nextId, cache), b.tenant, [Request(b, code)]).0))
       <==> Contains(b.code, code) || Contains(SearchPrefix(b.tenant), code)
  {
    hide Coherent, Contains;
    var changes := [Request(b, code)];
    assert Targets(changes[0], b.tenant, b) && ChangeCodes(changes) == [code] && code in [code];
    assert changes[..0] == [];
    assert !Clashes(table, b.tenant, changes, 0);
    PlainBatchSafeIff(table, nextId, b.tenant, changes);
    assert RowAfter(b, b.tenant, changes).code == code;
    forall r | r in table && r != b ensures RowAfter(r, b.tenant, changes) == r {
      var i :| 0 <= i < |table| && table[i] == r;
      var j :| 0 <= j < |table| && table[j] == b;
    }
  }

  /** Two rows recoded to one code: the first change stays, the second fails, and the first row's old answer is kept. */
  lemma HalfBatchStale()
    ensures var a, b := Boundary(0, "t", "A", "", ""), Boundary(1, "t", "B", "", "");
            var s := Store([a, b], 2, map[SearchKey("t", ["A"]) := Answer([a, b], "t", ["A"])]);
            var (after, error) := Updated(s, "t", [Change(0, "C", "", ""), Change(1, "C", "", "")]);
            && Coherent(s) && error == Some(ConstraintViolation) && !Coherent(after)
            && after.table == [a.(code := "C"), b]
  {
    hide Coherent, TableAfter, RowAfter, Answer;
    var a, b := Boundary(0, "t", "A", "", ""), Boundary(1, "t", "B", "", "");
    var table, changes := [a, b], [Change(0, "C", "", ""), Change(1, "C", "", "")];
    var cache := map[SearchKey("t", ["A"]) := Answer(table, "t", ["A"])];
    HalfApplied(a, b);
    HalfTable(a, b);
    assert Targets(changes[0], "t", a) && Targets(changes[1], "t", b) && a in table && b in table;
    assert "A" in ["A"] && !DropsQuery("t", [], ["A"]);
    OneAnswerStale(table, 2, "t", [changes[0]], [], ["A"]);
    assert Invalidated(cache, "t", []) == cache;
  }

  lemma HalfTable(a: Boundary, b: Boundary)
    requires a == Boundary(0, "t", "A", "", "") && b == Boundary(1, "t", "B", "", "")
    ensures UniqueIds([a, b]) && TableAfter([a, b], "t", [Change(0, "C", "", "")]) == [a.(code := "C"), b]
    ensures Affects([a, b], "t", [Change(0, "C", "", "")], ["A"])
  {
    var c := Change(0, "C", "", "");
    assert [c][..0] == [] && RowAfter(a, "t", [c]) == a.(code := "C") && RowAfter(b, "t", [c]) == b;
    assert a in [a, b] && "A" in ["A"];
  }

  lemma HalfApplied(a: Boundary, b: Boundary)
    requires a == Boundary(0, "t", "A", "", "") && b == Boundary(1, "t", "B", "", "")
    ensures ApplyChanges([a, b], "t", [Change(0, "C", "", ""), Change(1, "C", "", "")]) == ([a.(code := "C"), b], false)
  {
    var c, d := Change(0, "C", "", ""), Change(1, "C", "", "");
    assert [c, d][1..] == [d];
    var half := [a.(code := "C"), b];
    assert ApplyChange([a, b], "t", c) == half;
    assert UniqueCodes(half);
    var full := ApplyChange(half, "t", d);
    assert full[0].code == full[1].code == "C" && full[0].tenant == full[1].tenant;
    assert !UniqueCodes(full);
  }
}
