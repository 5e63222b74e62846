/** Batches of changes to boundary rows. */
module BoundaryBatches {
  import opened GoStrings
  import opened Prelude
  import opened Sql
  import opened BoundaryCache
  import opened BoundaryDrops

  // ---------------------------------------------------------------- where a batch stops, and what it leaves

  /** The primary key. */
  predicate UniqueIds(table: seq<Boundary>) {
    forall i, j | 0 <= i < j < |table| :: table[i].id != table[j].id
  }

  /** A row with the changes made to it so far: each field at the last value sent for it, empty ones aside. */
  function RowAfter(b: Boundary, tenant: string, changes: seq<Change>): (r: Boundary)
    ensures r.id == b.id && r.tenant == b.tenant
  {
    if changes == [] then b
    else
      var before := RowAfter(b, tenant, changes[..|changes| - 1]);
      if Targets(changes[|changes| - 1], tenant, b) then Merged(before, changes[|changes| - 1]) else before
  }

  function TableAfter(table: seq<Boundary>, tenant: string, changes: seq<Change>): seq<Boundary> {
    seq(|table|, i requires 0 <= i < |table| => RowAfter(table[i], tenant, changes))
  }

  /** The i-th change gives its row a code that another row of the tenant has by then. */
  ghost predicate Clashes(table: seq<Boundary>, tenant: string, changes: seq<Change>, i: nat)
    requires i < |changes|
  {
    changes[i].code != "" &&
    exists b, o :: b in table && o in table && Targets(changes[i], tenant, b) && o.id != b.id && o.tenant == tenant
                   && RowAfter(o, tenant, changes[..i]).code == changes[i].code
  }

  /** The place of the first clash from the i-th change on, or the length of the batch. */
  ghost function FirstClash(table: seq<Boundary>, tenant: string, changes: seq<Change>, i: nat): (k: nat)
    requires i <= |changes|
    ensures i <= k <= |changes| && (k < |changes| ==> Clashes(table, tenant, changes, k))
    ensures forall j: nat | i <= j < k :: !Clashes(table, tenant, changes, j)
    decreases |changes| - i
  {
    if i == |changes| || Clashes(table, tenant, changes, i) then i else FirstClash(table, tenant, changes, i + 1)
  }

  lemma OneMoreChange(table: seq<Boundary>, tenant: string, changes: seq<Change>, i: nat)
    requires i < |changes|
    ensures ApplyChange(TableAfter(table, tenant, changes[..i]), tenant, changes[i])
         == TableAfter(table, tenant, changes[..i + 1])
  {
    assert changes[..i + 1][..i] == changes[..i];
  }

  /** Both rows of a clash end up with the code. */
  lemma ClashRepeats(table: seq<Boundary>, tenant: string, changes: seq<Change>, i: nat)
    requires i < |changes| && Clashes(table, tenant, changes, i)
    ensures !UniqueCodes(TableAfter(table, tenant, changes[..i + 1]))
  {
    var after := TableAfter(table, tenant, changes[..i + 1]);
    var b, o :| b in table && o in table && Targets(changes[i], tenant, b) && o.id != b.id && o.tenant == tenant
      && RowAfter(o, tenant, changes[..i]).code == changes[i].code;
    var p :| 0 <= p < |table| && table[p] == b;
    var q :| 0 <= q < |table| && table[q] == o;
    assert changes[..i + 1][..i] == changes[..i];
    assert after[p].tenant == after[q].tenant && after[p].code == after[q].code;
  }

  lemma NoClashTwoRows(table: seq<Boundary>, tenant: string, changes: seq<Change>, i: nat, b: Boundary, o: Boundary)
    requires i < |changes| && !Clashes(table, tenant, changes, i) && b in table && o in table && b.id != o.id
    requires var b', o' := RowAfter(b, tenant, changes[..i]), RowAfter(o, tenant, changes[..i]);
             b'.tenant != o'.tenant || b'.code != o'.code
    ensures var b', o' := RowAfter(b, tenant, changes[..i + 1]), RowAfter(o, tenant, changes[..i + 1]);
            b'.tenant != o'.tenant || b'.code != o'.code
  {
    assert changes[..i + 1][..i] == changes[..i];
  }

  lemma ClashBreaksUnique(table: seq<Boundary>, tenant: string, changes: seq<Change>, i: nat)
    requires UniqueIds(table) && i < |changes| && UniqueCodes(TableAfter(table, tenant, changes[..i]))
    ensures UniqueCodes(TableAfter(table, tenant, changes[..i + 1])) <==> !Clashes(table, tenant, changes, i)
  {
    hide RowAfter, Clashes;
    var before, after := TableAfter(table, tenant, changes[..i]), TableAfter(table, tenant, changes[..i + 1]);
    if Clashes(table, tenant, changes, i) {
      ClashRepeats(table, tenant, changes, i);
    } else {
      forall p, q | 0 <= p < q < |table| ensures after[p].tenant != after[q].tenant || after[p].code != after[q].code {
        assert before[p].tenant != before[q].tenant || before[p].code != before[q].code;
        NoClashTwoRows(table, tenant, changes, i, table[p], table[q]);
      }
    }
  }

  /** From any place before the first clash on, the batch runs up to it. */
  lemma {:induction false} ApplyStopsAtClash(table: seq<Boundary>, tenant: string, changes: seq<Change>, i: nat)
    requires UniqueIds(table) && i <= |changes| && UniqueCodes(TableAfter(table, tenant, changes[..i]))
    ensures var k := FirstClash(table, tenant, changes, i);
            && ApplyChanges(TableAfter(table, tenant, changes[..i]), tenant, changes[i..])
               == (TableAfter(table, tenant, changes[..k]), k == |changes|)
            && UniqueCodes(TableAfter(table, tenant, changes[..k]))
    decreases |changes| - i
  {
    hide Clashes, RowAfter;
    if i < |changes| {
      assert changes[i..][0] == changes[i] && changes[i..][1..] == changes[i + 1..];
      OneMoreChange(table, tenant, changes, i);
      ClashBreaksUnique(table, tenant, changes, i);
      if !Clashes(table, tenant, changes, i) {
        ApplyStopsAtClash(table, tenant, changes, i + 1);
      }
    }
  }

  /** An update refuses unknown rows, else makes the changes before the first clash, and drops keys only without one. */
  lemma UpdateStopsAtFirstClash(s: Store, tenant: string, changes: seq<Change>)
    requires UniqueCodes(s.table) && UniqueIds(s.table)
    ensures var k := FirstClash(s.table, tenant, changes, 0);
            && UniqueCodes(TableAfter(s.table, tenant, changes[..k]))
            && Updated(s, tenant, changes)
               == if exists c <- changes :: !Present(s.table, tenant, c) then (s, Some(NotFound))
                  else if k < |changes| then
                    (s.(table := TableAfter(s.table, tenant, changes[..k])), Some(ConstraintViolation))
                  else (s.(table := TableAfter(s.table, tenant, changes),
                           cache := Invalidated(s.cache, tenant, ChangeCodes(changes))), None)
  {
    assert TableAfter(s.table, tenant, changes[..0]) == s.table;
    assert changes[0..] == changes == changes[..|changes|];
    ApplyStopsAtClash(s.table, tenant, changes, 0);
  }

  // ---------------------------------------------------------------- which caches survive it

  /** Readable queries can ask for the row. */
  predicate Visible(b: Boundary) { ReadableQuery(b.tenant, [b.code]) }

  lemma {:induction false} RowChanged(b: Boundary, tenant: string, changes: seq<Change>)
    requires RowAfter(b, tenant, changes) != b
    ensures b.tenant == tenant
    ensures "" in ChangeCodes(changes) || RowAfter(b, tenant, changes).code in ChangeCodes(changes)
    ensures RowAfter(b, tenant, changes).code != b.code ==> RowAfter(b, tenant, changes).code in ChangeCodes(changes)
  {
    var front, last := changes[..|changes| - 1], changes[|changes| - 1];
    assert changes == front + [last];
    assert ChangeCodes(changes) == ChangeCodes(front) + [last.code];
    if RowAfter(b, tenant, front) != b {
      RowChanged(b, tenant, front);
    }
  }

  /** The batch changes a row that the query asks for, before or after. */
  ghost predicate Affects(table: seq<Boundary>, tenant: string, changes: seq<Change>, query: seq<string>) {
    exists b <- table :: RowAfter(b, tenant, changes) != b
                         && (Asked(b, tenant, query) || Asked(RowAfter(b, tenant, changes), tenant, query))
  }

  lemma AffectedAnswer(table: seq<Boundary>, tenant: string, changes: seq<Change>, t: string, query: seq<string>)
    requires UniqueIds(table)
    ensures Rows(Answer(table, t, query)) == Rows(Answer(TableAfter(table, tenant, changes), t, query))
       <==> t != tenant || !Affects(table, tenant, changes, query)
  {
    hide RowAfter;
    var after := TableAfter(table, tenant, changes);
    AnswerRows(table, t, query);
    AnswerRows(after, t, query);
    if t == tenant && Affects(table, tenant, changes, query) {
      var b :| b in table && RowAfter(b, tenant, changes) != b
        && (Asked(b, tenant, query) || Asked(RowAfter(b, tenant, changes), tenant, query));
      ChangedRowGone(table, tenant, changes, b);
      if Asked(b, tenant, query) {
        assert b in Rows(Answer(table, t, query)) && b !in Rows(Answer(after, t, query));
      } else {
        var b' := RowAfter(b, tenant, changes);
        assert b' in Rows(Answer(after, t, query)) && b' !in Rows(Answer(table, t, query));
      }
    } else {
      forall b | b in table && Asked(b, t, query) ensures b in after {
        if RowAfter(b, tenant, changes) != b { RowChanged(b, tenant, changes); }
        var p :| 0 <= p < |table| && table[p] == b;
        assert after[p] == b;
      }
      forall b | b in after && Asked(b, t, query) ensures b in table {
        var p :| 0 <= p < |after| && after[p] == b;
        if after[p] != table[p] { RowChanged(table[p], tenant, changes); }
        assert table[p] in table;
      }
    }
  }

  lemma ChangedRowGone(table: seq<Boundary>, tenant: string, changes: seq<Change>, b: Boundary)
    requires UniqueIds(table) && b in table && RowAfter(b, tenant, changes) != b
    ensures b !in TableAfter(table, tenant, changes)
    ensures RowAfter(b, tenant, changes) in TableAfter(table, tenant, changes) && RowAfter(b, tenant, changes) !in table
  {
    hide RowAfter;
    var after := TableAfter(table, tenant, changes);
    var p :| 0 <= p < |table| && table[p] == b;
    assert after[p] == RowAfter(b, tenant, changes);
    forall q | 0 <= q < |after| ensures after[q] != b && table[q] != after[p] {
      assert q != p ==> table[q].id != b.id;
    }
  }

  /** Every coherent cache survives exactly when each readable query the batch affects is dropped. */
  lemma SurvivesIffDropped(table: seq<Boundary>, nextId: nat, tenant: string, changes: seq<Change>, codes: seq<string>)
    requires UniqueIds(table)
    ensures (forall cache :: Coherent(Store(table, nextId, cache)) ==>
               Coherent(Store(TableAfter(table, tenant, changes), nextId, Invalidated(cache, tenant, codes))))
       <==> forall query | ReadableQuery(tenant, query) && Affects(table, tenant, changes, query) ::
              DropsQuery(tenant, codes, query)
  {
    hide Affects, TableAfter;
    if query :| (&& ReadableQuery(tenant, query) && Affects(table, tenant, changes, query)
                 && !DropsQuery(tenant, codes, query)) {
      OneAnswerStale(table, nextId, tenant, changes, codes, query);
    } else {
      forall cache | Coherent(Store(table, nextId, cache))
        ensures Coherent(Store(TableAfter(table, tenant, changes), nextId, Invalidated(cache, tenant, codes)))
      {
        DroppedStaysCoherent(table, nextId, tenant, changes, codes, cache);
      }
    }
  }

  /** The cache that holds nothing but the query's answer. */
  lemma OneAnswerStale(table: seq<Boundary>, nextId: nat, tenant: string, changes: seq<Change>, codes: seq<string>,
                       query: seq<string>)
    requires UniqueIds(table) && ReadableQuery(tenant, query)
    requires Affects(table, tenant, changes, query) && !DropsQuery(tenant, codes, query)
    ensures var cache := map[SearchKey(tenant, query) := Answer(table, tenant, query)];
            && Coherent(Store(table, nextId, cache))
            && !Coherent(Store(TableAfter(table, tenant, changes), nextId, Invalidated(cache, tenant, codes)))
  {
    hide Affects, TableAfter;
    var key := SearchKey(tenant, query);
    var cache := map[key := Answer(table, tenant, query)];
    forall t, q | ReadableQuery(t, q) && SearchKey(t, q) in cache
      ensures Rows(cache[SearchKey(t, q)]) == Rows(Answer(table, t, q))
    {
      SearchKeyInjective(t, q, tenant, query);
    }
    AffectedAnswer(table, tenant, changes, tenant, query);
    assert key in Invalidated(cache, tenant, codes);
  }

  lemma DroppedStaysCoherent(table: seq<Boundary>, nextId: nat, tenant: string, changes: seq<Change>,
                             codes: seq<string>, cache: map<string, seq<Boundary>>)
    requires UniqueIds(table) && Coherent(Store(table, nextId, cache))
    requires forall query | ReadableQuery(tenant, query) && Affects(table, tenant, changes, query) ::
               DropsQuery(tenant, codes, query)
    ensures Coherent(Store(TableAfter(table, tenant, changes), nextId, Invalidated(cache, tenant, codes)))
  {
    hide Affects, TableAfter;
    var cache' := Invalidated(cache, tenant, codes);
    forall t, q | ReadableQuery(t, q) && SearchKey(t, q) in cache'
      ensures Rows(cache'[SearchKey(t, q)]) == Rows(Answer(TableAfter(table, tenant, changes), t, q))
    {
      AffectedAnswer(table, tenant, changes, t, q);
    }
  }

  // ---------------------------------------------------------------- read off the request

  /**
   * A batch naming an unknown row changes nothing. One that clashes drops nothing, and is safe if the changes before
   * the first clash leave every visible row as it was. Any other is safe if for every row it recodes the four searches
   * around the old code are dropped.
   */
  ghost predicate SafeBatch(table: seq<Boundary>, tenant: string, changes: seq<Change>) {
    var k := FirstClash(table, tenant, changes, 0);
    if exists c <- changes :: !Present(table, tenant, c) then true
    else if k < |changes| then
      forall b <- table | Visible(b) || Visible(RowAfter(b, tenant, changes[..k])) :: RowAfter(b, tenant, changes[..k]) == b
    else
      forall b <- table | Visible(b) && RowAfter(b, tenant, changes).code != b.code ::
        DropsAround(tenant, ChangeCodes(changes), b.code)
  }

  lemma NothingDroppedIff(table: seq<Boundary>, tenant: string, changes: seq<Change>)
    ensures (forall query | ReadableQuery(tenant, query) && Affects(table, tenant, changes, query) ::
               DropsQuery(tenant, [], query))
       <==> forall b <- table | Visible(b) || Visible(RowAfter(b, tenant, changes)) :: RowAfter(b, tenant, changes) == b
  {
    hide RowAfter;
    forall b | b in table && RowAfter(b, tenant, changes) != b ensures b.tenant == tenant {
      RowChanged(b, tenant, changes);
    }
    if b :| b in table && (Visible(b) || Visible(RowAfter(b, tenant, changes))) && RowAfter(b, tenant, changes) != b {
      var code := if Visible(b) then b.code else RowAfter(b, tenant, changes).code;
      assert code in [code];
      assert Affects(table, tenant, changes, [code]) && !DropsQuery(tenant, [], [code]);
    } else {
      forall query | ReadableQuery(tenant, query) ensures !Affects(table, tenant, changes, query) {
        AskedIsVisible(table, tenant, changes, query);
      }
    }
  }

  lemma AskedIsVisible(table: seq<Boundary>, tenant: string, changes: seq<Change>, query: seq<string>)
    requires ReadableQuery(tenant, query)
    ensures forall b <- table :: Asked(b, tenant, query) ==> Visible(b)
    ensures forall b <- table :: Asked(RowAfter(b, tenant, changes), tenant, query) ==> Visible(RowAfter(b, tenant, changes))
  {
  }

  lemma AcceptedDropsIff(table: seq<Boundary>, tenant: string, changes: seq<Change>)
    ensures (forall query | ReadableQuery(tenant, query) && Affects(table, tenant, changes, query) ::
               DropsQuery(tenant, ChangeCodes(changes), query))
       <==> forall b <- table | Visible(b) && RowAfter(b, tenant, changes).code != b.code ::
              DropsAround(tenant, ChangeCodes(changes), b.code)
  {
    hide RowAfter, DropsQuery;
    if forall b <- table | Visible(b) && RowAfter(b, tenant, changes).code != b.code ::
         DropsAround(tenant, ChangeCodes(changes), b.code) {
      forall query | ReadableQuery(tenant, query) && Affects(table, tenant, changes, query)
        ensures DropsQuery(tenant, ChangeCodes(changes), query)
      {
        AffectedDropped(table, tenant, changes, query);
      }
    } else {
      var b :| b in table && Visible(b) && RowAfter(b, tenant, changes).code != b.code
        && !DropsAround(tenant, ChangeCodes(changes), b.code);
      var query :| query in Around(b.code) && !DropsQuery(tenant, ChangeCodes(changes), query);
      RowChanged(b, tenant, changes);
      AroundReadable(b, query);
      assert Affects(table, tenant, changes, query);
    }
  }

  lemma AroundReadable(b: Boundary, query: seq<string>)
    requires Visible(b) && query in Around(b.code)
    ensures ReadableQuery(b.tenant, query) && Asked(b, b.tenant, query)
  {
    assert b.code in [b.code] && b.code in query;
  }

  lemma AffectedDropped(table: seq<Boundary>, tenant: string, changes: seq<Change>, query: seq<string>)
    requires forall b <- table | Visible(b) && RowAfter(b, tenant, changes).code != b.code ::
               DropsAround(tenant, ChangeCodes(changes), b.code)
    requires ReadableQuery(tenant, query) && Affects(table, tenant, changes, query)
    ensures DropsQuery(tenant, ChangeCodes(changes), query)
  {
    hide RowAfter, DropsQuery;
    var codes := ChangeCodes(changes);
    var b :| b in table && RowAfter(b, tenant, changes) != b
      && (Asked(b, tenant, query) || Asked(RowAfter(b, tenant, changes), tenant, query));
    var b' := RowAfter(b, tenant, changes);
    RowChanged(b, tenant, changes);
    AskedIsVisible(table, tenant, changes, query);
    if "" in codes {
      AskedCodeDropped(tenant, codes, query, "");
    } else if b'.code in query {
      AskedCodeDropped(tenant, codes, query, b'.code);
    } else {
      assert DropsAround(tenant, codes, b.code);
      FourSearchesDecide(tenant, codes, b.code);
    }
  }

  /** An update keeps every coherent cache coherent exactly when its batch is safe, whatever codes and ids it has. */
  lemma BatchSafeIff(table: seq<Boundary>, nextId: nat, tenant: string, changes: seq<Change>)
    requires UniqueCodes(table) && UniqueIds(table)
    ensures (forall cache :: Coherent(Store(table, nextId, cache)) ==>
               Coherent(Updated(Store(table, nextId, cache), tenant, changes).0))
       <==> SafeBatch(table, tenant, changes)
  {
    hide Coherent, TableAfter, RowAfter, Visible, DropsAround, Affects;
    var k := FirstClash(table, tenant, changes, 0);
    forall cache
      ensures Updated(Store(table, nextId, cache), tenant, changes).0
           == if exists c <- changes :: !Present(table, tenant, c) then Store(table, nextId, cache)
              else if k < |changes| then
                Store(TableAfter(table, tenant, changes[..k]), nextId, Invalidated(cache, tenant, []))
              else Store(TableAfter(table, tenant, changes), nextId, Invalidated(cache, tenant, ChangeCodes(changes)))
    {
      UpdateStopsAtFirstClash(Store(table, nextId, cache), tenant, changes);
      assert Invalidated(cache, tenant, []) == cache;
    }
    SurvivesIffDropped(table, nextId, tenant, changes[..k], []);
    SurvivesIffDropped(table, nextId, tenant, changes, ChangeCodes(changes));
    NothingDroppedIff(table, tenant, changes[..k]);
    AcceptedDropsIff(table, tenant, changes);
  }

  // ---------------------------------------------------------------- two readings

  lemma {:induction false} UntargetedKept(b: Boundary, tenant: string, changes: seq<Change>)
    requires forall c <- changes :: !Targets(c, tenant, b)
    ensures RowAfter(b, tenant, changes) == b
  {
    if changes != [] {
      assert forall c <- changes[..|changes| - 1] :: c in changes;
      UntargetedKept(b, tenant, changes[..|changes| - 1]);
    }
  }

  /** A row that one change of the batch targets. */
  lemma OneTargeting(b: Boundary, tenant: string, changes: seq<Change>, i: nat)
    requires i < |changes| && Targets(changes[i], tenant, b)
    requires forall j | 0 <= j < |changes| && j != i :: changes[j].id != changes[i].id
    ensures RowAfter(b, tenant, changes) == Merged(b, changes[i])
  {
    var front := changes[..|changes| - 1];
    if i == |changes| - 1 {
      assert forall c <- front :: exists j :: 0 <= j < i && changes[j] == c;
      UntargetedKept(b, tenant, front);
    } else {
      OneTargeting(b, tenant, front, i);
    }
  }

  /**
   * A batch with one change a row, over visible rows, that clashes at its k-th change: safe exactly when every change
   * before that sends its row nothing new.
   */
  lemma FailedBatchSafeIff(table: seq<Boundary>, nextId: nat, tenant: string, changes: seq<Change>)
    requires UniqueCodes(table) && UniqueIds(table)
    requires forall i, j | 0 <= i < j < |changes| :: changes[i].id != changes[j].id
    requires (forall c <- changes :: Present(table, tenant, c)) && forall b <- table :: Visible(b)
    requires FirstClash(table, tenant, changes, 0) < |changes|
    ensures (forall cache :: Coherent(Store(table, nextId, cache)) ==>
               Coherent(Updated(Store(table, nextId, cache), tenant, changes).0))
       <==> forall i, b | 0 <= i < FirstClash(table, tenant, changes, 0) && b in table && Targets(changes[i], tenant, b) ::
              Merged(b, changes[i]) == b
  {
    hide Coherent, RowAfter, Visible, Merged;
    var k := FirstClash(table, tenant, changes, 0);
    BatchSafeIff(table, nextId, tenant, changes);
    forall b, i | b in table && 0 <= i < k && Targets(changes[i], tenant, b)
      ensures RowAfter(b, tenant, changes[..k]) == Merged(b, changes[i])
    {
      OneTargeting(b, tenant, changes[..k], i);
    }
    forall b | b in table && forall i | 0 <= i < k :: !Targets(changes[i], tenant, b)
      ensures RowAfter(b, tenant, changes[..k]) == b
    {
      UntargetedKept(b, tenant, changes[..k]);
    }
  }

  /**
   * A batch that does not clash, its tenant and codes without stars, its codes without commas: safe exactly when every
   * visible row it recodes has one of the batch's codes within its old code, or the fixed part of every key has.
   */
  lemma PlainBatchSafeIff(table: seq<Boundary>, nextId: nat, tenant: string, changes: seq<Change>)
    requires UniqueCodes(table) && UniqueIds(table)
    requires '*' !in tenant && forall w <- ChangeCodes(changes) :: '*' !in w && ',' !in w
    requires (forall c <- changes :: Present(table, tenant, c)) && FirstClash(table, tenant, changes, 0) == |changes|
    ensures (forall cache :: Coherent(Store(table, nextId, cache)) ==>
               Coherent(Updated(Store(table, nextId, cache), tenant, changes).0))
       <==> forall b <- table | Visible(b) && RowAfter(b, tenant, changes).code != b.code ::
              exists w <- ChangeCodes(changes) :: Contains(b.code, w) || Contains(SearchPrefix(tenant), w)
  {
    hide Coherent, RowAfter, Visible, DropsAround;
    BatchSafeIff(table, nextId, tenant, changes);
    forall b | b in table
      ensures DropsAround(tenant, ChangeCodes(changes), b.code)
         <==> exists w <- ChangeCodes(changes) :: Contains(b.code, w) || Contains(SearchPrefix(tenant), w)
    {
      PlainDropsIff(tenant, ChangeCodes(changes), b.code);
    }
  }
}
