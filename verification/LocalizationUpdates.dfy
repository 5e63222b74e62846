/**
 * What an update of messages accepts, returns and writes: the count of matched rows against the uuids given, and uuids
 * spelled in another case than stored.
 */
module LocalizationUpdates {
  import opened Prelude
  import opened Lists
  import opened LocalizationModel
  import opened LocalizationIndex
  import opened LocalizationAnswers

  /** What the table's own columns guarantee, and clean keys. */
  ghost predicate ProperTable(table: seq<Message>) {
    && (forall r <- table :: CleanRow(r) && Lower(r.uuid) == r.uuid)
    && (forall i, j | 0 <= i < j < |table| :: table[i].uuid != table[j].uuid)
  }

  lemma SameUuidSameRow(table: seq<Message>, a: Message, b: Message)
    requires ProperTable(table) && a in table && b in table && a.uuid == b.uuid
    ensures a == b
  {
    var i :| 0 <= i < |table| && table[i] == a;
    var j :| 0 <= j < |table| && table[j] == b;
    assert i == j;
  }

  // ---------------------------------------------------------------- what is accepted

  function Lowered(uuids: seq<string>): seq<string> {
    seq(|uuids|, i requires 0 <= i < |uuids| => Lower(uuids[i]))
  }

  function UuidsOf(rows: seq<Message>): seq<string> {
    seq(|rows|, i requires 0 <= i < |rows| => rows[i].uuid)
  }

  lemma {:induction false} MatchingDistinct(table: seq<Message>, tenant: string, uuids: seq<string>)
    requires forall i, j | 0 <= i < j < |table| :: table[i].uuid != table[j].uuid
    ensures Distinct(UuidsOf(Matching(table, tenant, uuids)))
  {
    if table != [] {
      var rest := Matching(table[1..], tenant, uuids);
      MatchingDistinct(table[1..], tenant, uuids);
      MatchingIn(table[1..], tenant, uuids);
      if Hits(table[0], tenant, uuids) {
        assert forall r <- table[1..] :: r.uuid != table[0].uuid;
        FirstDistinct(table[0], rest);
      } else {
        assert [] + rest == rest;
      }
    }
  }

  lemma FirstDistinct(r: Message, rows: seq<Message>)
    requires Distinct(UuidsOf(rows)) && forall q <- rows :: q.uuid != r.uuid
    ensures Distinct(UuidsOf([r] + rows))
  {
    assert UuidsOf([r] + rows) == [r.uuid] + UuidsOf(rows);
    assert forall i | 0 <= i < |rows| :: rows[i] in rows;
  }

  ghost predicate Present(table: seq<Message>, tenant: string, u: string) {
    exists r <- table :: r.tenant == tenant && r.uuid == Lower(u)
  }

  lemma PresentIffMatched(table: seq<Message>, tenant: string, uuids: seq<string>, u: string)
    requires u in uuids
    ensures Present(table, tenant, u) <==> Lower(u) in UuidsOf(Matching(table, tenant, uuids))
  {
    var rows := Matching(table, tenant, uuids);
    MatchingIn(table, tenant, uuids);
    if Present(table, tenant, u) {
      var r :| r in table && r.tenant == tenant && r.uuid == Lower(u);
      var k :| 0 <= k < |rows| && rows[k] == r;
      assert UuidsOf(rows)[k] == Lower(u);
    }
    if Lower(u) in UuidsOf(rows) {
      var k :| 0 <= k < |rows| && UuidsOf(rows)[k] == Lower(u);
      assert rows[k] in rows;
    }
  }

  /** Well-formed uuids, none twice however spelled, each one the tenant's. */
  ghost predicate Acceptable(table: seq<Message>, tenant: string, uuids: seq<string>) {
    (forall u <- uuids :: IsValidUUID(u) && Present(table, tenant, u)) && Distinct(Lowered(uuids))
  }

  /** What the format check and the row count come to. */
  lemma AcceptedIff(table: seq<Message>, tenant: string, uuids: seq<string>)
    requires ProperTable(table)
    ensures UuidError(table, tenant, uuids).None? <==> Acceptable(table, tenant, uuids)
  {
    var matched, lows := UuidsOf(Matching(table, tenant, uuids)), Lowered(uuids);
    MatchingDistinct(table, tenant, uuids);
    MatchedAreLowered(table, tenant, uuids);
    DistinctFits(matched, lows);
    if |matched| == |lows| {
      CoveredIsDistinct(matched, lows);
      forall u | u in uuids ensures Present(table, tenant, u) {
        var i :| 0 <= i < |uuids| && uuids[i] == u;
        assert lows[i] in lows;
        PresentIffMatched(table, tenant, uuids, u);
      }
    }
    if (forall u <- uuids :: Present(table, tenant, u)) && Distinct(lows) {
      forall x | x in lows ensures x in matched {
        var i :| 0 <= i < |lows| && lows[i] == x;
        PresentIffMatched(table, tenant, uuids, uuids[i]);
      }
      DistinctFits(lows, matched);
    }
  }

  lemma MatchedAreLowered(table: seq<Message>, tenant: string, uuids: seq<string>)
    ensures forall x <- UuidsOf(Matching(table, tenant, uuids)) :: x in Lowered(uuids)
  {
    var rows := Matching(table, tenant, uuids);
    MatchingIn(table, tenant, uuids);
    forall x | x in UuidsOf(rows) ensures x in Lowered(uuids) {
      var k :| 0 <= k < |rows| && rows[k].uuid == x;
      assert rows[k] in rows;
      var u :| u in uuids && Lower(u) == x;
      var i :| 0 <= i < |uuids| && uuids[i] == u;
      assert Lowered(uuids)[i] == x;
    }
  }

  // ---------------------------------------------------------------- what is returned

  lemma {:induction false} RowOfIs(rows: seq<Message>, uuid: string)
    ensures match RowOf(rows, uuid)
            case Some(r) => r in rows && r.uuid == uuid
            case None => forall r <- rows :: r.uuid != uuid
  {
    if rows != [] {
      RowOfIs(rows[..|rows| - 1], uuid);
      assert rows == rows[..|rows| - 1] + [rows[|rows| - 1]];
    }
  }

  lemma {:induction false} UpdatedRowsIn(rows: seq<Message>, drafts: seq<Draft>, r: Message)
    requires r in UpdatedRows(rows, drafts)
    ensures exists d <- drafts :: RowOf(rows, d.uuid).Some? && r == RowOf(rows, d.uuid).value.(text := d.text)
  {
    var front, last := drafts[..|drafts| - 1], drafts[|drafts| - 1];
    assert drafts == front + [last];
    if r in UpdatedRows(rows, front) {
      UpdatedRowsIn(rows, front, r);
    }
  }

  lemma {:induction false} UpdatedRowsHave(rows: seq<Message>, drafts: seq<Draft>, q: Message, d: Draft)
    requires d in drafts && RowOf(rows, d.uuid) == Some(q)
    ensures exists r <- UpdatedRows(rows, drafts) :: KeyOf(r) == KeyOf(q)
  {
    var front, last := drafts[..|drafts| - 1], drafts[|drafts| - 1];
    assert drafts == front + [last];
    if d == last {
      assert q.(text := d.text) in UpdatedRows(rows, drafts) && KeyOf(q.(text := d.text)) == KeyOf(q);
    } else {
      UpdatedRowsHave(rows, front, q, d);
    }
  }

  /** A request that spells its uuids as the table does. */
  predicate AsStored(drafts: seq<Draft>) { forall d <- drafts :: Lower(d.uuid) == d.uuid }

  /** An accepted update returns a row per message exactly when its uuids are spelled as stored. */
  lemma ReturnsAllIff(table: seq<Message>, tenant: string, drafts: seq<Draft>)
    requires ProperTable(table) && UuidError(table, tenant, Uuids(drafts)).None?
    ensures |UpdatedRows(Matching(table, tenant, Uuids(drafts)), drafts)| == |drafts| <==> AsStored(drafts)
  {
    var rows := Matching(table, tenant, Uuids(drafts));
    AcceptedIff(table, tenant, Uuids(drafts));
    forall d | d in drafts ensures RowOf(rows, d.uuid).Some? <==> Lower(d.uuid) == d.uuid {
      var i :| 0 <= i < |drafts| && drafts[i] == d;
      assert Uuids(drafts)[i] == d.uuid;
      FoundIffAsStored(table, tenant, drafts, d);
    }
    CountReturned(rows, drafts);
  }

  lemma FoundIffAsStored(table: seq<Message>, tenant: string, drafts: seq<Draft>, d: Draft)
    requires ProperTable(table) && d in drafts && Present(table, tenant, d.uuid)
    ensures RowOf(Matching(table, tenant, Uuids(drafts)), d.uuid).Some? <==> Lower(d.uuid) == d.uuid
  {
    var rows := Matching(table, tenant, Uuids(drafts));
    var i :| 0 <= i < |drafts| && drafts[i] == d;
    assert Uuids(drafts)[i] == d.uuid;
    MatchingIn(table, tenant, Uuids(drafts));
    RowOfIs(rows, d.uuid);
    var r :| r in table && r.tenant == tenant && r.uuid == Lower(d.uuid);
    assert r in rows;
  }

  lemma {:induction false} CountReturned(rows: seq<Message>, drafts: seq<Draft>)
    requires forall d <- drafts :: RowOf(rows, d.uuid).Some? <==> Lower(d.uuid) == d.uuid
    ensures |UpdatedRows(rows, drafts)| <= |drafts|
    ensures |UpdatedRows(rows, drafts)| == |drafts| <==> AsStored(drafts)
  {
    if drafts != [] {
      var front, last := drafts[..|drafts| - 1], drafts[|drafts| - 1];
      assert drafts == front + [last];
      CountReturned(rows, front);
    }
  }

  /** The row a draft means. */
  predicate Targets(q: Message, tenant: string, d: Draft) { q.tenant == tenant && q.uuid == Lower(d.uuid) }

  /** Some draft that spells its uuid as stored means a row with this cache key. */
  ghost predicate Announced(table: seq<Message>, tenant: string, drafts: seq<Draft>, key: string) {
    exists d, p :: d in drafts && p in table && Targets(p, tenant, d) && Lower(d.uuid) == d.uuid && KeyOf(p) == key
  }

  /** The returned rows carry exactly the announced keys. */
  lemma ReturnedIff(table: seq<Message>, tenant: string, drafts: seq<Draft>, key: string)
    requires ProperTable(table)
    ensures (exists r <- UpdatedRows(Matching(table, tenant, Uuids(drafts)), drafts) :: KeyOf(r) == key)
       <==> Announced(table, tenant, drafts, key)
  {
    var rows := Matching(table, tenant, Uuids(drafts));
    MatchingIn(table, tenant, Uuids(drafts));
    if r :| r in UpdatedRows(rows, drafts) && KeyOf(r) == key {
      UpdatedRowsIn(rows, drafts, r);
      var d :| d in drafts && RowOf(rows, d.uuid).Some? && r == RowOf(rows, d.uuid).value.(text := d.text);
      RowOfIs(rows, d.uuid);
      assert Targets(RowOf(rows, d.uuid).value, tenant, d);
    }
    if d, p :| d in drafts && p in table && Targets(p, tenant, d) && Lower(d.uuid) == d.uuid && KeyOf(p) == key {
      AnnouncedReturned(table, tenant, drafts, d, p);
    }
  }

  lemma AnnouncedReturned(table: seq<Message>, tenant: string, drafts: seq<Draft>, d: Draft, p: Message)
    requires ProperTable(table) && d in drafts && p in table && Targets(p, tenant, d) && Lower(d.uuid) == d.uuid
    ensures exists r <- UpdatedRows(Matching(table, tenant, Uuids(drafts)), drafts) :: KeyOf(r) == KeyOf(p)
  {
    var rows := Matching(table, tenant, Uuids(drafts));
    MatchingIn(table, tenant, Uuids(drafts));
    var i :| 0 <= i < |drafts| && drafts[i] == d;
    assert Uuids(drafts)[i] == d.uuid;
    RowOfIs(rows, d.uuid);
    SameUuidSameRow(table, RowOf(rows, d.uuid).value, p);
    UpdatedRowsHave(rows, drafts, p, d);
  }

  // ---------------------------------------------------------------- what is written

  /** Rows not hit keep their text. */
  lemma {:induction false} WithTextsUnhit(table: seq<Message>, tenant: string, drafts: seq<Draft>, i: nat)
    requires i < |table| && !Hits(table[i], tenant, Uuids(drafts))
    ensures |WithTexts(table, tenant, drafts)| == |table| && WithTexts(table, tenant, drafts)[i] == table[i]
  {
    if drafts != [] {
      var front, last := drafts[..|drafts| - 1], drafts[|drafts| - 1];
      assert Uuids(drafts) == Uuids(front) + [last.uuid];
      WithTextsUnhit(table, tenant, front, i);
    }
  }

  /** After an accepted update every message's row holds its text. */
  lemma {:induction false} TextWritten(table: seq<Message>, tenant: string, drafts: seq<Draft>, i: nat, d: Draft)
    requires Distinct(Lowered(Uuids(drafts))) && d in drafts
    requires i < |table| && table[i].tenant == tenant && table[i].uuid == Lower(d.uuid)
    ensures SameRows(table, WithTexts(table, tenant, drafts)) && WithTexts(table, tenant, drafts)[i].text == d.text
  {
    var front, last := drafts[..|drafts| - 1], drafts[|drafts| - 1];
    assert drafts == front + [last];
    WithTextsSameRows(table, tenant, drafts);
    WithTextsSameRows(table, tenant, front);
    assert Lowered(Uuids(drafts)) == Lowered(Uuids(front)) + [Lower(last.uuid)];
    if d != last {
      var k :| 0 <= k < |front| && front[k] == d;
      assert Lowered(Uuids(drafts))[k] == Lower(d.uuid) && Lowered(Uuids(drafts))[|front|] == Lower(last.uuid);
      FrontDistinct(Lowered(Uuids(front)), Lower(last.uuid));
      TextWritten(table, tenant, front, i, d);
    }
  }

  /** An accepted update changes exactly the rows that are given a text they do not have. */
  lemma ChangedIff(table: seq<Message>, tenant: string, drafts: seq<Draft>, i: nat)
    requires Acceptable(table, tenant, Uuids(drafts)) && i < |table|
    ensures SameRows(table, WithTexts(table, tenant, drafts))
    ensures WithTexts(table, tenant, drafts)[i] != table[i]
       <==> exists d <- drafts :: Targets(table[i], tenant, d) && d.text != table[i].text
  {
    WithTextsSameRows(table, tenant, drafts);
    if d :| d in drafts && Targets(table[i], tenant, d) {
      TextWritten(table, tenant, drafts, i, d);
      OneTextEach(table, tenant, drafts, i, d);
    } else {
      assert forall k | 0 <= k < |drafts| :: drafts[k] in drafts;
      WithTextsUnhit(table, tenant, drafts, i);
    }
  }

  lemma OneTextEach(table: seq<Message>, tenant: string, drafts: seq<Draft>, i: nat, d: Draft)
    requires Distinct(Lowered(Uuids(drafts))) && i < |table| && d in drafts && Targets(table[i], tenant, d)
    ensures forall e <- drafts | Targets(table[i], tenant, e) :: e == d
  {
    forall e | e in drafts && Targets(table[i], tenant, e) ensures e == d {
      var j :| 0 <= j < |drafts| && drafts[j] == d;
      var k :| 0 <= k < |drafts| && drafts[k] == e;
      assert Lowered(Uuids(drafts))[j] == Lowered(Uuids(drafts))[k];
    }
  }
}
