/** The rows that writes leave and searches answer. */
module LocalizationRows {
  import opened Prelude
  import opened GoStrings
  import opened Sql
  import opened Lists
  import opened LocalizationModel
  import opened LocalizationIndex
  import opened LocalizationAnswers
  import LocalizationUpdates
  import LocalizationCache

  // ---------------------------------------------------------------- creating

  /** A row that holds a draft. */
  predicate Holds(m: Message, uuid: string, tenant: string, d: Draft) {
    && m.uuid == uuid && m.tenant == tenant
    && m.moduleName == d.moduleName && m.locale == d.locale && m.code == d.code && m.text == d.text
  }

  predicate SamePlace(d: Draft, e: Draft) {
    d.moduleName == e.moduleName && d.locale == e.locale && d.code == e.code
  }

  /** No row of the tenant has the draft's module, locale and code, and no earlier draft of the batch asks for them. */
  predicate FreeFor(table: seq<Message>, tenant: string, drafts: seq<Draft>, i: nat) {
    && i < |drafts|
    && (forall r <- table :: r.tenant != tenant || r.moduleName != drafts[i].moduleName
                             || r.locale != drafts[i].locale || r.code != drafts[i].code)
    && (forall j | 0 <= j < i :: !SamePlace(drafts[j], drafts[i]))
  }

  predicate NewSlot(table: seq<Message>, messages: seq<Message>, i: nat) {
    && i < |messages| && (forall r <- table :: !SameSlot(r, messages[i]))
    && forall j | 0 <= j < i :: !SameSlot(messages[j], messages[i])
  }

  lemma SlotsInFront(table: seq<Message>, messages: seq<Message>, n: nat)
    requires n <= |messages|
    ensures forall i: nat | i < n :: NewSlot(table, messages[..n], i) <==> NewSlot(table, messages, i)
  {
  }

  lemma {:induction false} SavedPlaces(table: seq<Message>, messages: seq<Message>) returns (at: seq<nat>)
    ensures Places(at, |messages|, (i: nat) => NewSlot(table, messages, i))
    ensures (forall k | 0 <= k < |at| :: at[k] < |messages|) && Saved(table, messages) == table + At(messages, at)
  {
    hide Places, NewSlot;
    if messages == [] {
      at := [];
      NoPlaces((i: nat) => NewSlot(table, messages, i));
    } else {
      var n := |messages| - 1;
      var front := messages[..n];
      var rest := SavedPlaces(table, front);
      assert forall i: nat | i < n :: NewSlot(table, front, i) <==> NewSlot(table, messages, i) by {
        SlotsInFront(table, messages, n);
      }
      PlacesNext(rest, n, (i: nat) => NewSlot(table, front, i), (i: nat) => NewSlot(table, messages, i));
      TakenIff(table, messages);
      AtNext(messages, rest, n);
      at := if NewSlot(table, messages, n) then rest + [n] else rest;
      ConcatAssoc(table, At(messages, rest), [messages[n]]);
    }
  }

  lemma TakenIff(table: seq<Message>, messages: seq<Message>)
    requires messages != []
    ensures var n := |messages| - 1; Taken(Saved(table, messages[..n]), messages[n]) <==> !NewSlot(table, messages, n)
  {
    var n := |messages| - 1;
    var front := messages[..n];
    if r :| r in Saved(table, front) && SameSlot(r, messages[n]) {
      assert Saved(table, front) == table + LocalizationCache.Extra(table, front);
      LocalizationCache.ExtraIn(table, front);
    }
    forall j | 0 <= j < n && SameSlot(messages[j], messages[n]) ensures Taken(Saved(table, front), messages[n]) {
      assert front[j] in front;
      LocalizationCache.SavedTakes(table, front, front[j]);
    }
  }

  lemma NewSlotIff(table: seq<Message>, tenant: string, drafts: seq<Draft>, ids: seq<string>, i: nat)
    requires |ids| == |drafts| && i < |drafts|
    ensures NewSlot(table, Enriched(tenant, drafts, ids), i) <==> FreeFor(table, tenant, drafts, i)
  {
    var messages := Enriched(tenant, drafts, ids);
    assert forall j | 0 <= j < i :: SameSlot(messages[j], messages[i]) <==> SamePlace(drafts[j], drafts[i]);
  }

  /**
   * A creation succeeds exactly when some draft's place is free or there is no draft; it appends a row for each draft
   * whose place is free, in order, leaves the other rows, and returns every draft.
   */
  lemma CreatedRows(s: Store, tenant: string, drafts: seq<Draft>, ids: seq<string>) returns (at: seq<nat>)
    requires |ids| == |drafts|
    ensures Applied(s, Create(tenant, drafts, ids)) == Created(s, tenant, drafts, ids).0
    ensures Places(at, |drafts|, (i: nat) => FreeFor(s.table, tenant, drafts, i))
    ensures var (s', r) := Created(s, tenant, drafts, ids);
            && (r.Ok? <==> drafts == [] || at != [])
            && (r.Err? ==> s' == s && r.error == Duplicate)
            && (r.Ok? ==> CreatesAt(s.table, s'.table, tenant, drafts, ids, at) && AllHeld(r.value, tenant, drafts, ids))
  {
    var messages := Enriched(tenant, drafts, ids);
    at := SavedPlaces(s.table, messages);
    forall i: nat | i < |drafts| ensures NewSlot(s.table, messages, i) <==> FreeFor(s.table, tenant, drafts, i) {
      NewSlotIff(s.table, tenant, drafts, ids, i);
    }
    PlacesSame(at, |drafts|, (i: nat) => NewSlot(s.table, messages, i), (i: nat) => FreeFor(s.table, tenant, drafts, i));
    assert |At(messages, at)| == |at|;
  }

  /** The table with a row appended for each draft at these places. */
  ghost predicate CreatesAt(table: seq<Message>, after: seq<Message>, tenant: string, drafts: seq<Draft>,
                            ids: seq<string>, at: seq<nat>)
    requires |ids| == |drafts| && forall k | 0 <= k < |at| :: at[k] < |drafts|
  {
    && |after| == |table| + |at| && after[..|table|] == table
    && forall k | 0 <= k < |at| :: CreatedAt(after[|table| + k], tenant, drafts, ids, at[k])
  }

  ghost predicate CreatedAt(m: Message, tenant: string, drafts: seq<Draft>, ids: seq<string>, i: nat) {
    i < |drafts| == |ids| && Holds(m, ids[i], tenant, drafts[i])
  }

  ghost predicate AllHeld(messages: seq<Message>, tenant: string, drafts: seq<Draft>, ids: seq<string>) {
    |messages| == |drafts| && forall i | 0 <= i < |drafts| :: CreatedAt(messages[i], tenant, drafts, ids, i)
  }

  // ---------------------------------------------------------------- updating

  /** A group of hex digits. */
  predicate IsGroup(s: string, size: nat) {
    |s| == size && forall i | 0 <= i < size :: '0' <= s[i] <= '9' || 'a' <= s[i] <= 'f' || 'A' <= s[i] <= 'F'
  }

  /** 8, 4, 4, 4 and 12 hex digits, with dashes between. */
  ghost predicate UuidShape(u: string) {
    exists a, b, c, d, e ::
      && IsGroup(a, 8) && IsGroup(b, 4) && IsGroup(c, 4) && IsGroup(d, 4) && IsGroup(e, 12)
      && u == a + "-" + b + "-" + c + "-" + d + "-" + e
  }

  lemma GroupIs(u: string, from: nat, size: nat)
    requires from + size <= |u|
    ensures IsGroup(u[from..from + size], size) <==> forall i | from <= i < from + size :: IsHex(u[i])
  {
    var group := u[from..from + size];
    assert forall i | from <= i < from + size :: u[i] == group[i - from];
  }

  lemma ValidIffShape(u: string)
    ensures IsValidUUID(u) <==> UuidShape(u)
  {
    hide IsGroup, IsHex;
    if |u| == 36 { GroupsAre(u); }
    if IsValidUUID(u) {
      assert u == u[0..8] + "-" + u[9..13] + "-" + u[14..18] + "-" + u[19..23] + "-" + u[24..36];
    }
    if a, b, c, d, e :| (&& IsGroup(a, 8) && IsGroup(b, 4) && IsGroup(c, 4) && IsGroup(d, 4) && IsGroup(e, 12)
                         && u == a + "-" + b + "-" + c + "-" + d + "-" + e) {
      GroupCuts(a, b, c, d, e);
    }
  }

  lemma GroupsAre(u: string)
    requires |u| == 36
    ensures IsValidUUID(u) <==>
              && u[8] == u[13] == u[18] == u[23] == '-'
              && IsGroup(u[0..8], 8) && IsGroup(u[9..13], 4) && IsGroup(u[14..18], 4) && IsGroup(u[19..23], 4)
              && IsGroup(u[24..36], 12)
  {
    hide IsGroup, IsHex;
    GroupIs(u, 0, 8);
    GroupIs(u, 9, 4);
    GroupIs(u, 14, 4);
    GroupIs(u, 19, 4);
    GroupIs(u, 24, 12);
  }

  lemma GroupCuts(a: string, b: string, c: string, d: string, e: string)
    requires IsGroup(a, 8) && IsGroup(b, 4) && IsGroup(c, 4) && IsGroup(d, 4) && IsGroup(e, 12)
    ensures var u := a + "-" + b + "-" + c + "-" + d + "-" + e;
            && |u| == 36 && u[8] == u[13] == u[18] == u[23] == '-'
            && u[0..8] == a && u[9..13] == b && u[14..18] == c && u[19..23] == d && u[24..36] == e
  {
    var u, v := a + "-" + b + "-" + c + "-" + d + "-" + e, a + "-" + b + "-" + c + "-" + d;
    var w, x := a + "-" + b + "-" + c, a + "-" + b;
    LastCut(v, e);
    LastCut(w, d);
    LastCut(x, c);
    LastCut(a, b);
    assert u[..23] == v && v[..18] == w && w[..13] == x && x[..8] == a;
    assert u[19..23] == v[19..] && v[14..18] == w[14..] && w[9..13] == x[9..];
    assert u[14..18] == v[14..18] && u[9..13] == v[9..13] == w[9..13] && u[0..8] == v[0..8] == w[0..8] == x[0..8];
  }

  lemma LastCut(front: string, last: string)
    ensures var u := front + "-" + last; u[..|front|] == front && u[|front|] == '-' && u[|front| + 1..] == last
  {
  }

  /** The lower-case letter of a hex digit, and any other character as it is. */
  predicate LowerOf(stored: char, c: char) {
    && (c !in "ABCDEF" ==> stored == c)
    && (forall k | 0 <= k < 6 :: c == "ABCDEF"[k] ==> stored == "abcdef"[k])
  }

  /** The row a request means by a uuid, in whatever case it spells it. */
  predicate Means(r: Message, tenant: string, uuid: string) {
    r.tenant == tenant && |r.uuid| == |uuid| && forall i | 0 <= i < |uuid| :: LowerOf(r.uuid[i], uuid[i])
  }

  lemma LowerOfIff(stored: char, c: char)
    ensures LowerOf(stored, c) <==> stored == if 'A' <= c <= 'F' then c - 'A' + 'a' else c
  {
    if 'A' <= c <= 'F' {
      assert "ABCDEF"[c as int - 'A' as int] == c;
      assert "abcdef"[c as int - 'A' as int] == c - 'A' + 'a';
    }
  }

  lemma MeansIff(r: Message, tenant: string, uuid: string)
    ensures Means(r, tenant, uuid) <==> r.tenant == tenant && r.uuid == Lower(uuid)
  {
    if |r.uuid| == |uuid| {
      forall i | 0 <= i < |uuid| ensures LowerOf(r.uuid[i], uuid[i]) <==> r.uuid[i] == Lower(uuid)[i] {
        LowerOfIff(r.uuid[i], uuid[i]);
      }
    }
  }

  /** Well-formed uuids of rows of the tenant, no row meant twice. */
  ghost predicate Accepts(table: seq<Message>, tenant: string, uuids: seq<string>) {
    && (forall u <- uuids :: UuidShape(u) && exists r <- table :: Means(r, tenant, u))
    && (forall r <- table, i, j | 0 <= i < j < |uuids| :: !(Means(r, tenant, uuids[i]) && Means(r, tenant, uuids[j])))
  }

  /** Which uuids an update or a delete is refused for. */
  lemma RefusedFor(table: seq<Message>, tenant: string, uuids: seq<string>)
    requires LocalizationUpdates.ProperTable(table)
    ensures UuidError(table, tenant, uuids)
         == if exists u <- uuids :: !UuidShape(u) then Some(InvalidUuid)
            else if !Accepts(table, tenant, uuids) then Some(UuidNotFound) else None
    ensures UuidError(table, tenant, uuids).None? <==> Accepts(table, tenant, uuids)
  {
    forall u ensures IsValidUUID(u) <==> UuidShape(u) { ValidIffShape(u); }
    forall r, u ensures Means(r, tenant, u) <==> r.tenant == tenant && r.uuid == Lower(u) { MeansIff(r, tenant, u); }
    LocalizationUpdates.AcceptedIff(table, tenant, uuids);
    if forall u <- uuids :: LocalizationUpdates.Present(table, tenant, u) {
      MeantOnce(table, tenant, uuids);
    }
  }

  lemma MeantOnce(table: seq<Message>, tenant: string, uuids: seq<string>)
    requires forall u <- uuids :: LocalizationUpdates.Present(table, tenant, u)
    requires forall r, u :: Means(r, tenant, u) <==> r.tenant == tenant && r.uuid == Lower(u)
    ensures Distinct(LocalizationUpdates.Lowered(uuids))
       <==> forall r <- table, i, j | 0 <= i < j < |uuids| :: !(Means(r, tenant, uuids[i]) && Means(r, tenant, uuids[j]))
  {
    hide Means, Lower;
    var lows := LocalizationUpdates.Lowered(uuids);
    if i, j :| 0 <= i < j < |lows| && lows[i] == lows[j] {
      assert LocalizationUpdates.Present(table, tenant, uuids[i]);
      var r :| r in table && r.tenant == tenant && r.uuid == Lower(uuids[i]);
      assert Means(r, tenant, uuids[i]) && Means(r, tenant, uuids[j]);
    }
    if r, i, j :| r in table && 0 <= i < j < |uuids| && Means(r, tenant, uuids[i]) && Means(r, tenant, uuids[j]) {
      assert lows[i] == lows[j];
    }
  }

  /** The text of each draft in the row it means, and every other column and row as before. */
  ghost predicate TextsSent(table: seq<Message>, after: seq<Message>, tenant: string, drafts: seq<Draft>) {
    && |after| == |table|
    && forall i | 0 <= i < |table| :: TextSent(table[i], after[i], tenant, drafts)
  }

  ghost predicate TextSent(before: Message, after: Message, tenant: string, drafts: seq<Draft>) {
    && after == before.(text := after.text)
    && (forall d <- drafts | Means(before, tenant, d.uuid) :: after.text == d.text)
    && ((forall d <- drafts :: !Means(before, tenant, d.uuid)) ==> after == before)
  }

  lemma TextsSentHolds(table: seq<Message>, tenant: string, drafts: seq<Draft>)
    requires LocalizationUpdates.ProperTable(table) && UuidError(table, tenant, Uuids(drafts)).None?
    ensures TextsSent(table, WithTexts(table, tenant, drafts), tenant, drafts)
  {
    hide Means, UuidError;
    var after := WithTexts(table, tenant, drafts);
    LocalizationUpdates.AcceptedIff(table, tenant, Uuids(drafts));
    WithTextsSameRows(table, tenant, drafts);
    forall i | 0 <= i < |table| ensures TextSent(table[i], after[i], tenant, drafts) {
      forall d | d in drafts ensures Means(table[i], tenant, d.uuid) <==> LocalizationUpdates.Targets(table[i], tenant, d) {
        MeansIff(table[i], tenant, d.uuid);
      }
      LocalizationUpdates.ChangedIff(table, tenant, drafts, i);
      forall d | d in drafts && Means(table[i], tenant, d.uuid) ensures after[i].text == d.text {
        LocalizationUpdates.TextWritten(table, tenant, drafts, i, d);
      }
    }
  }

  /** A draft whose uuid is spelled as the table spells it. */
  predicate SpelledAsStored(table: seq<Message>, tenant: string, drafts: seq<Draft>, i: nat) {
    i < |drafts| && exists r <- table :: r.tenant == tenant && r.uuid == drafts[i].uuid
  }

  /** The stored row of a draft, with the text sent. */
  ghost predicate ReturnedFor(r: Message, table: seq<Message>, tenant: string, d: Draft) {
    r.text == d.text && exists q <- table :: q.tenant == tenant && q.uuid == d.uuid && r == q.(text := r.text)
  }

  ghost predicate ReturnedAt(rows: seq<Message>, table: seq<Message>, tenant: string, drafts: seq<Draft>, at: seq<nat>) {
    && |rows| == |at|
    && forall k | 0 <= k < |at| :: at[k] < |drafts| && ReturnedFor(rows[k], table, tenant, drafts[at[k]])
  }

  /** The row found for a draft is the stored one, if it spells its uuid as stored. */
  ghost predicate FindsStored(rows: seq<Message>, table: seq<Message>, tenant: string, d: Draft) {
    match RowOf(rows, d.uuid)
    case None => forall r <- table :: r.tenant != tenant || r.uuid != d.uuid
    case Some(q) => q in table && q.tenant == tenant && q.uuid == d.uuid
  }

  lemma {:induction false} ReturnedPlaces(table: seq<Message>, tenant: string, drafts: seq<Draft>, rows: seq<Message>)
    returns (at: seq<nat>)
    requires forall d <- drafts :: FindsStored(rows, table, tenant, d)
    ensures Places(at, |drafts|, (i: nat) => SpelledAsStored(table, tenant, drafts, i))
    ensures ReturnedAt(UpdatedRows(rows, drafts), table, tenant, drafts, at)
  {
    hide Places, RowOf, ReturnedAt, ReturnedFor, SpelledAsStored, FindsStored, UpdatedRows;
    if drafts == [] {
      at := [];
      NoPlaces((i: nat) => SpelledAsStored(table, tenant, drafts, i));
      NoneReturned(table, tenant, rows);
    } else {
      var n := |drafts| - 1;
      var front := drafts[..n];
      assert forall d <- front :: d in drafts;
      var rest := ReturnedPlaces(table, tenant, front, rows);
      forall i: nat | i < n ensures SpelledAsStored(table, tenant, front, i) <==> SpelledAsStored(table, tenant, drafts, i) {
        SpelledInFront(table, tenant, drafts, i);
      }
      PlacesNext(rest, n, (i: nat) => SpelledAsStored(table, tenant, front, i),
                 (i: nat) => SpelledAsStored(table, tenant, drafts, i));
      assert drafts[n] in drafts;
      LastReturned(table, tenant, drafts, rows);
      ReturnedNext(UpdatedRows(rows, front), table, tenant, drafts, rest);
      LastOfUpdated(rows, drafts);
      at := if SpelledAsStored(table, tenant, drafts, n) then rest + [n] else rest;
    }
  }

  lemma SpelledInFront(table: seq<Message>, tenant: string, drafts: seq<Draft>, i: nat)
    requires i < |drafts| - 1
    ensures SpelledAsStored(table, tenant, drafts[..|drafts| - 1], i) <==> SpelledAsStored(table, tenant, drafts, i)
  {
  }

  lemma LastReturned(table: seq<Message>, tenant: string, drafts: seq<Draft>, rows: seq<Message>)
    requires drafts != []
    requires FindsStored(rows, table, tenant, drafts[|drafts| - 1])
    ensures var d := drafts[|drafts| - 1];
            && (SpelledAsStored(table, tenant, drafts, |drafts| - 1) <==> RowOf(rows, d.uuid).Some?)
            && (RowOf(rows, d.uuid).Some? ==>
                  ReturnedFor(RowOf(rows, d.uuid).value.(text := d.text), table, tenant, d))
  {
  }

  lemma NoneReturned(table: seq<Message>, tenant: string, rows: seq<Message>)
    ensures ReturnedAt(UpdatedRows(rows, []), table, tenant, [], [])
  {
  }

  lemma LastOfUpdated(rows: seq<Message>, drafts: seq<Draft>)
    requires drafts != []
    ensures var n, d := |drafts| - 1, drafts[|drafts| - 1];
            UpdatedRows(rows, drafts)
            == UpdatedRows(rows, drafts[..n])
               + if RowOf(rows, d.uuid).Some? then [RowOf(rows, d.uuid).value.(text := d.text)] else []
  {
    hide RowOf;
  }

  lemma ReturnedNext(rows: seq<Message>, table: seq<Message>, tenant: string, drafts: seq<Draft>, at: seq<nat>)
    requires drafts != [] && ReturnedAt(rows, table, tenant, drafts[..|drafts| - 1], at)
    ensures ReturnedAt(rows + [], table, tenant, drafts, at)
    ensures forall r :: ReturnedFor(r, table, tenant, drafts[|drafts| - 1]) ==>
              ReturnedAt(rows + [r], table, tenant, drafts, at + [|drafts| - 1])
  {
    hide ReturnedFor;
  }

  lemma FoundIsStored(table: seq<Message>, tenant: string, drafts: seq<Draft>, d: Draft)
    requires LocalizationUpdates.ProperTable(table) && d in drafts
    ensures FindsStored(Matching(table, tenant, Uuids(drafts)), table, tenant, d)
  {
    var rows := Matching(table, tenant, Uuids(drafts));
    MatchingIn(table, tenant, Uuids(drafts));
    LocalizationUpdates.RowOfIs(rows, d.uuid);
    var i :| 0 <= i < |drafts| && drafts[i] == d;
    assert Uuids(drafts)[i] == d.uuid;
    forall r | r in table && r.tenant == tenant && r.uuid == d.uuid ensures r in rows {
      assert Lower(d.uuid) == r.uuid;
    }
  }

  /**
   * An update is refused, changing nothing, or writes each text in the row it means; it returns, in order, the rows of
   * the drafts that spell their uuids as stored.
   */
  lemma UpdatedTable(table: seq<Message>, tenant: string, drafts: seq<Draft>) returns (at: seq<nat>)
    requires LocalizationUpdates.ProperTable(table)
    ensures Places(at, |drafts|, (i: nat) => SpelledAsStored(table, tenant, drafts, i))
    ensures var (after, r) := TableUpdated(table, tenant, drafts);
            && (r.Ok? <==> drafts == [] || Accepts(table, tenant, Uuids(drafts)))
            && (r.Ok? ==> TextsSent(table, after, tenant, drafts) && ReturnedAt(r.value, table, tenant, drafts, at))
            && (r.Err? ==> after == table && RefusedWith(drafts, r.error))
  {
    hide Matching, RowOf, SpelledAsStored, ReturnedFor, Accepts, TextsSent, UuidShape;
    forall d | d in drafts ensures FindsStored(Matching(table, tenant, Uuids(drafts)), table, tenant, d) {
      FoundIsStored(table, tenant, drafts, d);
    }
    at := ReturnedPlaces(table, tenant, drafts, Matching(table, tenant, Uuids(drafts)));
    RefusedFor(table, tenant, Uuids(drafts));
    if drafts == [] {
      NothingSent(table, tenant);
    } else {
      MalformedIff(drafts);
      if UuidError(table, tenant, Uuids(drafts)).None? { TextsSentHolds(table, tenant, drafts); }
    }
  }

  lemma NothingSent(table: seq<Message>, tenant: string)
    ensures TextsSent(table, table, tenant, [])
  {
  }

  /** Malformed uuids are reported before unknown ones. */
  ghost predicate RefusedWith(drafts: seq<Draft>, error: MessageError) {
    error == if exists d <- drafts :: !UuidShape(d.uuid) then InvalidUuid else UuidNotFound
  }

  lemma MalformedIff(drafts: seq<Draft>)
    ensures (exists u <- Uuids(drafts) :: !UuidShape(u)) <==> exists d <- drafts :: !UuidShape(d.uuid)
  {
    hide UuidShape;
    if d :| d in drafts && !UuidShape(d.uuid) {
      var i :| 0 <= i < |drafts| && drafts[i] == d;
      assert Uuids(drafts)[i] == d.uuid;
    }
    if u :| u in Uuids(drafts) && !UuidShape(u) {
      var i :| 0 <= i < |drafts| && Uuids(drafts)[i] == u;
      assert drafts[i] in drafts;
    }
  }

  // ---------------------------------------------------------------- what the cache keeps

  lemma {:induction false} SplitSizes(a: string, sep: char, b: string)
    ensures |Split(a + [sep] + b, sep)| == |Split(a, sep)| + |Split(b, sep)|
    ensures |Split(a, sep)| > 1 <==> sep in a
  {
    if a == "" {
      assert a + [sep] + b == [sep] + b;
      assert ([sep] + b)[1..] == b;
    } else {
      assert (a + [sep] + b)[1..] == a[1..] + [sep] + b;
      SplitSizes(a[1..], sep, b);
      assert [a[0]] + a[1..] == a;
    }
  }

  /** A message whose parts can be read back from its key, which is this key. */
  predicate Carries(m: Message, key: string) {
    && ':' !in m.tenant && ':' !in m.moduleName && ':' !in m.locale
    && key == m.tenant + ":" + m.moduleName + ":" + m.locale
  }

  /** The entries as before, but for those of these messages. */
  ghost predicate EntriesKept(before: map<string, seq<Message>>, after: map<string, seq<Message>>, messages: seq<Message>) {
    && (forall k :: k in after <==> k in before && !exists m <- messages :: Carries(m, k))
    && (forall k <- after :: after[k] == before[k])
  }

  lemma DropsIffCarried(messages: seq<Message>, key: string)
    ensures Drops(messages, key) <==> exists m <- messages :: Carries(m, key)
  {
    forall m | m in messages ensures Carries(m, key) <==> KeyOf(m) == key && |Split(key, ':')| == 3 {
      var t, n, l := m.tenant, m.moduleName, m.locale;
      assert KeyOf(m) == t + ":" + (n + ":" + l);
      SplitSizes(t, ':', n + ":" + l);
      SplitSizes(n, ':', l);
      SplitSizes(l, ':', "");
    }
  }

  lemma InvalidatedKeeps(cache: map<string, seq<Message>>, messages: seq<Message>)
    ensures EntriesKept(cache, Invalidated(cache, messages), messages)
  {
    hide Drops;
    forall k ensures Drops(messages, k) <==> exists m <- messages :: Carries(m, k) {
      DropsIffCarried(messages, k);
    }
  }

  // ---------------------------------------------------------------- the operations

  /** What creation and update leave in the cache: only entries of the returned messages go, and none on an error. */
  lemma WritesKeepEntries(s: Store, tenant: string, drafts: seq<Draft>, ids: seq<string>)
    ensures |ids| == |drafts| ==>
              var (s', r) := Created(s, tenant, drafts, ids);
              EntriesKept(s.cache, s'.cache, if r.Ok? then r.value else [])
    ensures |ids| == |ToCreate(drafts)| ==>
              var (s', r) := Upserted(s, tenant, drafts, ids);
              EntriesKept(s.cache, s'.cache, if r.Ok? then r.value else [])
    ensures var (s', r) := Updated(s, tenant, drafts);
            && EntriesKept(s.cache, s'.cache, if r.Ok? then r.value else [])
            && s'.index == s.index && (s'.table, r) == TableUpdated(s.table, tenant, drafts)
            && Applied(s, Update(tenant, drafts)) == s'
  {
    hide EntriesKept, UuidError, WithTexts, UpdatedRows;
    InvalidatedKeeps(s.cache, []);
    assert Invalidated(s.cache, []) == s.cache;
    if |ids| == |drafts| { InvalidatedKeeps(s.cache, Enriched(tenant, drafts, ids)); }
    var updated := Updated(s, tenant, drafts).1;
    if updated.Ok? { InvalidatedKeeps(s.cache, updated.value); }
    if |ids| == |ToCreate(drafts)| {
      var upserted := Upserted(s, tenant, drafts, ids).1;
      if upserted.Ok? { InvalidatedKeeps(s.cache, upserted.value); }
    }
  }

  predicate New(drafts: seq<Draft>, i: nat) { i < |drafts| && drafts[i].uuid == "" }

  predicate Old(drafts: seq<Draft>, i: nat) { i < |drafts| && drafts[i].uuid != "" }

  lemma NewInFront(drafts: seq<Draft>, n: nat)
    requires n <= |drafts|
    ensures forall i: nat | i < n :: New(drafts[..n], i) <==> New(drafts, i)
  {
  }

  lemma LastNew(drafts: seq<Draft>)
    requires drafts != []
    ensures ToCreate(drafts)
         == ToCreate(drafts[..|drafts| - 1]) + if New(drafts, |drafts| - 1) then [drafts[|drafts| - 1]] else []
  {
  }

  lemma {:induction false} NewPlaces(drafts: seq<Draft>) returns (at: seq<nat>)
    ensures Places(at, |drafts|, (i: nat) => New(drafts, i))
    ensures (forall k | 0 <= k < |at| :: at[k] < |drafts|) && ToCreate(drafts) == At(drafts, at)
  {
    hide Places, New, ToCreate;
    if drafts == [] {
      at := [];
      NoPlaces((i: nat) => New(drafts, i));
      assert ToCreate([]) == [] by { NothingNew(); }
    } else {
      var n := |drafts| - 1;
      var rest := NewPlaces(drafts[..n]);
      NewInFront(drafts, n);
      PlacesNext(rest, n, (i: nat) => New(drafts[..n], i), (i: nat) => New(drafts, i));
      LastNew(drafts);
      AtNext(drafts, rest, n);
      at := if New(drafts, n) then rest + [n] else rest;
    }
  }

  lemma NothingNew()
    ensures ToCreate([]) == []
  {
  }

  lemma OldInFront(drafts: seq<Draft>, n: nat)
    requires n <= |drafts|
    ensures forall i: nat | i < n :: Old(drafts[..n], i) <==> Old(drafts, i)
  {
  }

  lemma LastOld(drafts: seq<Draft>)
    requires drafts != []
    ensures ToUpdate(drafts)
         == ToUpdate(drafts[..|drafts| - 1]) + if Old(drafts, |drafts| - 1) then [drafts[|drafts| - 1]] else []
  {
  }

  lemma {:induction false} OldPlaces(drafts: seq<Draft>) returns (at: seq<nat>)
    ensures Places(at, |drafts|, (i: nat) => Old(drafts, i))
    ensures (forall k | 0 <= k < |at| :: at[k] < |drafts|) && ToUpdate(drafts) == At(drafts, at)
  {
    hide Places, Old, ToUpdate;
    if drafts == [] {
      at := [];
      NoPlaces((i: nat) => Old(drafts, i));
      assert ToUpdate([]) == [] by { NothingOld(); }
    } else {
      var n := |drafts| - 1;
      var rest := OldPlaces(drafts[..n]);
      OldInFront(drafts, n);
      PlacesNext(rest, n, (i: nat) => Old(drafts[..n], i), (i: nat) => Old(drafts, i));
      LastOld(drafts);
      AtNext(drafts, rest, n);
      at := if Old(drafts, n) then rest + [n] else rest;
    }
  }

  lemma NothingOld()
    ensures ToUpdate([]) == []
  {
  }

  /**
   * An upsert makes the rows of the drafts without a uuid as a creation would, and fails as one would; then it sends the
   * others' texts as an update would, keeping the rows made even if the update is refused.
   */
  lemma UpsertedRows(s: Store, tenant: string, drafts: seq<Draft>, ids: seq<string>)
    returns (made: seq<Draft>, sent: seq<Draft>, at: seq<nat>, saved: seq<Message>, back: seq<nat>)
    requires |ids| == |ToCreate(drafts)| && LocalizationCache.CleanDrafts(tenant, ToCreate(drafts))
    requires LocalizationUpdates.ProperTable(s.table) && LocalizationCache.FreshIds(s.table, ids)
    ensures Applied(s, Upsert(tenant, drafts, ids)) == Upserted(s, tenant, drafts, ids).0
    ensures exists places :: Places(places, |drafts|, (i: nat) => New(drafts, i)) && made == At(drafts, places)
    ensures exists places :: Places(places, |drafts|, (i: nat) => Old(drafts, i)) && sent == At(drafts, places)
    ensures |made| == |ids| && Places(at, |made|, (i: nat) => FreeFor(s.table, tenant, made, i))
    ensures Places(back, |sent|, (i: nat) => SpelledAsStored(saved, tenant, sent, i))
    ensures CreatesAt(s.table, saved, tenant, made, ids, at)
    ensures var (s', r) := Upserted(s, tenant, drafts, ids);
            if made != [] && at == [] then s' == s && r == Err(Duplicate)
            else if sent != [] && !Accepts(saved, tenant, Uuids(sent)) then
              s'.table == saved && r.Err? && RefusedWith(sent, r.error)
            else
              && r.Ok? && TextsSent(saved, s'.table, tenant, sent)
              && |made| <= |r.value| && AllHeld(r.value[..|made|], tenant, made, ids)
              && ReturnedAt(r.value[|made|..], saved, tenant, sent, back)
  {
    hide Places, FreeFor, SpelledAsStored, Accepts, TextsSent, UuidShape, ReturnedAt;
    made, sent := ToCreate(drafts), ToUpdate(drafts);
    var madeAt := NewPlaces(drafts);
    var sentAt := OldPlaces(drafts);
    at := CreatedRows(s, tenant, made, ids);
    var messages := Enriched(tenant, made, ids);
    saved := Saved(s.table, messages);
    if at == [] && made != [] { assert saved == s.table; }
    LocalizationCache.EnrichedFresh(s.table, tenant, made, ids);
    LocalizationCache.SavedProper(s.table, messages);
    back := UpdatedTable(saved, tenant, sent);
    if Upserted(s, tenant, drafts, ids).1.Ok? {
      var rows := TableUpdated(saved, tenant, sent).1.value;
      assert (messages + rows)[..|messages|] == messages && (messages + rows)[|messages|..] == rows;
    }
  }

  /** A row that is not asked for by any of these uuids. */
  predicate Spared(table: seq<Message>, tenant: string, uuids: seq<string>, p: nat) {
    p < |table| && forall u <- uuids :: !Means(table[p], tenant, u)
  }

  lemma {:induction false} WithoutPlaces(table: seq<Message>, tenant: string, uuids: seq<string>) returns (at: seq<nat>)
    ensures Places(at, |table|, (p: nat) => Spared(table, tenant, uuids, p))
    ensures Without(table, tenant, uuids) == At(table, at)
  {
    if table == [] {
      at := [];
    } else {
      hide Means, Hits;
      var rest := WithoutPlaces(table[1..], tenant, uuids);
      assert forall p: nat | p < |table| - 1 ::
               Spared(table[1..], tenant, uuids, p) <==> Spared(table, tenant, uuids, p + 1);
      at := AtShifted(table, rest, (p: nat) => Spared(table, tenant, uuids, p),
                      (p: nat) => Spared(table[1..], tenant, uuids, p));
      HitsIff(table[0], tenant, uuids);
    }
  }

  lemma HitsIff(r: Message, tenant: string, uuids: seq<string>)
    ensures Hits(r, tenant, uuids) <==> exists u <- uuids :: Means(r, tenant, u)
  {
    forall u | u in uuids ensures Means(r, tenant, u) <==> r.tenant == tenant && r.uuid == Lower(u) {
      MeansIff(r, tenant, u);
    }
  }

  /** A key of the tenant's, and more than its prefix. */
  ghost predicate KeyOfTenant(key: string, tenant: string) { exists rest :: rest != "" && key == tenant + ":" + rest }

  lemma OfTenantIff(key: string, tenant: string)
    ensures OfTenant(key, tenant) <==> KeyOfTenant(key, tenant)
  {
    var prefix := tenant + ":";
    if OfTenant(key, tenant) {
      assert key == prefix + key[|prefix|..];
    }
    if rest :| rest != "" && key == tenant + ":" + rest {
      assert key[..|prefix|] == prefix;
    }
  }

  /** A delete drops the tenant's entries, then is refused or takes exactly the rows meant, the others in order. */
  lemma DeletedRows(s: Store, tenant: string, uuids: seq<string>) returns (at: seq<nat>)
    requires LocalizationUpdates.ProperTable(s.table)
    ensures Applied(s, Delete(tenant, uuids)) == Deleted(s, tenant, uuids).0
    ensures Places(at, |s.table|, (p: nat) => Spared(s.table, tenant, uuids, p))
    ensures var (s', error) := Deleted(s, tenant, uuids);
            && (error.None? <==> uuids == [] || Accepts(s.table, tenant, uuids))
            && (error.Some? ==> error.value == if exists u <- uuids :: !UuidShape(u) then InvalidUuid else UuidNotFound)
            && s'.table == (if error.None? then At(s.table, at) else s.table) && s'.index == s.index
            && (forall k :: k in s'.cache <==> k in s.cache && !KeyOfTenant(k, tenant))
            && (forall k <- s'.cache :: s'.cache[k] == s.cache[k])
  {
    hide Places, Spared, Accepts, KeyOfTenant, UuidShape, OfTenant;
    RefusedFor(s.table, tenant, uuids);
    at := WithoutPlaces(s.table, tenant, uuids);
    forall k ensures OfTenant(k, tenant) <==> KeyOfTenant(k, tenant) { OfTenantIff(k, tenant); }
    if uuids == [] { AllSpared(s.table, tenant); }
  }

  lemma {:induction false} AllSpared(table: seq<Message>, tenant: string)
    ensures Without(table, tenant, []) == table
  {
    if table != [] {
      AllSpared(table[1..], tenant);
      assert !Hits(table[0], tenant, []);
      assert table == [table[0]] + table[1..];
    }
  }

  // ---------------------------------------------------------------- reading

  /** A row of the tenant, of the module and locale if they are asked for. */
  predicate AskedFor(table: seq<Message>, t: string, m: string, l: string, p: nat) {
    p < |table| && table[p].tenant == t && (m != "" ==> table[p].moduleName == m) && (l != "" ==> table[p].locale == l)
  }

  lemma {:induction false} SelectedPlaces(table: seq<Message>, t: string, m: string, l: string) returns (at: seq<nat>)
    ensures Places(at, |table|, (p: nat) => AskedFor(table, t, m, l, p)) && Selected(table, t, m, l) == At(table, at)
  {
    if table == [] {
      at := [];
    } else {
      var rest := SelectedPlaces(table[1..], t, m, l);
      assert forall p: nat | p < |table| - 1 :: AskedFor(table[1..], t, m, l, p) <==> AskedFor(table, t, m, l, p + 1);
      at := AtShifted(table, rest, (p: nat) => AskedFor(table, t, m, l, p), (p: nat) => AskedFor(table[1..], t, m, l, p));
    }
  }

  /** A code that is the beginning of another, or smaller where they first differ. */
  ghost predicate Before(a: string, b: string) {
    || (|a| <= |b| && a == b[..|a|])
    || exists i | 0 <= i < |a| && i < |b| :: a[..i] == b[..i] && a[i] < b[i]
  }

  lemma {:induction false} UpToIff(a: string, b: string)
    ensures UpTo(a, b) <==> Before(a, b)
  {
    if a != "" && b != "" && a[0] == b[0] {
      UpToIff(a[1..], b[1..]);
      BeforeStep(a, b);
    }
  }

  lemma BeforeStep(a: string, b: string)
    requires a != "" && b != "" && a[0] == b[0]
    ensures Before(a, b) <==> Before(a[1..], b[1..])
  {
    assert a == [a[0]] + a[1..] && b == [b[0]] + b[1..];
    if i :| 0 <= i < |a| && i < |b| && a[..i] == b[..i] && a[i] < b[i] {
      assert a[1..][..i - 1] == a[..i][1..] && b[1..][..i - 1] == b[..i][1..];
      assert a[1..][i - 1] < b[1..][i - 1];
    }
    if i :| 0 <= i < |a| - 1 && i < |b| - 1 && a[1..][..i] == b[1..][..i] && a[1..][i] < b[1..][i] {
      assert a[..i + 1] == [a[0]] + a[1..][..i] && b[..i + 1] == [b[0]] + b[1..][..i];
      assert a[i + 1] < b[i + 1];
    }
    if |a| <= |b| { assert b[..|a|] == [b[0]] + b[1..][..|a| - 1]; }
  }

  /** A search that the cache does not answer: the rows asked for, as often as stored, in code order, and their page. */
  lemma FoundIs(table: seq<Message>, t: string, m: string, l: string, limit: int, offset: int)
    returns (at: seq<nat>, ordered: seq<Message>)
    ensures Places(at, |table|, (p: nat) => AskedFor(table, t, m, l, p))
    ensures multiset(ordered) == multiset(At(table, at))
    ensures forall i, j | 0 <= i < j < |ordered| :: Before(ordered[i].code, ordered[j].code)
    ensures var found := FoundMessages(table, t, m, l, limit, offset);
            if limit <= 0 then found == ordered else Stretch(ordered, found, limit, offset)
  {
    at := SelectedPlaces(table, t, m, l);
    ordered := Answer(table, t, m, l);
    ByCodeSorts(Selected(table, t, m, l));
    forall i, j | 0 <= i < j < |ordered| ensures Before(ordered[i].code, ordered[j].code) {
      UpToIff(ordered[i].code, ordered[j].code);
    }
    PageIs(ordered, limit, offset);
  }

  /** An unpaged search leaves its rows under its key, unless they came from there; nothing else changes. */
  lemma SearchLeaves(s: Store, t: string, m: string, l: string, limit: int, offset: int)
    ensures Applied(s, Search(t, m, l, limit, offset)) == Searched(s, t, m, l, limit, offset).0
    ensures var (s', rows) := Searched(s, t, m, l, limit, offset);
            var key := t + ":" + m + ":" + l;
            && s'.table == s.table && s'.index == s.index
            && (forall k :: k in s'.cache <==> k in s.cache || (k == key && limit <= 0))
            && (forall k <- s'.cache :: k != key ==> s'.cache[k] == s.cache[k])
            && (if limit > 0 then s'.cache == s.cache else s'.cache[key] == rows)
            && (limit <= 0 && key in s.cache && |s.cache[key]| > 0 ==> rows == s.cache[key])
            && (limit > 0 || key !in s.cache || |s.cache[key]| == 0 ==>
                  rows == FoundMessages(s.table, t, m, l, limit, offset))
  {
  }
}
