/** The read cache against the table, over runs of operations. */
module LocalizationCache {
  import opened Lists
  import opened LocalizationModel
  import opened LocalizationIndex
  import opened LocalizationAnswers
  import opened LocalizationUpdates

  // ---------------------------------------------------------------- coherence

  /** Cached, and not as an empty list, which a search takes for no entry. */
  predicate Served(cache: map<string, seq<Message>>, key: string) { key in cache && cache[key] != [] }

  /** What a search is served from the cache is the table's present answer. */
  ghost predicate EntryRight(s: Store, t: string, m: string, l: string) {
    Served(s.cache, CacheKey(t, m, l)) ==> s.cache[CacheKey(t, m, l)] == Answer(s.table, t, m, l)
  }

  lemma EntryRightIff(s: Store, t: string, m: string, l: string)
    ensures EntryRight(s, t, m, l) <==> Searched(s, t, m, l, 0, 0).1 == Answer(s.table, t, m, l)
  {
  }

  predicate Narrow(t: string, m: string, l: string) {
    Clean(t) && Clean(m) && Clean(l) && m != "" && l != ""
  }

  /** Every search for a non-empty module and locale is answered right. */
  ghost predicate Coherent(s: Store) { forall t, m, l :: Narrow(t, m, l) ==> EntryRight(s, t, m, l) }

  predicate CleanDrafts(tenant: string, drafts: seq<Draft>) {
    Clean(tenant) && forall d <- drafts :: Clean(d.moduleName) && Clean(d.locale)
  }

  ghost predicate FreshIds(table: seq<Message>, ids: seq<string>) {
    Distinct(ids) && (forall u <- ids :: Lower(u) == u) && forall r <- table :: r.uuid !in ids
  }

  /** What a save adds to the table. */
  function Extra(table: seq<Message>, messages: seq<Message>): seq<Message> { Saved(table, messages)[|table|..] }

  lemma {:induction false} ExtraIn(table: seq<Message>, messages: seq<Message>)
    ensures forall r <- Extra(table, messages) :: r in messages
  {
    if messages != [] {
      var front, last := messages[..|messages| - 1], messages[|messages| - 1];
      ExtraIn(table, front);
      assert messages == front + [last];
      assert Extra(table, messages) == Extra(table, front) + if Taken(Saved(table, front), last) then [] else [last];
    }
  }

  /** A save keeps an answer exactly when it adds no row of it. */
  lemma SavedSelectedIff(table: seq<Message>, messages: seq<Message>, t: string, m: string, l: string)
    ensures Selected(Saved(table, messages), t, m, l) == Selected(table, t, m, l)
       <==> forall r <- Extra(table, messages) :: !Selects(r, t, m, l)
  {
    var extra := Extra(table, messages);
    assert Saved(table, messages) == table + extra;
    SelectedConcat(table, extra, t, m, l);
    SelectedNone(extra, t, m, l);
    if Selected(table + extra, t, m, l) == Selected(table, t, m, l) {
      assert |Selected(extra, t, m, l)| == 0;
    }
  }

  lemma CreatedKeepsEntry(s: Store, tenant: string, drafts: seq<Draft>, ids: seq<string>, t: string, m: string,
                          l: string)
    requires |ids| == |drafts| && CleanDrafts(tenant, drafts)
    requires Narrow(t, m, l) && EntryRight(s, t, m, l)
    ensures EntryRight(Created(s, tenant, drafts, ids).0, t, m, l)
  {
    var messages := Enriched(tenant, drafts, ids);
    EnrichedClean(tenant, drafts, ids);
    DropsIff(messages, t, m, l);
    SavedSelectedIff(s.table, messages, t, m, l);
    ExtraIn(s.table, messages);
  }

  lemma EnrichedClean(tenant: string, drafts: seq<Draft>, ids: seq<string>)
    requires |ids| == |drafts| && CleanDrafts(tenant, drafts)
    ensures forall r <- Enriched(tenant, drafts, ids) :: CleanRow(r)
  {
    assert forall i | 0 <= i < |drafts| :: drafts[i] in drafts;
  }

  // ---------------------------------------------------------------- the table stays proper

  ghost predicate FreshMessages(table: seq<Message>, messages: seq<Message>) {
    && (forall r <- messages :: CleanRow(r) && Lower(r.uuid) == r.uuid)
    && (forall i, j | 0 <= i < j < |messages| :: messages[i].uuid != messages[j].uuid)
    && (forall r <- table, m <- messages :: r.uuid != m.uuid)
  }

  lemma EnrichedFresh(table: seq<Message>, tenant: string, drafts: seq<Draft>, ids: seq<string>)
    requires |ids| == |drafts| && CleanDrafts(tenant, drafts) && FreshIds(table, ids)
    ensures FreshMessages(table, Enriched(tenant, drafts, ids))
  {
    EnrichedClean(tenant, drafts, ids);
    assert forall i | 0 <= i < |drafts| :: ids[i] in ids;
  }

  lemma {:induction false} SavedProper(table: seq<Message>, messages: seq<Message>)
    requires ProperTable(table) && FreshMessages(table, messages)
    ensures ProperTable(Saved(table, messages))
  {
    if messages != [] {
      var front, last := messages[..|messages| - 1], messages[|messages| - 1];
      assert messages == front + [last];
      SavedProper(table, front);
      ExtraIn(table, front);
      var before := Saved(table, front);
      forall r | r in before ensures r.uuid != last.uuid {
        assert r in table || r in Extra(table, front);
      }
      AppendProper(before, last);
    }
  }

  lemma AppendProper(table: seq<Message>, m: Message)
    requires ProperTable(table) && CleanRow(m) && Lower(m.uuid) == m.uuid && forall r <- table :: r.uuid != m.uuid
    ensures ProperTable(table + [m])
  {
  }

  lemma SameRowsProper(a: seq<Message>, b: seq<Message>)
    requires ProperTable(a) && SameRows(a, b)
    ensures ProperTable(b)
  {
    forall r | r in b ensures CleanRow(r) && Lower(r.uuid) == r.uuid {
      var i :| 0 <= i < |b| && b[i] == r;
      assert a[i] in a;
    }
  }

  lemma {:induction false} WithoutProper(table: seq<Message>, tenant: string, uuids: seq<string>)
    requires ProperTable(table)
    ensures ProperTable(Without(table, tenant, uuids))
  {
    if table != [] {
      var rest := Without(table[1..], tenant, uuids);
      WithoutProper(table[1..], tenant, uuids);
      WithoutIn(table, tenant, uuids);
      WithoutIn(table[1..], tenant, uuids);
      forall j | 0 <= j < |rest| ensures table[0].uuid != rest[j].uuid {
        assert rest[j] in table[1..];
        var k :| 0 <= k < |table[1..]| && table[1..][k] == rest[j];
        assert table[k + 1] == rest[j];
      }
    }
  }

  // ---------------------------------------------------------------- each operation keeps coherence

  lemma DeletedKeepsEntry(s: Store, tenant: string, uuids: seq<string>, t: string, m: string, l: string)
    requires EntryRight(s, t, m, l)
    ensures EntryRight(Deleted(s, tenant, uuids).0, t, m, l)
  {
    if t == tenant {
      var key := CacheKey(t, m, l);
      assert key[..|tenant + ":"|] == tenant + ":";
      assert OfTenant(key, tenant);
    } else {
      SelectedWithout(s.table, tenant, uuids, t, m, l);
    }
  }

  lemma SearchedKeepsEntry(s: Store, tenant: string, moduleName: string, locale: string, limit: int, offset: int,
                           t: string, m: string, l: string)
    requires Clean(tenant) && Clean(moduleName) && Clean(locale) && Narrow(t, m, l) && EntryRight(s, t, m, l)
    ensures EntryRight(Searched(s, tenant, moduleName, locale, limit, offset).0, t, m, l)
  {
    if CacheKey(tenant, moduleName, locale) == CacheKey(t, m, l) {
      KeyInjective(tenant, moduleName, locale, t, m, l);
    }
  }

  /** What a search returns is the table's answer, cached or not. */
  lemma SearchAnswers(s: Store, t: string, m: string, l: string, limit: int, offset: int)
    requires Coherent(s) && Narrow(t, m, l)
    ensures Searched(s, t, m, l, limit, offset).1 == FoundMessages(s.table, t, m, l, limit, offset)
  {
    assert EntryRight(s, t, m, l);
  }

  // ---------------------------------------------------------------- updates

  /**
   * The draft gives the row a text it does not have, but spells its uuid in capitals, which the database finds and
   * the service does not; and no draft spelled as stored means a row with the same key.
   */
  ghost predicate SilentlyRewrites(table: seq<Message>, tenant: string, drafts: seq<Draft>, d: Draft, q: Message) {
    && d in drafts && q in table && Targets(q, tenant, d) && Lower(d.uuid) != d.uuid && d.text != q.text
    && q.moduleName != "" && q.locale != ""
    && !Announced(table, tenant, drafts, KeyOf(q))
  }

  /** The update is accepted and silently rewrites a row of a served answer. */
  ghost predicate UpdateLeavesStale(s: Store, tenant: string, drafts: seq<Draft>) {
    && Acceptable(s.table, tenant, Uuids(drafts))
    && exists d, q :: SilentlyRewrites(s.table, tenant, drafts, d, q) && Served(s.cache, KeyOf(q))
  }

  /** An update keeps the cache right exactly when it is refused or silently rewrites no row of a served answer. */
  lemma UpdateKeepsCoherentIff(s: Store, tenant: string, drafts: seq<Draft>)
    requires ProperTable(s.table) && Coherent(s)
    ensures Coherent(Updated(s, tenant, drafts).0) <==> !UpdateLeavesStale(s, tenant, drafts)
  {
    hide Coherent, Acceptable, SilentlyRewrites;
    AcceptedIff(s.table, tenant, Uuids(drafts));
    if drafts == [] {
      NothingToRewrite(s, tenant);
    } else if Acceptable(s.table, tenant, Uuids(drafts)) {
      if d, q :| SilentlyRewrites(s.table, tenant, drafts, d, q) && Served(s.cache, KeyOf(q)) {
        RewrittenIsStale(s, tenant, drafts, d, q);
      } else {
        UnrewrittenStaysRight(s, tenant, drafts);
      }
    }
  }

  lemma NothingToRewrite(s: Store, tenant: string)
    ensures !UpdateLeavesStale(s, tenant, []) && Updated(s, tenant, []).0 == s
  {
    assert Invalidated(s.cache, []) == s.cache;
  }

  lemma RewrittenIsStale(s: Store, tenant: string, drafts: seq<Draft>, d: Draft, q: Message)
    requires ProperTable(s.table) && Coherent(s) && Acceptable(s.table, tenant, Uuids(drafts))
    requires SilentlyRewrites(s.table, tenant, drafts, d, q) && Served(s.cache, KeyOf(q))
    ensures !Coherent(Updated(s, tenant, drafts).0)
  {
    hide Acceptable;
    var after := Updated(s, tenant, drafts).0;
    AcceptedIff(s.table, tenant, Uuids(drafts));
    ReturnedIff(s.table, tenant, drafts, KeyOf(q));
    var i: nat :| i < |s.table| && s.table[i] == q;
    ChangedIff(s.table, tenant, drafts, i);
    assert after.table[i] != q;
    ChangedBehindCache(s, after, i);
  }

  lemma ChangedBehindCache(s: Store, after: Store, i: nat)
    requires ProperTable(s.table) && Coherent(s) && SameRows(s.table, after.table)
    requires i < |s.table| && after.table[i] != s.table[i]
    requires s.table[i].moduleName != "" && s.table[i].locale != "" && Served(s.cache, KeyOf(s.table[i]))
    requires KeyOf(s.table[i]) in after.cache && after.cache[KeyOf(s.table[i])] == s.cache[KeyOf(s.table[i])]
    ensures !Coherent(after)
  {
    var q := s.table[i];
    var t, m, l := q.tenant, q.moduleName, q.locale;
    assert q in s.table && Narrow(t, m, l) && EntryRight(s, t, m, l);
    AnswerIn(s.table, t, m, l);
    AnswerIn(after.table, t, m, l);
    assert q !in after.table;
    assert !EntryRight(after, t, m, l);
  }

  lemma UnrewrittenStaysRight(s: Store, tenant: string, drafts: seq<Draft>)
    requires ProperTable(s.table) && Coherent(s) && drafts != [] && Acceptable(s.table, tenant, Uuids(drafts))
    requires forall d, q :: SilentlyRewrites(s.table, tenant, drafts, d, q) ==> !Served(s.cache, KeyOf(q))
    ensures Coherent(Updated(s, tenant, drafts).0)
  {
    hide Acceptable, SilentlyRewrites;
    var after := Updated(s, tenant, drafts).0;
    AcceptedIff(s.table, tenant, Uuids(drafts));
    forall t, m, l | Narrow(t, m, l) ensures EntryRight(after, t, m, l) {
      if Served(after.cache, CacheKey(t, m, l)) {
        assert EntryRight(s, t, m, l);
        KeySplits(t, m, l);
        ReturnedIff(s.table, tenant, drafts, CacheKey(t, m, l));
        UnrewrittenAnswer(s.table, s.cache, tenant, drafts, t, m, l);
      }
    }
  }

  lemma RewritesSilently(table: seq<Message>, tenant: string, drafts: seq<Draft>, d: Draft, q: Message)
    requires d in drafts && q in table && Targets(q, tenant, d) && d.text != q.text
    requires q.moduleName != "" && q.locale != "" && !Announced(table, tenant, drafts, KeyOf(q))
    ensures SilentlyRewrites(table, tenant, drafts, d, q)
  {
  }

  lemma UnrewrittenAnswer(table: seq<Message>, cache: map<string, seq<Message>>, tenant: string, drafts: seq<Draft>,
                          t: string, m: string, l: string)
    requires Acceptable(table, tenant, Uuids(drafts)) && Narrow(t, m, l)
    requires forall d, q :: SilentlyRewrites(table, tenant, drafts, d, q) ==> !Served(cache, KeyOf(q))
    requires Served(cache, CacheKey(t, m, l)) && !Announced(table, tenant, drafts, CacheKey(t, m, l))
    ensures Selected(WithTexts(table, tenant, drafts), t, m, l) == Selected(table, t, m, l)
  {
    hide Acceptable, WithTexts, SilentlyRewrites;
    var after := WithTexts(table, tenant, drafts);
    WithTextsSameRows(table, tenant, drafts);
    forall i: nat | i < |table|
      ensures table[i] == after[i] || !(Selects(table[i], t, m, l) || Selects(after[i], t, m, l))
    {
      ChangedIff(table, tenant, drafts, i);
      if after[i] != table[i] && Selects(table[i], t, m, l) {
        var d :| d in drafts && Targets(table[i], tenant, d) && d.text != table[i].text;
        RewritesSilently(table, tenant, drafts, d, table[i]);
      }
    }
    SelectedSame(table, after, t, m, l);
  }

  // ---------------------------------------------------------------- upserts

  /** No row has the draft's place under the unique constraint. */
  ghost predicate FreePlace(table: seq<Message>, tenant: string, d: Draft) {
    forall r <- table :: !(r.tenant == tenant && r.moduleName == d.moduleName && r.locale == d.locale && r.code == d.code)
  }

  /**
   * Either the update part is refused, which drops nothing, although a draft has created a row of a served answer; or
   * the batch goes through (something is created, or nothing was to be) and silently rewrites a row of a served answer
   * whose key no created draft carries.
   */
  ghost predicate UpsertLeavesStale(s: Store, tenant: string, drafts: seq<Draft>, ids: seq<string>)
    requires |ids| == |ToCreate(drafts)|
  {
    var saved := Saved(s.table, Enriched(tenant, ToCreate(drafts), ids));
    if !Acceptable(saved, tenant, Uuids(ToUpdate(drafts))) then
      exists c <- ToCreate(drafts) :: CreatesBehindCache(s, tenant, c)
    else
      && (ToCreate(drafts) == [] || exists c <- ToCreate(drafts) :: FreePlace(s.table, tenant, c))
      && exists d, q :: SilentlyRewrites(saved, tenant, ToUpdate(drafts), d, q) && Served(s.cache, KeyOf(q))
                        && CarriedByNone(tenant, ToCreate(drafts), q)
  }

  predicate CarriedByNone(tenant: string, drafts: seq<Draft>, q: Message) {
    forall c <- drafts :: CacheKey(tenant, c.moduleName, c.locale) != KeyOf(q)
  }

  /** The draft's row is new to the table and to a served answer. */
  ghost predicate CreatesBehindCache(s: Store, tenant: string, c: Draft) {
    && c.moduleName != "" && c.locale != "" && Served(s.cache, CacheKey(tenant, c.moduleName, c.locale))
    && FreePlace(s.table, tenant, c)
  }

  /** Uuids spelled as stored are enough for an update, and with acceptable ones for an upsert. */
  lemma AsStoredIsSafe(s: Store, tenant: string, drafts: seq<Draft>, ids: seq<string>)
    requires |ids| == |ToCreate(drafts)|
    ensures AsStored(drafts) ==> !UpdateLeavesStale(s, tenant, drafts)
    ensures AsStored(ToUpdate(drafts))
            && Acceptable(Saved(s.table, Enriched(tenant, ToCreate(drafts), ids)), tenant, Uuids(ToUpdate(drafts)))
            ==> !UpsertLeavesStale(s, tenant, drafts, ids)
  {
  }

  lemma {:induction false} SavedTakes(table: seq<Message>, messages: seq<Message>, m: Message)
    requires m in messages
    ensures Taken(Saved(table, messages), m)
  {
    var front, last := messages[..|messages| - 1], messages[|messages| - 1];
    assert messages == front + [last];
    if m in front {
      SavedTakes(table, front, m);
      var r :| r in Saved(table, front) && SameSlot(r, m);
      assert r in Saved(table, messages);
    } else if !Taken(Saved(table, front), last) {
      assert last in Saved(table, messages) && SameSlot(last, m);
    }
  }

  lemma {:induction false} ExtraUntaken(table: seq<Message>, messages: seq<Message>)
    ensures forall r <- Extra(table, messages) :: !Taken(table, r)
  {
    if messages != [] {
      var front, last := messages[..|messages| - 1], messages[|messages| - 1];
      ExtraUntaken(table, front);
      assert Extra(table, messages) == Extra(table, front) + if Taken(Saved(table, front), last) then [] else [last];
    }
  }

  /** Rows are added for exactly the keys of the drafts whose places are free. */
  lemma ExtraKeysIff(table: seq<Message>, tenant: string, drafts: seq<Draft>, ids: seq<string>, m: string, l: string)
    requires |ids| == |drafts|
    ensures (exists r <- Extra(table, Enriched(tenant, drafts, ids)) :: r.moduleName == m && r.locale == l)
       <==> exists c <- drafts :: c.moduleName == m && c.locale == l && FreePlace(table, tenant, c)
  {
    var messages := Enriched(tenant, drafts, ids);
    ExtraIn(table, messages);
    ExtraUntaken(table, messages);
    if r :| r in Extra(table, messages) && r.moduleName == m && r.locale == l {
      var i :| 0 <= i < |messages| && messages[i] == r;
      assert drafts[i] in drafts && FreePlace(table, tenant, drafts[i]);
    }
    if c :| c in drafts && c.moduleName == m && c.locale == l && FreePlace(table, tenant, c) {
      var i :| 0 <= i < |drafts| && drafts[i] == c;
      SavedTakes(table, messages, messages[i]);
      var r :| r in Saved(table, messages) && SameSlot(r, messages[i]);
      assert Saved(table, messages) == table + Extra(table, messages);
      assert r in Extra(table, messages);
    }
  }

  /** A batch to create conflicts as a whole exactly when no place is free. */
  lemma AllConflictIff(table: seq<Message>, tenant: string, drafts: seq<Draft>, ids: seq<string>)
    requires |ids| == |drafts|
    ensures AllConflict(table, Enriched(tenant, drafts, ids))
       <==> drafts != [] && forall c <- drafts :: !FreePlace(table, tenant, c)
  {
    var messages := Enriched(tenant, drafts, ids);
    assert Saved(table, messages) == table + Extra(table, messages);
    if c :| c in drafts && FreePlace(table, tenant, c) {
      ExtraKeysIff(table, tenant, drafts, ids, c.moduleName, c.locale);
    }
    if Extra(table, messages) != [] {
      var r := Extra(table, messages)[0];
      ExtraKeysIff(table, tenant, drafts, ids, r.moduleName, r.locale);
    }
  }

  lemma DropsConcat(a: seq<Message>, b: seq<Message>, key: string)
    ensures Drops(a + b, key) <==> Drops(a, key) || Drops(b, key)
  {
    assert forall r :: r in a + b <==> r in a || r in b;
  }

  /** A successful upsert is a creation followed by an update. */
  lemma UpsertIsCreateThenUpdate(s: Store, tenant: string, drafts: seq<Draft>, ids: seq<string>)
    requires |ids| == |ToCreate(drafts)| && !AllConflict(s.table, Enriched(tenant, ToCreate(drafts), ids))
    requires ToUpdate(drafts) == []
          || UuidError(Saved(s.table, Enriched(tenant, ToCreate(drafts), ids)), tenant, Uuids(ToUpdate(drafts))).None?
    ensures Upserted(s, tenant, drafts, ids).0
         == Updated(Created(s, tenant, ToCreate(drafts), ids).0, tenant, ToUpdate(drafts)).0
  {
    var created := Enriched(tenant, ToCreate(drafts), ids);
    var rows := TableUpdated(Saved(s.table, created), tenant, ToUpdate(drafts)).1.value;
    forall key ensures Drops(created + rows, key) <==> Drops(created, key) || Drops(rows, key) {
      DropsConcat(created, rows, key);
    }
    assert Invalidated(s.cache, created + rows) == Invalidated(Invalidated(s.cache, created), rows);
  }

  /** An upsert keeps the cache right exactly when it does neither. */
  lemma UpsertKeepsCoherentIff(s: Store, tenant: string, drafts: seq<Draft>, ids: seq<string>)
    requires |ids| == |ToCreate(drafts)| && CleanDrafts(tenant, ToCreate(drafts))
    requires ProperTable(s.table) && FreshIds(s.table, ids) && Coherent(s)
    ensures Coherent(Upserted(s, tenant, drafts, ids).0) <==> !UpsertLeavesStale(s, tenant, drafts, ids)
  {
    hide Coherent, Acceptable, SilentlyRewrites, FreePlace;
    var created := Enriched(tenant, ToCreate(drafts), ids);
    AllConflictIff(s.table, tenant, ToCreate(drafts), ids);
    EnrichedFresh(s.table, tenant, ToCreate(drafts), ids);
    SavedProper(s.table, created);
    AcceptedIff(Saved(s.table, created), tenant, Uuids(ToUpdate(drafts)));
    if !AllConflict(s.table, created) {
      if Acceptable(Saved(s.table, created), tenant, Uuids(ToUpdate(drafts))) {
        UpsertIsCreateThenUpdate(s, tenant, drafts, ids);
        AcceptedUpsertIff(s, tenant, drafts, ids);
      } else {
        NothingIsAcceptable(Saved(s.table, created), tenant);
        RefusedUpsertIff(s, tenant, drafts, ids);
      }
    }
  }

  lemma NothingIsAcceptable(table: seq<Message>, tenant: string)
    ensures Acceptable(table, tenant, Uuids([]))
  {
  }

  lemma CreatedKeepsCoherent(s: Store, tenant: string, drafts: seq<Draft>, ids: seq<string>)
    requires |ids| == |drafts| && CleanDrafts(tenant, drafts) && Coherent(s)
    ensures Coherent(Created(s, tenant, drafts, ids).0)
  {
    forall t, m, l | Narrow(t, m, l) ensures EntryRight(Created(s, tenant, drafts, ids).0, t, m, l) {
      assert EntryRight(s, t, m, l);
      CreatedKeepsEntry(s, tenant, drafts, ids, t, m, l);
    }
  }

  lemma AcceptedUpsertIff(s: Store, tenant: string, drafts: seq<Draft>, ids: seq<string>)
    requires |ids| == |ToCreate(drafts)| && CleanDrafts(tenant, ToCreate(drafts)) && Coherent(s)
    requires var created := Enriched(tenant, ToCreate(drafts), ids);
             && !AllConflict(s.table, created) && ProperTable(Saved(s.table, created))
             && Acceptable(Saved(s.table, created), tenant, Uuids(ToUpdate(drafts)))
    ensures var updated := Updated(Created(s, tenant, ToCreate(drafts), ids).0, tenant, ToUpdate(drafts)).0;
            Coherent(updated) <==> !UpsertLeavesStale(s, tenant, drafts, ids)
  {
    hide Coherent, Acceptable, FreePlace, CarriedByNone;
    var created := Enriched(tenant, ToCreate(drafts), ids);
    AllConflictIff(s.table, tenant, ToCreate(drafts), ids);
    CreatedKeepsCoherent(s, tenant, ToCreate(drafts), ids);
    UpdateKeepsCoherentIff(Created(s, tenant, ToCreate(drafts), ids).0, tenant, ToUpdate(drafts));
    forall q | q in Saved(s.table, created)
      ensures Served(Invalidated(s.cache, created), KeyOf(q))
         <==> Served(s.cache, KeyOf(q)) && CarriedByNone(tenant, ToCreate(drafts), q)
    {
      ServedIffCarriedByNone(s.cache, tenant, ToCreate(drafts), ids, q);
    }
  }

  lemma ServedIffCarriedByNone(cache: map<string, seq<Message>>, tenant: string, drafts: seq<Draft>, ids: seq<string>,
                               q: Message)
    requires |ids| == |drafts| && CleanRow(q)
    ensures Served(Invalidated(cache, Enriched(tenant, drafts, ids)), KeyOf(q))
       <==> Served(cache, KeyOf(q)) && CarriedByNone(tenant, drafts, q)
  {
    KeySplits(q.tenant, q.moduleName, q.locale);
    EnrichedKeys(tenant, drafts, ids, KeyOf(q));
  }

  lemma EnrichedKeys(tenant: string, drafts: seq<Draft>, ids: seq<string>, key: string)
    requires |ids| == |drafts|
    ensures (exists r <- Enriched(tenant, drafts, ids) :: KeyOf(r) == key)
       <==> exists c <- drafts :: CacheKey(tenant, c.moduleName, c.locale) == key
  {
    var messages := Enriched(tenant, drafts, ids);
    if c :| c in drafts && CacheKey(tenant, c.moduleName, c.locale) == key {
      var i :| 0 <= i < |drafts| && drafts[i] == c;
      assert messages[i] in messages && KeyOf(messages[i]) == key;
    }
  }

  lemma RefusedUpsertIff(s: Store, tenant: string, drafts: seq<Draft>, ids: seq<string>)
    requires |ids| == |ToCreate(drafts)| && CleanDrafts(tenant, ToCreate(drafts))
    requires FreshIds(s.table, ids) && Coherent(s)
    requires var after := Upserted(s, tenant, drafts, ids).0;
             after.cache == s.cache && after.table == Saved(s.table, Enriched(tenant, ToCreate(drafts), ids))
    ensures Coherent(Upserted(s, tenant, drafts, ids).0)
       <==> !exists c <- ToCreate(drafts) :: CreatesBehindCache(s, tenant, c)
  {
    var after := Upserted(s, tenant, drafts, ids).0;
    var created := Enriched(tenant, ToCreate(drafts), ids);
    ExtraIn(s.table, created);
    EnrichedFresh(s.table, tenant, ToCreate(drafts), ids);
    if c :| c in ToCreate(drafts) && CreatesBehindCache(s, tenant, c) {
      ExtraKeysIff(s.table, tenant, ToCreate(drafts), ids, c.moduleName, c.locale);
      var q :| q in Extra(s.table, created) && q.moduleName == c.moduleName && q.locale == c.locale;
      StoredBehindCache(s, after, created, q);
    } else {
      forall t, m, l | Narrow(t, m, l) ensures EntryRight(after, t, m, l) {
        assert EntryRight(s, t, m, l);
        SavedSelectedIff(s.table, created, t, m, l);
        ExtraKeysIff(s.table, tenant, ToCreate(drafts), ids, m, l);
        assert forall c <- ToCreate(drafts) :: !CreatesBehindCache(s, tenant, c);
      }
    }
  }

  lemma StoredBehindCache(s: Store, after: Store, created: seq<Message>, q: Message)
    requires Coherent(s) && FreshMessages(s.table, created) && q in created
    requires q in after.table && after.cache == s.cache
    requires q.moduleName != "" && q.locale != "" && Served(s.cache, KeyOf(q))
    ensures !Coherent(after)
  {
    var t, m, l := q.tenant, q.moduleName, q.locale;
    assert EntryRight(s, t, m, l) && Narrow(t, m, l);
    AnswerIn(s.table, t, m, l);
    AnswerIn(after.table, t, m, l);
    assert q in Answer(after.table, t, m, l) && q !in s.table;
    assert !EntryRight(after, t, m, l);
  }

  // ---------------------------------------------------------------- runs

  /** Clean keys and fresh uuids. */
  ghost predicate WellFormedOp(s: Store, op: Op) {
    && Supplied(op)
    && match op
       case Create(tenant, drafts, ids) => CleanDrafts(tenant, drafts) && FreshIds(s.table, ids)
       case Upsert(tenant, drafts, ids) => CleanDrafts(tenant, ToCreate(drafts)) && FreshIds(s.table, ids)
       case Search(tenant, moduleName, locale, _, _) => Clean(tenant) && Clean(moduleName) && Clean(locale)
       case _ => true
  }

  ghost predicate LeavesStale(s: Store, op: Op)
    requires Supplied(op)
  {
    match op
    case Update(tenant, drafts) => UpdateLeavesStale(s, tenant, drafts)
    case Upsert(tenant, drafts, ids) => UpsertLeavesStale(s, tenant, drafts, ids)
    case _ => false
  }

  ghost predicate WellFormedRun(s: Store, ops: seq<Op>)
    decreases |ops|
  {
    ops == [] || (WellFormedOp(s, ops[0]) && WellFormedRun(Applied(s, ops[0]), ops[1..]))
  }

  ghost predicate NeverLeavesStale(s: Store, ops: seq<Op>)
    requires WellFormedRun(s, ops)
    decreases |ops|
  {
    ops == [] || (!LeavesStale(s, ops[0]) && NeverLeavesStale(Applied(s, ops[0]), ops[1..]))
  }

  ghost predicate CoherentThroughout(s: Store, ops: seq<Op>)
    requires WellFormedRun(s, ops)
    decreases |ops|
  {
    Coherent(s) && (ops == [] || CoherentThroughout(Applied(s, ops[0]), ops[1..]))
  }

  lemma AppliedProper(s: Store, op: Op)
    requires WellFormedOp(s, op) && ProperTable(s.table)
    ensures ProperTable(Applied(s, op).table)
  {
    match op
    case Create(tenant, drafts, ids) =>
      EnrichedFresh(s.table, tenant, drafts, ids);
      SavedProper(s.table, Enriched(tenant, drafts, ids));
    case Update(tenant, drafts) =>
      WithTextsSameRows(s.table, tenant, drafts);
      SameRowsProper(s.table, WithTexts(s.table, tenant, drafts));
    case Upsert(tenant, drafts, ids) =>
      UpsertProper(s, tenant, drafts, ids);
    case Delete(tenant, uuids) =>
      WithoutProper(s.table, tenant, uuids);
    case Search(_, _, _, _, _) =>
  }

  lemma UpsertProper(s: Store, tenant: string, drafts: seq<Draft>, ids: seq<string>)
    requires |ids| == |ToCreate(drafts)| && CleanDrafts(tenant, ToCreate(drafts))
    requires FreshIds(s.table, ids) && ProperTable(s.table)
    ensures ProperTable(Upserted(s, tenant, drafts, ids).0.table)
  {
    var created := Enriched(tenant, ToCreate(drafts), ids);
    EnrichedFresh(s.table, tenant, ToCreate(drafts), ids);
    SavedProper(s.table, created);
    WithTextsSameRows(Saved(s.table, created), tenant, ToUpdate(drafts));
    SameRowsProper(Saved(s.table, created), WithTexts(Saved(s.table, created), tenant, ToUpdate(drafts)));
  }

  /** Only updates and upserts can leave a stale answer, and exactly under their conditions. */
  lemma AppliedCoherentIff(s: Store, op: Op)
    requires WellFormedOp(s, op) && ProperTable(s.table) && Coherent(s)
    ensures Coherent(Applied(s, op)) <==> !LeavesStale(s, op)
  {
    match op
    case Create(tenant, drafts, ids) => CreatedKeepsCoherent(s, tenant, drafts, ids);
    case Update(tenant, drafts) => UpdateKeepsCoherentIff(s, tenant, drafts);
    case Upsert(tenant, drafts, ids) => UpsertKeepsCoherentIff(s, tenant, drafts, ids);
    case Delete(tenant, uuids) =>
      forall t, m, l | Narrow(t, m, l) ensures EntryRight(Applied(s, op), t, m, l) {
        assert EntryRight(s, t, m, l);
        DeletedKeepsEntry(s, tenant, uuids, t, m, l);
      }
    case Search(tenant, moduleName, locale, limit, offset) =>
      forall t, m, l | Narrow(t, m, l) ensures EntryRight(Applied(s, op), t, m, l) {
        assert EntryRight(s, t, m, l);
        SearchedKeepsEntry(s, tenant, moduleName, locale, limit, offset, t, m, l);
      }
  }

  /** Over a whole run the cache is right at every moment exactly when no operation leaves a stale answer. */
  lemma {:induction false} RunCoherentIff(s: Store, ops: seq<Op>)
    requires WellFormedRun(s, ops) && ProperTable(s.table) && Coherent(s)
    ensures CoherentThroughout(s, ops) <==> NeverLeavesStale(s, ops)
    decreases |ops|
  {
    if ops != [] {
      AppliedProper(s, ops[0]);
      AppliedCoherentIff(s, ops[0]);
      if Coherent(Applied(s, ops[0])) {
        RunCoherentIff(Applied(s, ops[0]), ops[1..]);
      } else {
        assert !CoherentThroughout(Applied(s, ops[0]), ops[1..]);
      }
    }
  }

  lemma {:induction false} CoherentAtEnd(s: Store, ops: seq<Op>)
    requires WellFormedRun(s, ops) && CoherentThroughout(s, ops)
    requires forall op <- ops :: Supplied(op)
    ensures Coherent(Ran(s, ops))
    decreases |ops|
  {
    if ops != [] {
      CoherentAtEnd(Applied(s, ops[0]), ops[1..]);
    }
  }

  /** After such a run from the empty store every narrow search answers as the table does, cached or not. */
  lemma SearchAfterRun(ops: seq<Op>, t: string, m: string, l: string, limit: int, offset: int)
    requires (forall op <- ops :: Supplied(op)) && WellFormedRun(Store([], map[], map[]), ops)
    requires NeverLeavesStale(Store([], map[], map[]), ops) && Narrow(t, m, l)
    ensures var s := Ran(Store([], map[], map[]), ops);
            Searched(s, t, m, l, limit, offset).1 == FoundMessages(s.table, t, m, l, limit, offset)
  {
    RunCoherentIff(Store([], map[], map[]), ops);
    CoherentAtEnd(Store([], map[], map[]), ops);
    SearchAnswers(Ran(Store([], map[], map[]), ops), t, m, l, limit, offset);
  }

  // ---------------------------------------------------------------- where coherence stops

  /** The created row would belong to the answer. */
  predicate DraftSelected(tenant: string, c: Draft, t: string, m: string, l: string) {
    tenant == t && (m == "" || c.moduleName == m) && (l == "" || c.locale == l)
  }

  lemma ExtraSelectedIff(table: seq<Message>, tenant: string, drafts: seq<Draft>, ids: seq<string>, t: string,
                         m: string, l: string)
    requires |ids| == |drafts|
    ensures (exists r <- Extra(table, Enriched(tenant, drafts, ids)) :: Selects(r, t, m, l))
       <==> exists c <- drafts :: FreePlace(table, tenant, c) && DraftSelected(tenant, c, t, m, l)
  {
    hide FreePlace, Saved;
    var extra := Extra(table, Enriched(tenant, drafts, ids));
    ExtraIn(table, Enriched(tenant, drafts, ids));
    if r :| r in extra && Selects(r, t, m, l) {
      ExtraKeysIff(table, tenant, drafts, ids, r.moduleName, r.locale);
      assert exists q <- extra :: q.moduleName == r.moduleName && q.locale == r.locale;
    }
    if c :| c in drafts && FreePlace(table, tenant, c) && DraftSelected(tenant, c, t, m, l) {
      ExtraKeysIff(table, tenant, drafts, ids, c.moduleName, c.locale);
    }
  }

  /**
   * After a create, a cached answer for any module and locale, left open or not, is right exactly when a draft
   * carries that very module and locale, or none with a free place falls under it: with the module or the locale left
   * open, the rows it covers do not drop it.
   */
  lemma CreatedEntryIff(s: Store, tenant: string, drafts: seq<Draft>, ids: seq<string>, t: string, m: string, l: string)
    requires |ids| == |drafts| && CleanDrafts(tenant, drafts) && FreshIds(s.table, ids)
    requires Clean(t) && Clean(m) && Clean(l)
    requires Served(s.cache, CacheKey(t, m, l)) && EntryRight(s, t, m, l)
    ensures EntryRight(Created(s, tenant, drafts, ids).0, t, m, l)
       <==> (tenant == t && exists c <- drafts :: c.moduleName == m && c.locale == l)
            || forall c <- drafts :: FreePlace(s.table, tenant, c) ==> !DraftSelected(tenant, c, t, m, l)
  {
    hide FreePlace, Saved, Answer;
    var messages := Enriched(tenant, drafts, ids);
    var extra := Extra(s.table, messages);
    EnrichedFresh(s.table, tenant, drafts, ids);
    DropsIff(messages, t, m, l);
    EnrichedCarry(tenant, drafts, ids, m, l);
    ExtraSelectedIff(s.table, tenant, drafts, ids, t, m, l);
    if r :| r in extra && Selects(r, t, m, l) {
      AddedToAnswer(s.table, messages, r, t, m, l);
    } else {
      SavedSelectedIff(s.table, messages, t, m, l);
      SameSelectedSameAnswer(s.table, Saved(s.table, messages), t, m, l);
    }
  }

  lemma EnrichedCarry(tenant: string, drafts: seq<Draft>, ids: seq<string>, m: string, l: string)
    requires |ids| == |drafts|
    ensures (exists r <- Enriched(tenant, drafts, ids) :: r.moduleName == m && r.locale == l)
       <==> exists c <- drafts :: c.moduleName == m && c.locale == l
    ensures forall r <- Enriched(tenant, drafts, ids) :: r.tenant == tenant
  {
    var messages := Enriched(tenant, drafts, ids);
    if c :| c in drafts && c.moduleName == m && c.locale == l {
      var i :| 0 <= i < |drafts| && drafts[i] == c;
      assert messages[i] in messages;
    }
  }

  lemma SameSelectedSameAnswer(a: seq<Message>, b: seq<Message>, t: string, m: string, l: string)
    requires Selected(a, t, m, l) == Selected(b, t, m, l)
    ensures Answer(a, t, m, l) == Answer(b, t, m, l)
  {
  }

  lemma AddedToAnswer(table: seq<Message>, messages: seq<Message>, r: Message, t: string, m: string, l: string)
    requires FreshMessages(table, messages) && r in Extra(table, messages) && Selects(r, t, m, l)
    ensures Answer(Saved(table, messages), t, m, l) != Answer(table, t, m, l)
    ensures !AllConflict(table, messages)
  {
    ExtraIn(table, messages);
    AnswerIn(table, t, m, l);
    AnswerIn(Saved(table, messages), t, m, l);
    assert r in Saved(table, messages) && r !in table;
  }
}
