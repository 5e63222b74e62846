/** The localization repository, cache and service, each method against its specification. */
module LocalizationService {
  import opened Prelude
  import opened GoStrings
  import opened Lists
  import opened LocalizationModel

  class MessageRepository {
    var table: seq<Message>

    constructor ()
      ensures table == []
    {
      table := [];
    }

    /** Fails, changing nothing, when every message conflicts. */
    method SaveMessages(messages: seq<Message>) returns (ok: bool)
      modifies this
      ensures table == Saved(old(table), messages)
      ensures ok == !AllConflict(old(table), messages)
    {
      if |messages| == 0 { return true; }
      var affected := 0;
      for i := 0 to |messages|
        invariant table == Saved(old(table), messages[..i])
        invariant |table| == |old(table)| + affected
        invariant affected == 0 ==> table == old(table)
      {
        assert messages[..i + 1][..i] == messages[..i];
        if !Taken(table, messages[i]) {
          table := table + [messages[i]];
          affected := affected + 1;
        }
      }
      assert messages[..|messages|] == messages;
      ok := affected != 0;
    }

    method UpdateMessages(tenant: string, drafts: seq<Draft>) returns (r: Result<seq<Message>, MessageError>)
      modifies this
      ensures (table, r) == TableUpdated(old(table), tenant, drafts)
    {
      if |drafts| == 0 { return Ok([]); }
      var error := UuidError(table, tenant, Uuids(drafts));
      if error.Some? { return Err(error.value); }
      var existing: map<string, Message> := map[];
      var rows := Matching(table, tenant, Uuids(drafts));
      for i := 0 to |rows|
        invariant table == old(table)
        invariant forall u :: u in existing <==> RowOf(rows[..i], u).Some?
        invariant forall u <- existing :: RowOf(rows[..i], u) == Some(existing[u])
      {
        assert rows[..i + 1][..i] == rows[..i];
        existing := existing[rows[i].uuid := rows[i]];
      }
      assert rows[..|rows|] == rows;
      var updated: seq<Message> := [];
      for i := 0 to |drafts|
        invariant table == WithTexts(old(table), tenant, drafts[..i])
        invariant updated == UpdatedRows(rows, drafts[..i])
      {
        assert drafts[..i + 1][..i] == drafts[..i];
        table := WithText(table, tenant, drafts[i]);
        if drafts[i].uuid in existing {
          updated := updated + [existing[drafts[i].uuid].(text := drafts[i].text)];
        }
      }
      assert drafts[..|drafts|] == drafts;
      return Ok(updated);
    }

    method DeleteMessages(tenant: string, uuids: seq<string>) returns (error: Option<MessageError>)
      modifies this
      ensures error == if uuids == [] then None else UuidError(old(table), tenant, uuids)
      ensures table == if uuids != [] && error.None? then Without(old(table), tenant, uuids) else old(table)
    {
      if |uuids| == 0 { return None; }
      error := UuidError(table, tenant, uuids);
      if error.None? {
        table := Without(table, tenant, uuids);
      }
    }
  }

  class InMemoryMessageCache {
    var cache: map<string, seq<Message>>

    constructor ()
      ensures cache == map[]
    {
      cache := map[];
    }

    method GetMessages(tenant: string, moduleName: string, locale: string) returns (r: Option<seq<Message>>)
      ensures r == (var key := CacheKey(tenant, moduleName, locale);
                    if key in cache then Some(cache[key]) else None)
    {
      var key := CacheKey(tenant, moduleName, locale);
      if key !in cache { return None; }
      return Some(cache[key]);
    }

    method SetMessages(tenant: string, moduleName: string, locale: string, messages: seq<Message>)
      modifies this
      ensures cache == old(cache)[CacheKey(tenant, moduleName, locale) := messages]
    {
      cache := cache[CacheKey(tenant, moduleName, locale) := messages];
    }

    method Invalidate(tenant: string, moduleName: string, locale: string)
      modifies this
      ensures cache == old(cache) - {CacheKey(tenant, moduleName, locale)}
    {
      var key := CacheKey(tenant, moduleName, locale);
      if key in cache {
        cache := cache - {key};
      }
    }

    /** Module and locale are ignored: the whole tenant goes. */
    method BustCache(tenant: string)
      modifies this
      ensures cache == Busted(old(cache), tenant)
    {
      var prefix, keys := tenant + ":", cache.Keys;
      while keys != {}
        invariant keys <= old(cache).Keys
        invariant cache == map k | k in old(cache) && (k in keys || !OfTenant(k, tenant)) :: old(cache)[k]
        decreases |keys|
      {
        var key :| key in keys;
        keys := keys - {key};
        if |key| > |prefix| && key[..|prefix|] == prefix {
          cache := cache - {key};
        }
      }
    }
  }

  // ---------------------------------------------------------------- missing messages

  /** Code `c` is known in module `m`, locale `l` is used there, and `c` has no entry in `l`. */
  predicate Lacks(codes: Codes, l: string, c: string) {
    c in codes && l !in codes[c] && exists d <- codes :: l in codes[d]
  }

  predicate Reports(r: map<string, map<string, seq<string>>>, m: string, l: string, c: string) {
    m in r && l in r[m] && c in r[m][l]
  }

  method MissingCodes(codes: Codes, locale: string) returns (missing: seq<string>)
    ensures Distinct(missing)
    ensures forall c :: c in missing <==> c in codes && locale !in codes[c]
  {
    missing := [];
    var left := codes.Keys;
    while left != {}
      invariant left <= codes.Keys && Distinct(missing)
      invariant forall c :: c in missing <==> c in codes && c !in left && locale !in codes[c]
      decreases |left|
    {
      var code :| code in left;
      left := left - {code};
      if locale !in codes[code] {
        missing := missing + [code];
      }
    }
  }

  method MissingInModule(codes: Codes) returns (missing: map<string, seq<string>>)
    ensures forall l, c :: l in missing && c in missing[l] <==> Lacks(codes, l, c)
    ensures forall l <- missing :: missing[l] != [] && Distinct(missing[l])
  {
    missing := map[];
    var left := set c, l | c in codes && l in codes[c] :: l;
    ghost var locales := left;
    while left != {}
      invariant left <= locales
      invariant forall l <- missing :: l in locales - left && missing[l] != [] && Distinct(missing[l])
      invariant forall l, c :: l in missing && c in missing[l] <==> l in locales - left && Lacks(codes, l, c)
      decreases |left|
    {
      var locale :| locale in left;
      left := left - {locale};
      var missingCodes := MissingCodes(codes, locale);
      if |missingCodes| > 0 {
        missing := missing[locale := missingCodes];
      } else {
        assert forall c <- codes :: locale in codes[c] by {
          assert forall c <- codes :: c !in missingCodes;
        }
      }
    }
  }

  // ---------------------------------------------------------------- the service

  class MessageService {
    const repository: MessageRepository
    const cache: InMemoryMessageCache
    var messageLocales: LocaleIndex

    constructor (repository: MessageRepository, cache: InMemoryMessageCache)
      ensures this.repository == repository && this.cache == cache && messageLocales == map[]
    {
      this.repository, this.cache, messageLocales := repository, cache, map[];
    }

    ghost function State(): Store
      reads this, repository, cache
    {
      Store(repository.table, messageLocales, cache.cache)
    }

    method LoadAllMessages()
      modifies this
      ensures messageLocales == Loaded(repository.table)
    {
      var messages := repository.table;
      messageLocales := map[];
      for i := 0 to |messages|
        invariant messageLocales == Loaded(messages[..i])
      {
        assert messages[..i + 1][..i] == messages[..i];
        messageLocales := Entered(messageLocales, messages[i]);
      }
      assert messages[..|messages|] == messages;
    }

    /** No result for a tenant the index does not know; an empty module asks for all. */
    method FindMissingMessages(tenant: string, moduleName: string)
      returns (r: Option<map<string, map<string, seq<string>>>>)
      ensures r.None? <==> tenant !in messageLocales
      ensures r.Some? ==> forall m, l, c :: Reports(r.value, m, l, c) <==>
                (moduleName == "" || m == moduleName) && Lacks(CodesAt(messageLocales, tenant, m), l, c)
      ensures r.Some? ==> forall m <- r.value :: r.value[m] != map[] && forall l <- r.value[m] :: Distinct(r.value[m][l])
    {
      if tenant !in messageLocales { return None; }
      var data := messageLocales[tenant];
      var asked := if moduleName == "" then data.Keys else data.Keys * {moduleName};
      var left, result: map<string, map<string, seq<string>>> := asked, map[];
      while left != {}
        invariant left <= asked
        invariant forall m <- result :: m in asked - left
        invariant forall m <- result :: result[m] != map[] && forall l <- result[m] :: Distinct(result[m][l])
        invariant forall m, l, c :: Reports(result, m, l, c) <==> m in asked - left && Lacks(data[m], l, c)
        decreases |left|
      {
        var m :| m in left;
        left := left - {m};
        var missing := MissingInModule(data[m]);
        if |missing| > 0 {
          result := result[m := missing];
        }
      }
      return Some(result);
    }

    method NoteMessages(messages: seq<Message>)
      modifies this
      ensures messageLocales == NotedAll(old(messageLocales), messages)
    {
      for i := 0 to |messages|
        invariant messageLocales == NotedAll(old(messageLocales), messages[..i])
      {
        assert messages[..i + 1][..i] == messages[..i];
        messageLocales := Noted(messageLocales, messages[i]);
      }
      assert messages[..|messages|] == messages;
    }

    method InvalidateCacheForMessages(messages: seq<Message>)
      modifies cache
      ensures cache.cache == Invalidated(old(cache.cache), messages)
    {
      var keys: set<string> := {};
      for i := 0 to |messages|
        invariant unchanged(cache)
        invariant forall k :: k in keys <==> exists m <- messages[..i] :: KeyOf(m) == k
      {
        assert messages[..i + 1] == messages[..i] + [messages[i]];
        keys := keys + {KeyOf(messages[i])};
      }
      assert messages[..|messages|] == messages;
      var left := keys;
      while left != {}
        invariant left <= keys
        invariant cache.cache == map k | k in old(cache.cache) && !(k in keys - left && |Split(k, ':')| == 3)
                                     :: old(cache.cache)[k]
        decreases |left|
      {
        var key :| key in left;
        left := left - {key};
        var parts := Split(key, ':');
        if |parts| == 3 {
          PartsMakeKey(key);
          cache.Invalidate(parts[0], parts[1], parts[2]);
        }
      }
    }

    method CreateMessages(tenant: string, drafts: seq<Draft>, ids: seq<string>)
      returns (r: Result<seq<Message>, MessageError>)
      requires |ids| == |drafts|
      modifies this, repository, cache
      ensures (State(), r) == Created(old(State()), tenant, drafts, ids)
    {
      var messages := Enriched(tenant, drafts, ids);
      var ok := repository.SaveMessages(messages);
      if !ok { return Err(Duplicate); }
      InvalidateCacheForMessages(messages);
      NoteMessages(messages);
      return Ok(messages);
    }

    method UpdateMessages(tenant: string, drafts: seq<Draft>) returns (r: Result<seq<Message>, MessageError>)
      modifies repository, cache
      ensures (State(), r) == Updated(old(State()), tenant, drafts)
    {
      r := repository.UpdateMessages(tenant, drafts);
      if r.Ok? {
        InvalidateCacheForMessages(r.value);
      }
    }

    method UpsertMessages(tenant: string, drafts: seq<Draft>, ids: seq<string>)
      returns (r: Result<seq<Message>, MessageError>)
      requires |ids| == |ToCreate(drafts)|
      modifies this, repository, cache
      ensures (State(), r) == Upserted(old(State()), tenant, drafts, ids)
    {
      var toCreate, toUpdate: seq<Draft> := [], [];
      for i := 0 to |drafts|
        invariant toCreate == ToCreate(drafts[..i]) && toUpdate == ToUpdate(drafts[..i])
        invariant unchanged(this) && unchanged(repository) && unchanged(cache)
      {
        assert drafts[..i + 1][..i] == drafts[..i];
        if drafts[i].uuid == "" {
          toCreate := toCreate + [drafts[i]];
        } else {
          toUpdate := toUpdate + [drafts[i]];
        }
      }
      assert drafts[..|drafts|] == drafts;
      var messages := Enriched(tenant, toCreate, ids);
      var rows: seq<Message> := [];
      if |toCreate| > 0 {
        var ok := repository.SaveMessages(messages);
        if !ok { return Err(Duplicate); }
        NoteMessages(messages);
      }
      if |toUpdate| > 0 {
        var updated := repository.UpdateMessages(tenant, toUpdate);
        if updated.Err? { return updated; }
        rows := updated.value;
      }
      InvalidateCacheForMessages(messages + rows);
      return Ok(messages + rows);
    }

    method DeleteMessages(tenant: string, uuids: seq<string>) returns (error: Option<MessageError>)
      modifies repository, cache
      ensures (State(), error) == Deleted(old(State()), tenant, uuids)
    {
      cache.BustCache(tenant);
      error := repository.DeleteMessages(tenant, uuids);
    }

    method SearchMessages(tenant: string, moduleName: string, locale: string, limit: int, offset: int)
      returns (rows: seq<Message>)
      modifies cache
      ensures (State(), rows) == Searched(old(State()), tenant, moduleName, locale, limit, offset)
    {
      if limit > 0 {
        return FoundMessages(repository.table, tenant, moduleName, locale, limit, offset);
      }
      var cached := cache.GetMessages(tenant, moduleName, locale);
      if cached.Some? && |cached.value| > 0 {
        return cached.value;
      }
      rows := FoundMessages(repository.table, tenant, moduleName, locale, 0, 0);
      cache.SetMessages(tenant, moduleName, locale, rows);
    }
  }

  lemma PartsMakeKey(key: string)
    requires |Split(key, ':')| == 3
    ensures var parts := Split(key, ':'); CacheKey(parts[0], parts[1], parts[2]) == key
  {
    var parts := Split(key, ':');
    JoinOfSplit(key, ':');
    assert Join(parts[1..], ":") == parts[1] + ":" + parts[2] by {
      assert parts[1..][1..] == [parts[2]];
    }
    assert parts[0] + ":" + (parts[1] + ":" + parts[2]) == parts[0] + ":" + parts[1] + ":" + parts[2];
  }
}
