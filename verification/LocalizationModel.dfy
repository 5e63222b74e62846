/** Localization messages: the table, the index of locales per code, and the read cache, as values. */
module LocalizationModel {
  import opened Prelude
  import opened GoStrings
  import opened Sql

  datatype Message = Message(uuid: string, tenant: string, moduleName: string, locale: string, code: string, text: string)

  /** A message of a request; an empty uuid asks for creation. */
  datatype Draft = Draft(uuid: string, moduleName: string, locale: string, code: string, text: string)

  datatype MessageError = Duplicate | InvalidUuid | UuidNotFound

  type Codes = map<string, seq<string>>
  type Modules = map<string, Codes>
  /** Tenant, module, code, locales. */
  type LocaleIndex = map<string, Modules>

  datatype Store = Store(table: seq<Message>, index: LocaleIndex, cache: map<string, seq<Message>>)

  // ---------------------------------------------------------------- the table

  /** The columns of the unique constraint. */
  predicate SameSlot(a: Message, b: Message) {
    a.tenant == b.tenant && a.locale == b.locale && a.moduleName == b.moduleName && a.code == b.code
  }

  predicate Taken(table: seq<Message>, m: Message) { exists r <- table :: SameSlot(r, m) }

  function SavedOne(table: seq<Message>, m: Message): seq<Message> {
    if Taken(table, m) then table else table + [m]
  }

  /** Insert, doing nothing on conflict with a stored row or an earlier one of the batch. */
  function Saved(table: seq<Message>, messages: seq<Message>): (r: seq<Message>)
    ensures table <= r
  {
    if messages == [] then table else SavedOne(Saved(table, messages[..|messages| - 1]), messages[|messages| - 1])
  }

  predicate IsHex(c: char) { '0' <= c <= '9' || 'a' <= c <= 'f' || 'A' <= c <= 'F' }

  /** Hex digits in groups of 8, 4, 4, 4 and 12. */
  predicate IsValidUUID(u: string) {
    |u| == 36 && forall i | 0 <= i < |u| :: if i in {8, 13, 18, 23} then u[i] == '-' else IsHex(u[i])
  }

  /** The column holds uuids in lower case and is compared as uuid, so a request may spell one in upper case. */
  function Lower(u: string): string {
    seq(|u|, i requires 0 <= i < |u| => if 'A' <= u[i] <= 'F' then u[i] - 'A' + 'a' else u[i])
  }

  predicate Hits(r: Message, tenant: string, uuids: seq<string>) {
    r.tenant == tenant && exists u <- uuids :: Lower(u) == r.uuid
  }

  function Matching(table: seq<Message>, tenant: string, uuids: seq<string>): seq<Message> {
    if table == [] then []
    else (if Hits(table[0], tenant, uuids) then [table[0]] else []) + Matching(table[1..], tenant, uuids)
  }

  /** The validation before an update or a delete: every format, then one row counted per uuid given. */
  function UuidError(table: seq<Message>, tenant: string, uuids: seq<string>): Option<MessageError> {
    if exists u <- uuids :: !IsValidUUID(u) then Some(InvalidUuid)
    else if |Matching(table, tenant, uuids)| != |uuids| then Some(UuidNotFound)
    else None
  }

  function WithText(table: seq<Message>, tenant: string, d: Draft): seq<Message> {
    seq(|table|, i requires 0 <= i < |table| =>
      if table[i].tenant == tenant && table[i].uuid == Lower(d.uuid) then table[i].(text := d.text) else table[i])
  }

  function WithTexts(table: seq<Message>, tenant: string, drafts: seq<Draft>): seq<Message> {
    if drafts == [] then table
    else WithText(WithTexts(table, tenant, drafts[..|drafts| - 1]), tenant, drafts[|drafts| - 1])
  }

  /** The rows as read before the update, each with the text of its draft. */
  function UpdatedRows(rows: seq<Message>, drafts: seq<Draft>): seq<Message> {
    if drafts == [] then []
    else
      var d := drafts[|drafts| - 1];
      UpdatedRows(rows, drafts[..|drafts| - 1])
      + (match RowOf(rows, d.uuid)
         case None => []
         case Some(r) => [r.(text := d.text)])
  }

  /** The last row entered under a uuid, as a map filled in order would hold it; its keys are plain strings. */
  function RowOf(rows: seq<Message>, uuid: string): Option<Message> {
    if rows == [] then None
    else if rows[|rows| - 1].uuid == uuid then Some(rows[|rows| - 1])
    else RowOf(rows[..|rows| - 1], uuid)
  }

  function Without(table: seq<Message>, tenant: string, uuids: seq<string>): seq<Message> {
    if table == [] then []
    else (if Hits(table[0], tenant, uuids) then [] else [table[0]]) + Without(table[1..], tenant, uuids)
  }

  // ---------------------------------------------------------------- reading

  predicate Selects(r: Message, tenant: string, moduleName: string, locale: string) {
    && r.tenant == tenant
    && (moduleName == "" || r.moduleName == moduleName)
    && (locale == "" || r.locale == locale)
  }

  function Selected(table: seq<Message>, tenant: string, moduleName: string, locale: string): seq<Message> {
    if table == [] then []
    else (if Selects(table[0], tenant, moduleName, locale) then [table[0]] else [])
         + Selected(table[1..], tenant, moduleName, locale)
  }

  /** Code order, character by character. */
  predicate UpTo(a: string, b: string) {
    a == "" || (b != "" && (a[0] < b[0] || (a[0] == b[0] && UpTo(a[1..], b[1..]))))
  }

  function Placed(sorted: seq<Message>, m: Message): seq<Message> {
    if sorted == [] then [m]
    else if UpTo(m.code, sorted[0].code) then [m] + sorted
    else [sorted[0]] + Placed(sorted[1..], m)
  }

  function ByCode(rows: seq<Message>): seq<Message> {
    if rows == [] then [] else Placed(ByCode(rows[1..]), rows[0])
  }

  function Answer(table: seq<Message>, tenant: string, moduleName: string, locale: string): seq<Message> {
    ByCode(Selected(table, tenant, moduleName, locale))
  }

  /** Paging only under a positive limit. */
  function FoundMessages(table: seq<Message>, tenant: string, moduleName: string, locale: string, limit: int,
                         offset: int)
    : seq<Message>
  {
    var rows := Answer(table, tenant, moduleName, locale);
    if limit > 0 then Page(rows, limit, offset) else rows
  }

  // ---------------------------------------------------------------- the index

  function ModulesAt(index: LocaleIndex, t: string): Modules { if t in index then index[t] else map[] }

  function CodesAt(index: LocaleIndex, t: string, m: string): Codes {
    if m in ModulesAt(index, t) then ModulesAt(index, t)[m] else map[]
  }

  function LocalesAt(index: LocaleIndex, t: string, m: string, c: string): seq<string> {
    if c in CodesAt(index, t, m) then CodesAt(index, t, m)[c] else []
  }

  function Entered(index: LocaleIndex, m: Message): LocaleIndex {
    var locales := LocalesAt(index, m.tenant, m.moduleName, m.code) + [m.locale];
    index[m.tenant := ModulesAt(index, m.tenant)[
            m.moduleName := CodesAt(index, m.tenant, m.moduleName)[m.code := locales]]]
  }

  function Noted(index: LocaleIndex, m: Message): LocaleIndex {
    if m.locale in LocalesAt(index, m.tenant, m.moduleName, m.code) then index else Entered(index, m)
  }

  function NotedAll(index: LocaleIndex, messages: seq<Message>): LocaleIndex {
    if messages == [] then index
    else Noted(NotedAll(index, messages[..|messages| - 1]), messages[|messages| - 1])
  }

  /** From scratch, a row at a time, without looking for repeats. */
  function Loaded(messages: seq<Message>): LocaleIndex {
    if messages == [] then map[]
    else Entered(Loaded(messages[..|messages| - 1]), messages[|messages| - 1])
  }

  // ---------------------------------------------------------------- the cache

  function CacheKey(tenant: string, moduleName: string, locale: string): string {
    tenant + ":" + moduleName + ":" + locale
  }

  function KeyOf(m: Message): string { CacheKey(m.tenant, m.moduleName, m.locale) }

  /** A key is only dropped when it splits back into three parts. */
  predicate Drops(messages: seq<Message>, key: string) {
    |Split(key, ':')| == 3 && exists m <- messages :: KeyOf(m) == key
  }

  function Invalidated(cache: map<string, seq<Message>>, messages: seq<Message>): map<string, seq<Message>> {
    map k | k in cache && !Drops(messages, k) :: cache[k]
  }

  predicate OfTenant(key: string, tenant: string) {
    |key| > |tenant + ":"| && HasPrefix(key, tenant + ":")
  }

  function Busted(cache: map<string, seq<Message>>, tenant: string): map<string, seq<Message>> {
    map k | k in cache && !OfTenant(k, tenant) :: cache[k]
  }

  // ---------------------------------------------------------------- what the operations do

  /** `ids` are the fresh uuids of the created rows. */
  function Enriched(tenant: string, drafts: seq<Draft>, ids: seq<string>): seq<Message>
    requires |ids| == |drafts|
  {
    seq(|drafts|, i requires 0 <= i < |drafts| =>
      Message(ids[i], tenant, drafts[i].moduleName, drafts[i].locale, drafts[i].code, drafts[i].text))
  }

  predicate AllConflict(table: seq<Message>, messages: seq<Message>) {
    messages != [] && Saved(table, messages) == table
  }

  function Created(s: Store, tenant: string, drafts: seq<Draft>, ids: seq<string>)
    : (Store, Result<seq<Message>, MessageError>)
    requires |ids| == |drafts|
  {
    var messages := Enriched(tenant, drafts, ids);
    if AllConflict(s.table, messages) then (s, Err(Duplicate))
    else (Store(Saved(s.table, messages), NotedAll(s.index, messages), Invalidated(s.cache, messages)), Ok(messages))
  }

  function Uuids(drafts: seq<Draft>): seq<string> {
    seq(|drafts|, i requires 0 <= i < |drafts| => drafts[i].uuid)
  }

  /** The repository's update: all rows or none. */
  function TableUpdated(table: seq<Message>, tenant: string, drafts: seq<Draft>)
    : (seq<Message>, Result<seq<Message>, MessageError>)
  {
    if drafts == [] then (table, Ok([]))
    else
      match UuidError(table, tenant, Uuids(drafts))
      case Some(e) => (table, Err(e))
      case None =>
        (WithTexts(table, tenant, drafts), Ok(UpdatedRows(Matching(table, tenant, Uuids(drafts)), drafts)))
  }

  function Updated(s: Store, tenant: string, drafts: seq<Draft>): (Store, Result<seq<Message>, MessageError>) {
    var (table, r) := TableUpdated(s.table, tenant, drafts);
    match r
    case Err(e) => (s, Err(e))
    case Ok(rows) => (s.(table := table, cache := Invalidated(s.cache, rows)), Ok(rows))
  }

  function ToCreate(drafts: seq<Draft>): seq<Draft> {
    if drafts == [] then []
    else ToCreate(drafts[..|drafts| - 1])
         + if drafts[|drafts| - 1].uuid == "" then [drafts[|drafts| - 1]] else []
  }

  function ToUpdate(drafts: seq<Draft>): seq<Draft> {
    if drafts == [] then []
    else ToUpdate(drafts[..|drafts| - 1])
         + if drafts[|drafts| - 1].uuid != "" then [drafts[|drafts| - 1]] else []
  }

  /** Creation and update in separate transactions; a failing update leaves what was created, uninvalidated. */
  function Upserted(s: Store, tenant: string, drafts: seq<Draft>, ids: seq<string>)
    : (Store, Result<seq<Message>, MessageError>)
    requires |ids| == |ToCreate(drafts)|
  {
    var created := Enriched(tenant, ToCreate(drafts), ids);
    if AllConflict(s.table, created) then (s, Err(Duplicate))
    else
      var saved := s.(table := Saved(s.table, created), index := NotedAll(s.index, created));
      var (table, r) := TableUpdated(saved.table, tenant, ToUpdate(drafts));
      match r
      case Err(e) => (saved, Err(e))
      case Ok(rows) => (saved.(table := table, cache := Invalidated(s.cache, created + rows)), Ok(created + rows))
  }

  /** The tenant's cache is dropped before the delete is tried. */
  function Deleted(s: Store, tenant: string, uuids: seq<string>): (Store, Option<MessageError>) {
    var busted := s.(cache := Busted(s.cache, tenant));
    if uuids == [] then (busted, None)
    else
      match UuidError(s.table, tenant, uuids)
      case Some(e) => (busted, Some(e))
      case None => (busted.(table := Without(s.table, tenant, uuids)), None)
  }

  /** Paged searches bypass the cache; an empty entry is not a hit. */
  function Searched(s: Store, tenant: string, moduleName: string, locale: string, limit: int, offset: int)
    : (Store, seq<Message>)
  {
    var key := CacheKey(tenant, moduleName, locale);
    if limit > 0 then (s, FoundMessages(s.table, tenant, moduleName, locale, limit, offset))
    else if key in s.cache && |s.cache[key]| > 0 then (s, s.cache[key])
    else
      var rows := FoundMessages(s.table, tenant, moduleName, locale, 0, 0);
      (s.(cache := s.cache[key := rows]), rows)
  }
}
