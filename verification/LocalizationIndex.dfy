/** The index of locales per code, over runs. */
module LocalizationIndex {
  import opened Lists
  import opened LocalizationModel
  import LocalizationService

  // ---------------------------------------------------------------- runs

  datatype Op =
    | Create(tenant: string, drafts: seq<Draft>, ids: seq<string>)
    | Update(tenant: string, drafts: seq<Draft>)
    | Upsert(tenant: string, drafts: seq<Draft>, ids: seq<string>)
    | Delete(tenant: string, uuids: seq<string>)
    | Search(tenant: string, moduleName: string, locale: string, limit: int, offset: int)

  /** One fresh uuid for each created message. */
  predicate Supplied(op: Op) {
    match op
    case Create(_, drafts, ids) => |ids| == |drafts|
    case Upsert(_, drafts, ids) => |ids| == |ToCreate(drafts)|
    case _ => true
  }

  function Applied(s: Store, op: Op): Store
    requires Supplied(op)
  {
    match op
    case Create(tenant, drafts, ids) => Created(s, tenant, drafts, ids).0
    case Update(tenant, drafts) => Updated(s, tenant, drafts).0
    case Upsert(tenant, drafts, ids) => Upserted(s, tenant, drafts, ids).0
    case Delete(tenant, uuids) => Deleted(s, tenant, uuids).0
    case Search(tenant, moduleName, locale, limit, offset) => Searched(s, tenant, moduleName, locale, limit, offset).0
  }

  function Ran(s: Store, ops: seq<Op>): Store
    requires forall op <- ops :: Supplied(op)
    decreases |ops|
  {
    if ops == [] then s else Ran(Applied(s, ops[0]), ops[1..])
  }

  // ---------------------------------------------------------------- the table's invariant

  ghost predicate UniqueSlots(table: seq<Message>) {
    forall i, j | 0 <= i < j < |table| :: !SameSlot(table[i], table[j])
  }

  lemma {:induction false} SavedUnique(table: seq<Message>, messages: seq<Message>)
    requires UniqueSlots(table)
    ensures UniqueSlots(Saved(table, messages))
  {
    if messages != [] {
      SavedUnique(table, messages[..|messages| - 1]);
    }
  }

  /** The same rows but for their texts. */
  ghost predicate SameRows(a: seq<Message>, b: seq<Message>) {
    |a| == |b| && forall i | 0 <= i < |a| :: b[i] == a[i].(text := b[i].text)
  }

  lemma {:induction false} WithTextsSameRows(table: seq<Message>, tenant: string, drafts: seq<Draft>)
    ensures SameRows(table, WithTexts(table, tenant, drafts))
  {
    if drafts != [] {
      WithTextsSameRows(table, tenant, drafts[..|drafts| - 1]);
    }
  }

  lemma {:induction false} WithoutIn(table: seq<Message>, tenant: string, uuids: seq<string>)
    ensures forall r :: r in Without(table, tenant, uuids) <==> r in table && !Hits(r, tenant, uuids)
    ensures |Without(table, tenant, uuids)| + |Matching(table, tenant, uuids)| == |table|
  {
    if table != [] {
      WithoutIn(table[1..], tenant, uuids);
      assert table == [table[0]] + table[1..];
    }
  }

  lemma {:induction false} WithoutUnique(table: seq<Message>, tenant: string, uuids: seq<string>)
    requires UniqueSlots(table)
    ensures UniqueSlots(Without(table, tenant, uuids))
  {
    if table != [] {
      var rest := Without(table[1..], tenant, uuids);
      WithoutUnique(table[1..], tenant, uuids);
      WithoutIn(table[1..], tenant, uuids);
      forall j | 0 <= j < |rest| ensures !SameSlot(table[0], rest[j]) {
        assert rest[j] in table[1..];
        var k :| 0 <= k < |table[1..]| && table[1..][k] == rest[j];
        assert table[k + 1] == rest[j];
      }
    }
  }

  lemma AppliedUnique(s: Store, op: Op)
    requires Supplied(op) && UniqueSlots(s.table)
    ensures UniqueSlots(Applied(s, op).table)
  {
    match op
    case Create(tenant, drafts, ids) =>
      SavedUnique(s.table, Enriched(tenant, drafts, ids));
    case Update(tenant, drafts) =>
      WithTextsSameRows(s.table, tenant, drafts);
    case Upsert(tenant, drafts, ids) =>
      var table := Saved(s.table, Enriched(tenant, ToCreate(drafts), ids));
      SavedUnique(s.table, Enriched(tenant, ToCreate(drafts), ids));
      WithTextsSameRows(table, tenant, ToUpdate(drafts));
    case Delete(tenant, uuids) =>
      WithoutUnique(s.table, tenant, uuids);
    case Search(_, _, _, _, _) =>
  }

  // ---------------------------------------------------------------- the index agrees with the table

  predicate HasRow(table: seq<Message>, t: string, m: string, c: string, l: string) {
    exists r <- table :: r.tenant == t && r.moduleName == m && r.code == c && r.locale == l
  }

  /** The locales noted for a code are those of its rows, each once, and a code is noted only with locales. */
  ghost predicate EntryAgrees(index: LocaleIndex, table: seq<Message>, t: string, m: string, c: string) {
    && Distinct(LocalesAt(index, t, m, c))
    && (c in CodesAt(index, t, m) ==> LocalesAt(index, t, m, c) != [])
    && (forall l :: l in LocalesAt(index, t, m, c) <==> HasRow(table, t, m, c, l))
  }

  ghost predicate Agrees(index: LocaleIndex, table: seq<Message>) {
    forall t, m, c :: EntryAgrees(index, table, t, m, c)
  }

  predicate IsEntry(msg: Message, t: string, m: string, c: string) {
    msg.tenant == t && msg.moduleName == m && msg.code == c
  }

  lemma EnteredAt(index: LocaleIndex, msg: Message, t: string, m: string, c: string)
    ensures LocalesAt(Entered(index, msg), t, m, c)
         == LocalesAt(index, t, m, c) + if IsEntry(msg, t, m, c) then [msg.locale] else []
    ensures c in CodesAt(Entered(index, msg), t, m) <==> c in CodesAt(index, t, m) || IsEntry(msg, t, m, c)
  {
  }

  lemma AppendedRow(table: seq<Message>, msg: Message, t: string, m: string, c: string, l: string)
    ensures HasRow(table + [msg], t, m, c, l) <==> HasRow(table, t, m, c, l) || (IsEntry(msg, t, m, c) && msg.locale == l)
  {
    assert msg in table + [msg];
    assert forall r <- table :: r in table + [msg];
  }

  lemma EnteredAgreesAt(index: LocaleIndex, table: seq<Message>, msg: Message, t: string, m: string, c: string)
    requires EntryAgrees(index, table, t, m, c) && !Taken(table, msg)
    ensures EntryAgrees(Entered(index, msg), table + [msg], t, m, c)
  {
    EnteredAt(index, msg, t, m, c);
    forall l ensures HasRow(table + [msg], t, m, c, l)
                <==> HasRow(table, t, m, c, l) || (IsEntry(msg, t, m, c) && msg.locale == l) {
      AppendedRow(table, msg, t, m, c, l);
    }
    if IsEntry(msg, t, m, c) {
      TakenIffRow(table, msg);
    }
  }

  lemma TakenIffRow(table: seq<Message>, msg: Message)
    ensures Taken(table, msg) <==> HasRow(table, msg.tenant, msg.moduleName, msg.code, msg.locale)
  {
  }

  lemma EnteredAgrees(index: LocaleIndex, table: seq<Message>, msg: Message)
    requires Agrees(index, table) && !Taken(table, msg)
    ensures Agrees(Entered(index, msg), table + [msg])
  {
    forall t, m, c ensures EntryAgrees(Entered(index, msg), table + [msg], t, m, c) {
      EnteredAgreesAt(index, table, msg, t, m, c);
    }
  }

  lemma NotedAgrees(index: LocaleIndex, table: seq<Message>, msg: Message)
    requires Agrees(index, table)
    ensures Agrees(Noted(index, msg), SavedOne(table, msg))
  {
    TakenIffRow(table, msg);
    assert EntryAgrees(index, table, msg.tenant, msg.moduleName, msg.code);
    if !Taken(table, msg) {
      EnteredAgrees(index, table, msg);
    }
  }

  /** A batch saved and noted, conflicts included. */
  lemma {:induction false} BatchAgrees(index: LocaleIndex, table: seq<Message>, messages: seq<Message>)
    requires Agrees(index, table)
    ensures Agrees(NotedAll(index, messages), Saved(table, messages))
  {
    if messages != [] {
      var front := messages[..|messages| - 1];
      BatchAgrees(index, table, front);
      NotedAgrees(NotedAll(index, front), Saved(table, front), messages[|messages| - 1]);
    }
  }

  lemma LastNotTaken(front: seq<Message>, last: Message)
    requires UniqueSlots(front + [last])
    ensures !Taken(front, last)
  {
    forall r | r in front ensures !SameSlot(r, last) {
      var i :| 0 <= i < |front| && front[i] == r;
      assert (front + [last])[i] == r && (front + [last])[|front|] == last;
    }
  }

  lemma {:induction false} LoadedAgrees(table: seq<Message>)
    requires UniqueSlots(table)
    ensures Agrees(Loaded(table), table)
  {
    if table != [] {
      var front, last := table[..|table| - 1], table[|table| - 1];
      LoadedAgrees(front);
      assert table == front + [last];
      LastNotTaken(front, last);
      EnteredAgrees(Loaded(front), front, last);
    }
  }

  lemma SameRowsAgree(index: LocaleIndex, a: seq<Message>, b: seq<Message>)
    requires Agrees(index, a) && SameRows(a, b)
    ensures Agrees(index, b)
  {
    forall t, m, c ensures EntryAgrees(index, b, t, m, c) {
      assert EntryAgrees(index, a, t, m, c);
      forall l ensures HasRow(a, t, m, c, l) <==> HasRow(b, t, m, c, l) {
        SameRowsHave(a, b, t, m, c, l);
      }
    }
  }

  lemma SameRowsHave(a: seq<Message>, b: seq<Message>, t: string, m: string, c: string, l: string)
    requires SameRows(a, b)
    ensures HasRow(a, t, m, c, l) <==> HasRow(b, t, m, c, l)
  {
    if r :| r in a && r.tenant == t && r.moduleName == m && r.code == c && r.locale == l {
      var i :| 0 <= i < |a| && a[i] == r;
      assert b[i] in b;
    }
    if r :| r in b && r.tenant == t && r.moduleName == m && r.code == c && r.locale == l {
      var i :| 0 <= i < |b| && b[i] == r;
      assert a[i] in a;
    }
  }

  lemma AppliedAgrees(s: Store, op: Op)
    requires Supplied(op) && !op.Delete? && Agrees(s.index, s.table)
    ensures Agrees(Applied(s, op).index, Applied(s, op).table)
  {
    match op
    case Create(tenant, drafts, ids) =>
      BatchAgrees(s.index, s.table, Enriched(tenant, drafts, ids));
    case Update(tenant, drafts) =>
      WithTextsSameRows(s.table, tenant, drafts);
      SameRowsAgree(s.index, s.table, WithTexts(s.table, tenant, drafts));
    case Upsert(tenant, drafts, ids) =>
      UpsertAgrees(s, tenant, drafts, ids);
    case Search(_, _, _, _, _) =>
  }

  lemma UpsertAgrees(s: Store, tenant: string, drafts: seq<Draft>, ids: seq<string>)
    requires |ids| == |ToCreate(drafts)| && Agrees(s.index, s.table)
    ensures var after := Upserted(s, tenant, drafts, ids).0; Agrees(after.index, after.table)
  {
    var created := Enriched(tenant, ToCreate(drafts), ids);
    var index, table := NotedAll(s.index, created), Saved(s.table, created);
    BatchAgrees(s.index, s.table, created);
    WithTextsSameRows(table, tenant, ToUpdate(drafts));
    SameRowsAgree(index, table, WithTexts(table, tenant, ToUpdate(drafts)));
  }

  /** From a load on, creates, updates, upserts and searches keep the index equal to the table, failing or not. */
  lemma {:induction false} RunAgrees(s: Store, ops: seq<Op>)
    requires Agrees(s.index, s.table)
    requires forall op <- ops :: Supplied(op) && !op.Delete?
    ensures Agrees(Ran(s, ops).index, Ran(s, ops).table)
    decreases |ops|
  {
    if ops != [] {
      assert ops[0] in ops;
      AppliedAgrees(s, ops[0]);
      RunAgrees(Applied(s, ops[0]), ops[1..]);
    }
  }

  // ---------------------------------------------------------------- missing messages

  /** The code and the locale are both in use in the module, on no common row. */
  predicate MissingIn(table: seq<Message>, t: string, m: string, l: string, c: string) {
    && (exists r <- table :: IsEntry(r, t, m, c))
    && (exists r <- table :: r.tenant == t && r.moduleName == m && r.locale == l)
    && !HasRow(table, t, m, c, l)
  }

  lemma LacksIffMissing(index: LocaleIndex, table: seq<Message>, t: string, m: string, l: string, c: string)
    requires Agrees(index, table)
    ensures LocalizationService.Lacks(CodesAt(index, t, m), l, c) <==> MissingIn(table, t, m, l, c)
  {
    assert EntryAgrees(index, table, t, m, c);
    CodeIffRow(index, table, t, m, c);
    LocaleIffRow(index, table, t, m, l);
  }

  lemma CodeIffRow(index: LocaleIndex, table: seq<Message>, t: string, m: string, c: string)
    requires EntryAgrees(index, table, t, m, c)
    ensures c in CodesAt(index, t, m) <==> exists r <- table :: IsEntry(r, t, m, c)
  {
    if c in CodesAt(index, t, m) {
      var l := LocalesAt(index, t, m, c)[0];
      assert HasRow(table, t, m, c, l);
    }
    if r :| r in table && IsEntry(r, t, m, c) {
      assert HasRow(table, t, m, c, r.locale);
    }
  }

  lemma LocaleIffRow(index: LocaleIndex, table: seq<Message>, t: string, m: string, l: string)
    requires Agrees(index, table)
    ensures (exists d <- CodesAt(index, t, m) :: l in CodesAt(index, t, m)[d])
       <==> exists r <- table :: r.tenant == t && r.moduleName == m && r.locale == l
  {
    var codes := CodesAt(index, t, m);
    if d :| d in codes && l in codes[d] {
      assert EntryAgrees(index, table, t, m, d) && l in LocalesAt(index, t, m, d);
    }
    if r :| r in table && r.tenant == t && r.moduleName == m && r.locale == l {
      assert EntryAgrees(index, table, t, m, r.code) && HasRow(table, t, m, r.code, l);
      assert l in LocalesAt(index, t, m, r.code);
    }
  }

  /** After any run without deletes a code is reported under a locale exactly when the table says so. */
  lemma MissingAfterRun(table: seq<Message>, cache: map<string, seq<Message>>, ops: seq<Op>, t: string)
    requires UniqueSlots(table)
    requires forall op <- ops :: Supplied(op) && !op.Delete?
    ensures var after := Ran(Store(table, Loaded(table), cache), ops);
            forall m, l, c :: LocalizationService.Lacks(CodesAt(after.index, t, m), l, c)
                         <==> MissingIn(after.table, t, m, l, c)
  {
    var s := Store(table, Loaded(table), cache);
    LoadedAgrees(table);
    RunAgrees(s, ops);
    var after := Ran(s, ops);
    forall m, l, c ensures LocalizationService.Lacks(CodesAt(after.index, t, m), l, c)
                      <==> MissingIn(after.table, t, m, l, c) {
      LacksIffMissing(after.index, after.table, t, m, l, c);
    }
  }

  // ---------------------------------------------------------------- deletes

  /** A delete leaves the index right exactly when it names no message or its uuids are refused. */
  lemma DeleteAgreesIff(s: Store, tenant: string, uuids: seq<string>)
    requires Agrees(s.index, s.table) && UniqueSlots(s.table)
    ensures var after := Deleted(s, tenant, uuids).0;
            Agrees(after.index, after.table) <==> uuids == [] || UuidError(s.table, tenant, uuids).Some?
  {
    var (after, error) := Deleted(s, tenant, uuids);
    if error.None? && uuids != [] {
      MatchingIn(s.table, tenant, uuids);
      var gone := Matching(s.table, tenant, uuids)[0];
      assert gone in s.table && Hits(gone, tenant, uuids);
      WithoutIn(s.table, tenant, uuids);
      RowGone(s.table, after.table, gone);
      assert EntryAgrees(s.index, s.table, gone.tenant, gone.moduleName, gone.code);
      assert gone.locale in LocalesAt(s.index, gone.tenant, gone.moduleName, gone.code);
      assert !EntryAgrees(after.index, after.table, gone.tenant, gone.moduleName, gone.code);
    }
  }

  lemma {:induction false} MatchingIn(table: seq<Message>, tenant: string, uuids: seq<string>)
    ensures forall r :: r in Matching(table, tenant, uuids) <==> r in table && Hits(r, tenant, uuids)
  {
    if table != [] {
      MatchingIn(table[1..], tenant, uuids);
      assert table == [table[0]] + table[1..];
    }
  }

  lemma RowGone(table: seq<Message>, after: seq<Message>, gone: Message)
    requires UniqueSlots(table) && gone in table && gone !in after && forall r <- after :: r in table
    ensures !HasRow(after, gone.tenant, gone.moduleName, gone.code, gone.locale)
  {
    forall r | r in after ensures !SameSlot(r, gone) {
      var i :| 0 <= i < |table| && table[i] == r;
      var j :| 0 <= j < |table| && table[j] == gone;
    }
  }

  /** With deletes the index never loses a row; it may keep what is gone. */
  ghost predicate Covers(index: LocaleIndex, table: seq<Message>) {
    forall r <- table :: r.locale in LocalesAt(index, r.tenant, r.moduleName, r.code)
  }

  lemma {:induction false} BatchCovers(index: LocaleIndex, table: seq<Message>, messages: seq<Message>)
    requires Covers(index, table)
    ensures Covers(NotedAll(index, messages), Saved(table, messages))
  {
    if messages != [] {
      var front, last := messages[..|messages| - 1], messages[|messages| - 1];
      BatchCovers(index, table, front);
      NotedCovers(NotedAll(index, front), Saved(table, front), last);
    }
  }

  lemma NotedCovers(index: LocaleIndex, table: seq<Message>, msg: Message)
    requires Covers(index, table)
    ensures Covers(Noted(index, msg), SavedOne(table, msg))
  {
    forall r | r in SavedOne(table, msg) ensures r.locale in LocalesAt(Noted(index, msg), r.tenant, r.moduleName, r.code) {
      EnteredAt(index, msg, r.tenant, r.moduleName, r.code);
    }
  }

  lemma SameRowsCovered(index: LocaleIndex, a: seq<Message>, b: seq<Message>)
    requires Covers(index, a) && SameRows(a, b)
    ensures Covers(index, b)
  {
    forall r | r in b ensures r.locale in LocalesAt(index, r.tenant, r.moduleName, r.code) {
      var i :| 0 <= i < |b| && b[i] == r;
      assert a[i] in a;
    }
  }

  lemma UpsertCovers(s: Store, tenant: string, drafts: seq<Draft>, ids: seq<string>)
    requires |ids| == |ToCreate(drafts)| && Covers(s.index, s.table)
    ensures var after := Upserted(s, tenant, drafts, ids).0; Covers(after.index, after.table)
  {
    var created := Enriched(tenant, ToCreate(drafts), ids);
    var index, table := NotedAll(s.index, created), Saved(s.table, created);
    BatchCovers(s.index, s.table, created);
    WithTextsSameRows(table, tenant, ToUpdate(drafts));
    SameRowsCovered(index, table, WithTexts(table, tenant, ToUpdate(drafts)));
  }

  lemma AppliedCovers(s: Store, op: Op)
    requires Supplied(op) && Covers(s.index, s.table)
    ensures Covers(Applied(s, op).index, Applied(s, op).table)
  {
    match op
    case Create(tenant, drafts, ids) =>
      BatchCovers(s.index, s.table, Enriched(tenant, drafts, ids));
    case Update(tenant, drafts) =>
      WithTextsSameRows(s.table, tenant, drafts);
      SameRowsCovered(s.index, s.table, WithTexts(s.table, tenant, drafts));
    case Upsert(tenant, drafts, ids) =>
      UpsertCovers(s, tenant, drafts, ids);
    case Delete(tenant, uuids) =>
      WithoutIn(s.table, tenant, uuids);
    case Search(_, _, _, _, _) =>
  }

  lemma {:induction false} RunCovers(s: Store, ops: seq<Op>)
    requires Covers(s.index, s.table) && forall op <- ops :: Supplied(op)
    ensures Covers(Ran(s, ops).index, Ran(s, ops).table)
    decreases |ops|
  {
    if ops != [] {
      assert ops[0] in ops;
      AppliedCovers(s, ops[0]);
      RunCovers(Applied(s, ops[0]), ops[1..]);
    }
  }

  // ---------------------------------------------------------------- what it holds exactly, deletes included

  /** The messages an operation asks to create, whatever becomes of them. */
  function DraftedBy(op: Op): seq<Message>
    requires Supplied(op)
  {
    match op
    case Create(tenant, drafts, ids) => Enriched(tenant, drafts, ids)
    case Upsert(tenant, drafts, ids) => Enriched(tenant, ToCreate(drafts), ids)
    case _ => []
  }

  function Drafted(ops: seq<Op>): seq<Message>
    requires forall op <- ops :: Supplied(op)
    decreases |ops|
  {
    if ops == [] then [] else DraftedBy(ops[0]) + Drafted(ops[1..])
  }

  /** Every row has its place in the ledger. */
  ghost predicate Within(table: seq<Message>, ledger: seq<Message>) { forall r <- table :: Taken(ledger, r) }

  lemma SameSlotsAgree(index: LocaleIndex, a: seq<Message>, b: seq<Message>)
    requires Agrees(index, a) && Within(a, b) && Within(b, a)
    ensures Agrees(index, b)
  {
    forall t, m, c ensures EntryAgrees(index, b, t, m, c) {
      assert EntryAgrees(index, a, t, m, c);
      forall l ensures HasRow(a, t, m, c, l) <==> HasRow(b, t, m, c, l) {
        WithinHas(a, b, t, m, c, l);
        WithinHas(b, a, t, m, c, l);
      }
    }
  }

  lemma WithinHas(a: seq<Message>, b: seq<Message>, t: string, m: string, c: string, l: string)
    requires Within(a, b)
    ensures HasRow(a, t, m, c, l) ==> HasRow(b, t, m, c, l)
  {
    if r :| r in a && r.tenant == t && r.moduleName == m && r.code == c && r.locale == l {
      assert Taken(b, r);
    }
  }

  lemma WithinConcat(a: seq<Message>, b: seq<Message>)
    ensures Within(a, a + b) && Within(b, a + b)
  {
    forall r | r in a || r in b ensures Taken(a + b, r) {
      assert r in a + b && SameSlot(r, r);
    }
  }

  lemma WithinMore(table: seq<Message>, ledger: seq<Message>, more: seq<Message>)
    requires Within(table, ledger)
    ensures Within(table, ledger + more)
  {
    forall r | r in table ensures Taken(ledger + more, r) {
      var q :| q in ledger && SameSlot(q, r);
      assert q in ledger + more;
    }
  }

  lemma {:induction false} BatchHolds(index: LocaleIndex, ledger: seq<Message>, messages: seq<Message>)
    requires Agrees(index, ledger)
    ensures Agrees(NotedAll(index, messages), ledger + messages)
  {
    if messages == [] {
      assert ledger + messages == ledger;
    } else {
      var front, last := messages[..|messages| - 1], messages[|messages| - 1];
      BatchHolds(index, ledger, front);
      NotedHolds(NotedAll(index, front), ledger + front, last);
      assert ledger + front + [last] == ledger + messages;
    }
  }

  lemma NotedHolds(index: LocaleIndex, ledger: seq<Message>, msg: Message)
    requires Agrees(index, ledger)
    ensures Agrees(Noted(index, msg), ledger + [msg])
  {
    hide Agrees, Within, Noted, Taken;
    NotedAgrees(index, ledger, msg);
    if Taken(ledger, msg) {
      WithinConcat(ledger, [msg]);
      RepeatWithin(ledger, msg);
      SameSlotsAgree(Noted(index, msg), ledger, ledger + [msg]);
    }
  }

  lemma RepeatWithin(ledger: seq<Message>, msg: Message)
    requires Taken(ledger, msg)
    ensures Within(ledger + [msg], ledger)
  {
    forall r | r in ledger + [msg] ensures Taken(ledger, r) {
      if r != msg { assert r in ledger && SameSlot(r, r); }
    }
  }

  lemma {:induction false} SavedWithin(table: seq<Message>, messages: seq<Message>)
    ensures forall r <- Saved(table, messages) :: r in table || r in messages
    ensures Within(messages, Saved(table, messages))
  {
    if messages != [] {
      var front, last := messages[..|messages| - 1], messages[|messages| - 1];
      assert messages == front + [last];
      SavedWithin(table, front);
      WithinMore(front, Saved(table, front), [last]);
      assert !Taken(Saved(table, front), last) ==> last in Saved(table, messages) && SameSlot(last, last);
    }
  }

  /** A batch that is refused as a whole had its places in the table, and so in the ledger, already. */
  lemma RefusedHolds(index: LocaleIndex, ledger: seq<Message>, table: seq<Message>, messages: seq<Message>)
    requires Agrees(index, ledger) && Within(table, ledger) && Saved(table, messages) == table
    ensures Agrees(index, ledger + messages)
  {
    SavedWithin(table, messages);
    WithinConcat(ledger, messages);
    forall r | r in ledger + messages ensures Taken(ledger, r) {
      if r in ledger {
        assert SameSlot(r, r);
      } else {
        var q :| q in table && SameSlot(q, r);
        assert Taken(ledger, q);
      }
    }
    SameSlotsAgree(index, ledger, ledger + messages);
  }

  lemma CreatingHolds(s: Store, ledger: seq<Message>, messages: seq<Message>)
    requires Agrees(s.index, ledger) && Within(s.table, ledger)
    ensures Within(Saved(s.table, messages), ledger + messages)
    ensures Agrees(if AllConflict(s.table, messages) then s.index else NotedAll(s.index, messages), ledger + messages)
  {
    SavedWithin(s.table, messages);
    WithinMore(s.table, ledger, messages);
    WithinConcat(ledger, messages);
    BatchHolds(s.index, ledger, messages);
    if AllConflict(s.table, messages) { RefusedHolds(s.index, ledger, s.table, messages); }
  }

  lemma SameRowsWithin(a: seq<Message>, b: seq<Message>, ledger: seq<Message>)
    requires Within(a, ledger) && SameRows(a, b)
    ensures Within(b, ledger)
  {
    forall r | r in b ensures Taken(ledger, r) {
      var i :| 0 <= i < |b| && b[i] == r;
      assert a[i] in a && Taken(ledger, a[i]);
    }
  }

  lemma AppliedHolds(s: Store, op: Op, ledger: seq<Message>)
    requires Supplied(op) && Agrees(s.index, ledger) && Within(s.table, ledger)
    ensures Agrees(Applied(s, op).index, ledger + DraftedBy(op))
    ensures Within(Applied(s, op).table, ledger + DraftedBy(op))
  {
    hide Agrees, Within, Saved, NotedAll, WithTexts, Without;
    match op
    case Create(tenant, drafts, ids) =>
      CreatingHolds(s, ledger, Enriched(tenant, drafts, ids));
      WithinMore(s.table, ledger, DraftedBy(op));
    case Update(tenant, drafts) =>
      assert ledger + [] == ledger;
      WithTextsSameRows(s.table, tenant, drafts);
      SameRowsWithin(s.table, WithTexts(s.table, tenant, drafts), ledger);
    case Upsert(tenant, drafts, ids) =>
      UpsertHolds(s, tenant, drafts, ids, ledger);
    case Delete(tenant, uuids) =>
      assert ledger + [] == ledger;
      WithoutWithin(s.table, tenant, uuids, ledger);
    case Search(_, _, _, _, _) =>
      assert ledger + [] == ledger;
  }

  lemma WithoutWithin(table: seq<Message>, tenant: string, uuids: seq<string>, ledger: seq<Message>)
    requires Within(table, ledger)
    ensures Within(Without(table, tenant, uuids), ledger)
  {
    WithoutIn(table, tenant, uuids);
  }

  lemma UpsertHolds(s: Store, tenant: string, drafts: seq<Draft>, ids: seq<string>, ledger: seq<Message>)
    requires |ids| == |ToCreate(drafts)| && Agrees(s.index, ledger) && Within(s.table, ledger)
    ensures var (after, all) := (Upserted(s, tenant, drafts, ids).0, ledger + Enriched(tenant, ToCreate(drafts), ids));
            Agrees(after.index, all) && Within(after.table, all)
  {
    hide Agrees, Within, Saved, NotedAll, WithTexts;
    var created := Enriched(tenant, ToCreate(drafts), ids);
    var table := Saved(s.table, created);
    CreatingHolds(s, ledger, created);
    WithinMore(s.table, ledger, created);
    WithTextsSameRows(table, tenant, ToUpdate(drafts));
    SameRowsWithin(table, WithTexts(table, tenant, ToUpdate(drafts)), ledger + created);
  }

  /**
   * From a load on, over any run: the index holds, each once, exactly the places of the rows loaded and of the messages
   * the run has asked to create, refused and deleted ones included.
   */
  lemma RunHoldsDrafted(s: Store, ops: seq<Op>)
    requires Agrees(s.index, s.table) && forall op <- ops :: Supplied(op)
    ensures Agrees(Ran(s, ops).index, s.table + Drafted(ops))
  {
    forall r | r in s.table ensures Taken(s.table, r) { assert SameSlot(r, r); }
    RunHolds(s, ops, s.table);
  }

  lemma {:induction false} RunHolds(s: Store, ops: seq<Op>, ledger: seq<Message>)
    requires Agrees(s.index, ledger) && Within(s.table, ledger) && forall op <- ops :: Supplied(op)
    ensures Agrees(Ran(s, ops).index, ledger + Drafted(ops))
    decreases |ops|
  {
    hide Agrees, Within;
    if ops == [] {
      assert ledger + Drafted(ops) == ledger;
    } else {
      assert ops[0] in ops;
      AppliedHolds(s, ops[0], ledger);
      RunHolds(Applied(s, ops[0]), ops[1..], ledger + DraftedBy(ops[0]));
      assert ledger + DraftedBy(ops[0]) + Drafted(ops[1..]) == ledger + (DraftedBy(ops[0]) + Drafted(ops[1..]));
    }
  }
}
