/**
 * Requests after which the cache or the index no longer agrees with the table, each from a table of one row: a uuid in
 * capitals, an upsert that fails in its update part, an answer with an open module, and a delete.
 */
module LocalizationExamples {
  import opened Prelude
  import opened LocalizationModel
  import opened LocalizationIndex
  import opened LocalizationAnswers
  import opened LocalizationUpdates
  import opened LocalizationCache

  /** A well-formed uuid with a first digit of choice. */
  function Uuid(digit: char): string {
    seq(36, i => if i == 0 then digit else if i == 8 || i == 13 || i == 18 || i == 23 then '-' else 'a')
  }

  const HELLO := Message(Uuid('a'), "t", "m", "l", "c", "old")

  /** One row, known to the index, and its answer cached under `key`. */
  function OneRow(key: string): Store { Store([HELLO], Loaded([HELLO]), map[key := [HELLO]]) }

  lemma OneRowAnswer(t: string, m: string, l: string)
    ensures Answer([HELLO], t, m, l) == if Selects(HELLO, t, m, l) then [HELLO] else []
  {
    var none: seq<Message> := [];
    assert [HELLO][1..] == none && [HELLO] + none == [HELLO] && none + none == none;
    assert Selected(none, t, m, l) == none && ByCode(none) == none;
    assert ByCode([HELLO]) == Placed(none, HELLO);
  }

  lemma OneRowIsProper()
    ensures ProperTable([HELLO])
  {
  }

  lemma OneRowIsCoherent()
    ensures Coherent(OneRow(CacheKey("t", "m", "l")))
  {
    forall t, m, l | Narrow(t, m, l) ensures EntryRight(OneRow(CacheKey("t", "m", "l")), t, m, l) {
      if CacheKey(t, m, l) == CacheKey("t", "m", "l") {
        KeyInjective(t, m, l, "t", "m", "l");
        OneRowAnswer(t, m, l);
      }
    }
  }

  lemma HelloAcceptable(uuid: string)
    requires uuid == Uuid('a') || uuid == Uuid('A')
    ensures Lower(uuid) == Uuid('a') && Acceptable([HELLO], "t", [uuid])
  {
    assert Lower(uuid) == Uuid('a');
    assert Targets(HELLO, "t", Draft(uuid, "", "", "", "")) && HELLO in [HELLO];
  }

  /** An update that spells the uuid with a capital is stored, and the old text goes on being served. */
  lemma CapitalUuidStale()
    ensures var s := OneRow(CacheKey("t", "m", "l"));
            var (after, r) := Updated(s, "t", [Draft(Uuid('A'), "m", "l", "c", "new")]);
            ProperTable(s.table) && Coherent(s) && r == Ok([]) && !Coherent(after)
  {
    var s, d := OneRow(CacheKey("t", "m", "l")), Draft(Uuid('A'), "m", "l", "c", "new");
    OneRowIsProper();
    OneRowIsCoherent();
    HelloAcceptable(Uuid('A'));
    assert Uuids([d]) == [Uuid('A')];
    assert Lower(Uuid('A'))[0] != Uuid('A')[0];
    AcceptedIff(s.table, "t", [Uuid('A')]);
    assert SilentlyRewrites(s.table, "t", [d], d, HELLO);
    UpdateKeepsCoherentIff(s, "t", [d]);
    NoneReturned(s, d);
  }

  lemma NoneReturned(s: Store, d: Draft)
    requires s.table == [HELLO] && d.uuid == Uuid('A') && UuidError(s.table, "t", Uuids([d])).None?
    ensures Updated(s, "t", [d]).1 == Ok([])
  {
    var rows := Matching(s.table, "t", Uuids([d]));
    MatchingIn(s.table, "t", Uuids([d]));
    assert Uuid('A')[0] != Uuid('a')[0];
    RowOfIs(rows, d.uuid);
    assert RowOf(rows, d.uuid).None?;
    assert [d][..0] == [] && UpdatedRows(rows, []) + [] == [];
  }

  /** An upsert whose update part names an unknown uuid keeps what it created, and the old answer goes on being served. */
  lemma MixedUpsertStale()
    ensures var s := OneRow(CacheKey("t", "m", "l"));
            var drafts := [Draft("", "m", "l", "d", "x"), Draft(Uuid('b'), "m", "l", "c", "new")];
            ToCreate(drafts) == [drafts[0]] && Upserted(s, "t", drafts, ["1"]).1.Err?
            && Coherent(s) && !Coherent(Upserted(s, "t", drafts, ["1"]).0)
  {
    var s, c, d := OneRow(CacheKey("t", "m", "l")), Draft("", "m", "l", "d", "x"), Draft(Uuid('b'), "m", "l", "c", "new");
    hide Coherent, Acceptable, Upserted;
    OneRowIsProper();
    OneRowIsCoherent();
    SplitInTwo(c, d);
    var saved := Saved(s.table, Enriched("t", [c], ["1"]));
    UnknownIsRefused(saved, c, d);
    assert CreatesBehindCache(s, "t", c) && c in [c];
    UpsertKeepsCoherentIff(s, "t", [c, d], ["1"]);
    RefusedIsError(s, [c, d], ["1"]);
  }

  lemma RefusedIsError(s: Store, drafts: seq<Draft>, ids: seq<string>)
    requires |ids| == |ToCreate(drafts)| && ToUpdate(drafts) != []
    requires UuidError(Saved(s.table, Enriched("t", ToCreate(drafts), ids)), "t", Uuids(ToUpdate(drafts))).Some?
    ensures Upserted(s, "t", drafts, ids).1.Err?
  {
  }

  lemma SplitInTwo(c: Draft, d: Draft)
    requires c.uuid == "" && d.uuid != ""
    ensures ToCreate([c, d]) == [c] && ToUpdate([c, d]) == [d]
  {
    assert [c, d][..1] == [c] && [c][..0] == [];
    assert ToCreate([]) == [] && ToUpdate([]) == [];
    assert ToCreate([c]) == [] + [c] && ToUpdate([c]) == [] + [];
  }

  lemma UnknownIsRefused(saved: seq<Message>, c: Draft, d: Draft)
    requires saved == Saved([HELLO], Enriched("t", [c], ["1"])) && CleanDrafts("t", [c]) && d.uuid == Uuid('b')
    ensures FreshIds([HELLO], ["1"])
    ensures !Acceptable(saved, "t", Uuids([d])) && UuidError(saved, "t", Uuids([d])).Some?
  {
    var messages := Enriched("t", [c], ["1"]);
    ExtraIn([HELLO], messages);
    assert saved == [HELLO] + Extra([HELLO], messages);
    assert Uuids([d])[0] == Uuid('b');
    assert Lower(Uuid('b'))[0] == 'b' && Uuid('a')[0] == 'a';
    assert |Lower(Uuid('b'))| == 36 && |"1"| == 1;
    assert !Present(saved, "t", Uuid('b'));
    OneRowIsProper();
    assert Lower("1") == "1" && HELLO.uuid !in ["1"];
    EnrichedFresh([HELLO], "t", [c], ["1"]);
    SavedProper([HELLO], messages);
    AcceptedIff(saved, "t", Uuids([d]));
  }

  /** An answer for every module of a locale goes on being served after a row of that locale is created. */
  lemma OpenModuleStale()
    ensures var s := OneRow(CacheKey("t", "", "l"));
            var after := Created(s, "t", [Draft("", "m", "l", "d", "x")], ["1"]).0;
            EntryRight(s, "t", "", "l") && !EntryRight(after, "t", "", "l")
  {
    hide Answer, Created;
    var s, c := OneRow(CacheKey("t", "", "l")), Draft("", "m", "l", "d", "x");
    OneRowAnswer("t", "", "l");
    assert Lower("1") == "1" && HELLO.uuid !in ["1"];
    assert FreePlace(s.table, "t", c) && c in [c];
    CreatedEntryIff(s, "t", [c], ["1"], "t", "", "l");
  }

  /** After its only row is deleted the index still lists the code. */
  lemma DeletedStaysIndexed()
    ensures var s := OneRow(CacheKey("t", "m", "l"));
            var (after, error) := Deleted(s, "t", [Uuid('a')]);
            Agrees(s.index, s.table) && error.None? && !Agrees(after.index, after.table)
  {
    var s := OneRow(CacheKey("t", "m", "l"));
    LoadedAgrees(s.table);
    OneRowIsProper();
    HelloAcceptable(Uuid('a'));
    AcceptedIff(s.table, "t", [Uuid('a')]);
    DeleteAgreesIff(s, "t", [Uuid('a')]);
  }
}
