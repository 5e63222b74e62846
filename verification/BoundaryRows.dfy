/** The rows that writes leave and searches answer. */
module BoundaryRows {
  import opened Prelude
  import opened GoStrings
  import opened Lists
  import opened Sql
  import opened Glob
  import opened BoundaryCache
  import opened BoundaryBatches
  import opened BoundaryRuns

  // ---------------------------------------------------------------- updating

  /** The i-th change is to this row and sends this field. */
  predicate Sends(b: Boundary, tenant: string, changes: seq<Change>, i: nat, field: Change -> string) {
    i < |changes| && changes[i].id == b.id && tenant == b.tenant && field(changes[i]) != ""
  }

  /** The value sent last for a field among the first `n` changes, or the old one if none is sent. */
  ghost predicate LastSent(was: string, stored: string, b: Boundary, tenant: string, changes: seq<Change>, n: nat,
                           field: Change -> string) {
    if exists i: nat | i < n :: Sends(b, tenant, changes, i, field) then
      exists i: nat | i < n :: (&& Sends(b, tenant, changes, i, field) && stored == field(changes[i])
                                && forall j: nat | i < j < n :: !Sends(b, tenant, changes, j, field))
    else stored == was
  }

  ghost predicate RowSent(b: Boundary, stored: Boundary, tenant: string, changes: seq<Change>, n: nat) {
    && stored.id == b.id && stored.tenant == b.tenant
    && LastSent(b.code, stored.code, b, tenant, changes, n, (c: Change) => c.code)
    && LastSent(b.geometry, stored.geometry, b, tenant, changes, n, (c: Change) => c.geometry)
    && LastSent(b.details, stored.details, b, tenant, changes, n, (c: Change) => c.details)
  }

  lemma LastSentNext(was: string, stored: string, b: Boundary, tenant: string, changes: seq<Change>, n: nat,
                     field: Change -> string)
    requires n < |changes| && LastSent(was, stored, b, tenant, changes, n, field)
    ensures LastSent(was, if Sends(b, tenant, changes, n, field) then field(changes[n]) else stored,
                     b, tenant, changes, n + 1, field)
  {
  }

  lemma {:induction false} RowSentHolds(b: Boundary, tenant: string, changes: seq<Change>, n: nat)
    requires n <= |changes|
    ensures RowSent(b, RowAfter(b, tenant, changes[..n]), tenant, changes, n)
  {
    if n > 0 {
      hide LastSent;
      RowSentHolds(b, tenant, changes, n - 1);
      assert changes[..n][..n - 1] == changes[..n - 1];
      var before := RowAfter(b, tenant, changes[..n - 1]);
      LastSentNext(b.code, before.code, b, tenant, changes, n - 1, (c: Change) => c.code);
      LastSentNext(b.geometry, before.geometry, b, tenant, changes, n - 1, (c: Change) => c.geometry);
      LastSentNext(b.details, before.details, b, tenant, changes, n - 1, (c: Change) => c.details);
    }
  }

  /** No two rows of one tenant have one code. */
  predicate CodesApart(table: seq<Boundary>) {
    forall p, q | 0 <= p < q < |table| :: !(table[p].tenant == table[q].tenant && table[p].code == table[q].code)
  }

  /** The table as the first `n` changes of a batch make it. */
  ghost predicate Sent(table: seq<Boundary>, after: seq<Boundary>, tenant: string, changes: seq<Change>, n: nat) {
    |after| == |table| && forall p | 0 <= p < |table| :: RowSent(table[p], after[p], tenant, changes, n)
  }

  /** The entries as before, but for those whose key matches the pattern of one of these codes. */
  ghost predicate EntriesKept(before: map<string, seq<Boundary>>, after: map<string, seq<Boundary>>, tenant: string,
                              codes: set<string>) {
    && (forall k :: k in after <==>
          k in before && !exists c <- codes :: Accepts(k, tenant + ":boundary:search:*" + c + "*"))
    && (forall k <- after :: after[k] == before[k])
  }

  lemma InvalidatedKeeps(cache: map<string, seq<Boundary>>, tenant: string, codes: seq<string>)
    ensures EntriesKept(cache, Invalidated(cache, tenant, codes), tenant, set c | c in codes)
  {
    hide Accepts;
    forall c ensures CodePattern(tenant, c) == tenant + ":boundary:search:*" + c + "*" {
      assert ":boundary:search:" + "*" == ":boundary:search:*";
      assert SearchPrefix(tenant) + "*" == tenant + ":boundary:search:*";
    }
  }

  /**
   * A batch naming an unknown row changes nothing. Any other is carried out change by change up to the first one after
   * which two rows would share a code; each field is at the last value sent for it by then, and only a batch that is
   * carried out whole drops entries.
   */
  lemma UpdatedRows(s: Store, tenant: string, changes: seq<Change>) returns (states: seq<seq<Boundary>>, k: nat)
    requires CodesApart(s.table) && forall p, q | 0 <= p < q < |s.table| :: s.table[p].id != s.table[q].id
    ensures Perform(s, UpdateOp(tenant, changes)) == Updated(s, tenant, changes).0
    ensures |states| == |changes| + 1 && forall n | 0 <= n <= |changes| :: Sent(s.table, states[n], tenant, changes, n)
    ensures k <= |changes| && (forall n | 0 <= n <= k :: CodesApart(states[n]))
    ensures k < |changes| ==> !CodesApart(states[k + 1])
    ensures var (s', error) := Updated(s, tenant, changes);
            if exists c <- changes :: forall b <- s.table :: b.id != c.id || b.tenant != tenant then
              s' == s && error == Some(NotFound)
            else
              && s'.table == states[k] && s'.nextId == s.nextId
              && error == (if k < |changes| then Some(ConstraintViolation) else None)
              && if k < |changes| then s'.cache == s.cache
                 else EntriesKept(s.cache, s'.cache, tenant, set c | c in changes :: c.code)
  {
    hide RowAfter, RowSent, EntriesKept, Clashes;
    var table := s.table;
    states := seq(|changes| + 1, n requires 0 <= n <= |changes| => TableAfter(table, tenant, changes[..n]));
    forall n | 0 <= n <= |changes| ensures Sent(table, states[n], tenant, changes, n) {
      forall p | 0 <= p < |table| ensures RowSent(table[p], states[n][p], tenant, changes, n) {
        RowSentHolds(table[p], tenant, changes, n);
      }
    }
    UpdateStopsAtFirstClash(s, tenant, changes);
    k := FirstClash(table, tenant, changes, 0);
    ApartUntil(table, tenant, changes, k);
    InvalidatedKeeps(s.cache, tenant, ChangeCodes(changes));
    CodesSent(changes);
    assert changes[..|changes|] == changes;
  }

  lemma CodesSent(changes: seq<Change>)
    ensures (set c | c in ChangeCodes(changes)) == set c | c in changes :: c.code
  {
    forall c | c in changes ensures c.code in ChangeCodes(changes) {
      var i :| 0 <= i < |changes| && changes[i] == c;
      assert ChangeCodes(changes)[i] == c.code;
    }
  }

  lemma {:induction false} ApartUntil(table: seq<Boundary>, tenant: string, changes: seq<Change>, k: nat)
    requires CodesApart(table) && UniqueIds(table) && k <= |changes|
    requires forall i: nat | i < k :: !Clashes(table, tenant, changes, i)
    ensures forall n | 0 <= n <= k :: CodesApart(TableAfter(table, tenant, changes[..n]))
    ensures k < |changes| && Clashes(table, tenant, changes, k) ==> !CodesApart(TableAfter(table, tenant, changes[..k + 1]))
  {
    hide Clashes, RowAfter;
    if k == 0 {
      NothingChanged(table, tenant, changes);
    } else {
      ApartUntil(table, tenant, changes, k - 1);
      ClashBreaksUnique(table, tenant, changes, k - 1);
    }
    if k < |changes| { ClashBreaksUnique(table, tenant, changes, k); }
  }

  lemma NothingChanged(table: seq<Boundary>, tenant: string, changes: seq<Change>)
    ensures TableAfter(table, tenant, changes[..0]) == table
  {
  }

  // ---------------------------------------------------------------- creating

  /** Why a draft is refused: a missing field first, then its geometry, then a row that has its code. */
  predicate Refuses(table: seq<Boundary>, tenant: string, d: Draft, error: BoundaryError) {
    if tenant == "" || d.code == "" then error == MissingField
    else if !d.geometryValid then error == InvalidGeometry
    else error == DuplicateCode && exists b <- table :: b.tenant == tenant && b.code == d.code
  }

  predicate Refused(table: seq<Boundary>, tenant: string, drafts: seq<Draft>, i: nat) {
    && i < |drafts|
    && (tenant == "" || drafts[i].code == "" || !drafts[i].geometryValid
        || exists b <- table :: b.tenant == tenant && b.code == drafts[i].code)
  }

  ghost predicate FirstRefused(table: seq<Boundary>, tenant: string, drafts: seq<Draft>, i: nat) {
    Refused(table, tenant, drafts, i) && forall j | 0 <= j < i :: !Refused(table, tenant, drafts, j)
  }

  lemma {:induction false} FirstErrorIs(table: seq<Boundary>, tenant: string, drafts: seq<Draft>)
    ensures match FirstDraftError(table, tenant, drafts)
            case None => forall i | 0 <= i < |drafts| :: !Refused(table, tenant, drafts, i)
            case Some(e) => exists i: nat :: FirstRefused(table, tenant, drafts, i) && Refuses(table, tenant, drafts[i], e)
  {
    if drafts != [] {
      FirstErrorIs(table, tenant, drafts[1..]);
      assert forall i | 1 <= i < |drafts| ::
               Refused(table, tenant, drafts, i) <==> Refused(table, tenant, drafts[1..], i - 1);
      if DraftError(table, tenant, drafts[0]).Some? {
        assert FirstRefused(table, tenant, drafts, 0);
      } else if FirstDraftError(table, tenant, drafts).Some? {
        var e := FirstDraftError(table, tenant, drafts).value;
        var i: nat :| FirstRefused(table, tenant, drafts[1..], i) && Refuses(table, tenant, drafts[1..][i], e);
        assert FirstRefused(table, tenant, drafts, i + 1);
      }
    }
  }

  /** A row that holds a draft. */
  predicate HoldsDraft(b: Boundary, id: nat, tenant: string, d: Draft) {
    b.id == id && b.tenant == tenant && b.code == d.code && b.geometry == d.geometry && b.details == d.details
  }

  /**
   * A creation reports the first draft refused, then an empty batch, then two drafts with one code, changing nothing;
   * otherwise it appends the drafts' rows in order and drops the entries of their codes.
   */
  lemma CreatedRows(s: Store, tenant: string, drafts: seq<Draft>)
    requires CodesApart(s.table)
    ensures Perform(s, CreateOp(tenant, drafts)) == Created(s, tenant, drafts).0
    ensures var (s', error) := Created(s, tenant, drafts);
            if exists i: nat :: Refused(s.table, tenant, drafts, i) then
              s' == s && error.Some?
              && exists i: nat ::
                   FirstRefused(s.table, tenant, drafts, i) && Refuses(s.table, tenant, drafts[i], error.value)
            else if drafts == [] then s' == s && error == Some(EmptyInsert)
            else if exists i, j | 0 <= i < j < |drafts| :: drafts[i].code == drafts[j].code then
              s' == s && error == Some(ConstraintViolation)
            else
              && error == None && s'.nextId == s.nextId + |drafts|
              && |s'.table| == |s.table| + |drafts| && s'.table[..|s.table|] == s.table
              && (forall i | 0 <= i < |drafts| :: HoldsDraft(s'.table[|s.table| + i], s.nextId + i, tenant, drafts[i]))
              && EntriesKept(s.cache, s'.cache, tenant, set d | d in drafts :: d.code)
  {
    hide EntriesKept, Refused, Refuses;
    FirstErrorIs(s.table, tenant, drafts);
    RefusedInBatch(s.table, tenant, drafts);
    InvalidatedKeeps(s.cache, tenant, DraftCodes(drafts));
    CodesDrafted(drafts);
    if forall i | 0 <= i < |drafts| :: !Refused(s.table, tenant, drafts, i) {
      InsertApart(s, tenant, drafts);
    }
  }

  lemma RefusedInBatch(table: seq<Boundary>, tenant: string, drafts: seq<Draft>)
    ensures forall i: nat :: Refused(table, tenant, drafts, i) ==> i < |drafts|
  {
  }

  lemma CodesDrafted(drafts: seq<Draft>)
    ensures (set c | c in DraftCodes(drafts)) == set d | d in drafts :: d.code
  {
    forall d | d in drafts ensures d.code in DraftCodes(drafts) {
      var i :| 0 <= i < |drafts| && drafts[i] == d;
      assert DraftCodes(drafts)[i] == d.code;
    }
  }

  /** Rows to insert break the unique constraint only among themselves. */
  lemma InsertApart(s: Store, tenant: string, drafts: seq<Draft>)
    requires CodesApart(s.table) && forall i | 0 <= i < |drafts| :: !Refused(s.table, tenant, drafts, i)
    ensures UniqueCodes(s.table + NewRows(tenant, drafts, s.nextId))
       <==> !exists i, j | 0 <= i < j < |drafts| :: drafts[i].code == drafts[j].code
  {
    var n, all := |s.table|, s.table + NewRows(tenant, drafts, s.nextId);
    if i, j :| 0 <= i < j < |drafts| && drafts[i].code == drafts[j].code {
      assert all[n + i].tenant == all[n + j].tenant && all[n + i].code == all[n + j].code;
    } else {
      forall p, q | 0 <= p < q < |all| ensures all[p].tenant != all[q].tenant || all[p].code != all[q].code {
        if p < n <= q {
          assert !Refused(s.table, tenant, drafts, q - n) && s.table[p] in s.table;
        } else if n <= p {
          assert drafts[p - n].code != drafts[q - n].code;
        }
      }
    }
  }

  // ---------------------------------------------------------------- searching

  /** A row of the tenant, with one of the codes if any are asked for. */
  predicate AskedFor(table: seq<Boundary>, tenant: string, codes: seq<string>, p: nat) {
    p < |table| && table[p].tenant == tenant && (|codes| > 0 ==> table[p].code in codes)
  }

  lemma {:induction false} AnswerPlaces(table: seq<Boundary>, tenant: string, codes: seq<string>) returns (at: seq<nat>)
    ensures Places(at, |table|, (p: nat) => AskedFor(table, tenant, codes, p))
    ensures (forall k | 0 <= k < |at| :: at[k] < |table|) && Answer(table, tenant, codes) == At(table, at)
  {
    if table == [] {
      at := [];
    } else {
      var rest := AnswerPlaces(table[1..], tenant, codes);
      assert forall p: nat | p < |table| - 1 ::
               AskedFor(table[1..], tenant, codes, p) <==> AskedFor(table, tenant, codes, p + 1);
      at := AtShifted(table, rest, (p: nat) => AskedFor(table, tenant, codes, p),
                      (p: nat) => AskedFor(table[1..], tenant, codes, p));
    }
  }

  /**
   * A search answers the entry under its key if there is one; else it answers and stores the page of the rows asked for,
   * in the table's order.
   */
  lemma FoundRows(s: Store, tenant: string, codes: seq<string>, limit: int, offset: int) returns (at: seq<nat>)
    ensures Perform(s, SearchOp(tenant, codes, limit, offset)) == Found(s, tenant, codes, limit, offset).0
    ensures Places(at, |s.table|, (p: nat) => AskedFor(s.table, tenant, codes, p))
    ensures var (s', rows) := Found(s, tenant, codes, limit, offset);
            var key := tenant + ":boundary:search:" + Join(codes, ",");
            && s'.table == s.table && s'.nextId == s.nextId
            && (forall k :: k in s'.cache <==> k in s.cache || k == key) && s'.cache[key] == rows
            && (forall k <- s.cache :: s'.cache[k] == s.cache[k])
            && if key in s.cache then rows == s.cache[key] else Stretch(At(s.table, at), rows, limit, offset)
  {
    at := AnswerPlaces(s.table, tenant, codes);
    PageIs(At(s.table, at), limit, offset);
    assert tenant + ":boundary:search:" + Join(codes, ",") == SearchKey(tenant, codes);
  }
}
