/** The boundary cache over whole runs. */
module BoundaryRuns {
  import opened BoundaryCache
  import opened BoundaryBatches

  datatype Operation =
    | CreateOp(tenant: string, drafts: seq<Draft>)
    | UpdateOp(tenant: string, changes: seq<Change>)
    | SearchOp(tenant: string, codes: seq<string>, limit: int, offset: int)

  function Perform(s: Store, op: Operation): Store {
    match op
    case CreateOp(t, drafts) => Created(s, t, drafts).0
    case UpdateOp(t, changes) => Updated(s, t, changes).0
    case SearchOp(t, codes, limit, offset) => Found(s, t, codes, limit, offset).0
  }

  /** Updates are safe batches; searches ask for well-formed codes and store no part of an answer. */
  ghost predicate Admissible(s: Store, op: Operation) {
    match op
    case CreateOp(_, _) => true
    case UpdateOp(t, changes) => SafeBatch(s.table, t, changes)
    case SearchOp(t, codes, limit, offset) =>
      && ReadableQuery(t, codes)
      && (SearchKey(t, codes) in s.cache || WholePage(|Answer(s.table, t, codes)|, limit, offset))
  }

  /** The table's two keys, ids being handed out in order. */
  ghost predicate Proper(s: Store) {
    UniqueCodes(s.table) && UniqueIds(s.table) && forall b <- s.table :: b.id < s.nextId
  }

  lemma UpdateKeepsProper(s: Store, tenant: string, changes: seq<Change>)
    requires Proper(s)
    ensures Proper(Updated(s, tenant, changes).0)
  {
    hide RowAfter;
    UpdateStopsAtFirstClash(s, tenant, changes);
    assert changes == changes[..|changes|];
    var k := FirstClash(s.table, tenant, changes, 0);
    forall b | b in TableAfter(s.table, tenant, changes[..k]) ensures b.id < s.nextId {
      var i :| 0 <= i < |s.table| && TableAfter(s.table, tenant, changes[..k])[i] == b;
      assert s.table[i] in s.table;
    }
  }

  lemma CreateKeepsProper(s: Store, tenant: string, drafts: seq<Draft>)
    requires Proper(s)
    ensures Proper(Created(s, tenant, drafts).0)
  {
    var table := s.table + NewRows(tenant, drafts, s.nextId);
    forall i, j | 0 <= i < j < |table| ensures table[i].id != table[j].id {
      if i < |s.table| { assert s.table[i] in s.table; }
    }
  }

  function PerformAll(s: Store, ops: seq<Operation>): Store
    decreases |ops|
  {
    if ops == [] then s else PerformAll(Perform(s, ops[0]), ops[1..])
  }

  ghost predicate AllAdmissible(s: Store, ops: seq<Operation>)
    decreases |ops|
  {
    ops == [] || (Admissible(s, ops[0]) && AllAdmissible(Perform(s, ops[0]), ops[1..]))
  }

  lemma PerformKeepsCoherent(s: Store, op: Operation)
    requires Coherent(s) && Proper(s) && Admissible(s, op)
    ensures Coherent(Perform(s, op)) && Proper(Perform(s, op))
  {
    match op
    case CreateOp(t, drafts) =>
      CreateKeepsCoherent(s, t, drafts);
      CreateKeepsProper(s, t, drafts);
    case UpdateOp(t, changes) =>
      BatchSafeIff(s.table, s.nextId, t, changes);
      assert s == Store(s.table, s.nextId, s.cache);
      UpdateKeepsProper(s, t, changes);
    case SearchOp(t, codes, limit, offset) =>
      SearchKeepsCoherentIff(s, t, codes, limit, offset);
  }

  /** After any run of creations, safe updates and whole searches the cache agrees with the table. */
  lemma {:induction false} RunsStayCoherent(s: Store, ops: seq<Operation>)
    requires Coherent(s) && Proper(s) && AllAdmissible(s, ops)
    ensures Coherent(PerformAll(s, ops)) && Proper(PerformAll(s, ops))
    decreases |ops|
  {
    hide Coherent;
    if ops != [] {
      PerformKeepsCoherent(s, ops[0]);
      RunsStayCoherent(Perform(s, ops[0]), ops[1..]);
    }
  }
}
