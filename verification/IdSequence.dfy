/** Scoped sequences: resets under a lock, and separate draws. */
module IdSequence {
  import opened Prelude
  import opened GoStrings
  import opened IdTemplate

  datatype Scope = Scope(tenant: string, template: string, key: string)

  /** The Postgres sequences (next value by name), their lookup rows, and the recorded resets. */
  datatype SequenceDb = SequenceDb(next: map<string, int>, lookups: set<string>, resets: set<Scope>)

  /** What the SHA-1 of the sequence name is taken over; equal names mean one shared sequence. */
  function SequenceName(tenant: string, template: string): string {
    tenant + ":" + template
  }

  lemma SequenceNameInjective(t1: string, c1: string, t2: string, c2: string)
    requires ':' !in t1 && ':' !in t2
    ensures SequenceName(t1, c1) == SequenceName(t2, c2) <==> t1 == t2 && c1 == c2
  {
    var a, b := SequenceName(t1, c1), SequenceName(t2, c2);
    SplitConcat(t1, ':', c1);
    SplitConcat(t2, ':', c2);
    if a == b {
      assert t1 == Split(a, ':')[0] == Split(b, ':')[0] == t2;
      assert a[|t1| + 1..] == c1 && b[|t2| + 1..] == c2;
    }
  }

  function Ensured(db: SequenceDb, scope: Scope, start: int): Option<SequenceDb> {
    var name := SequenceName(scope.tenant, scope.template);
    if scope in db.resets then Some(db)
    else if name !in db.next || start < 1 then None
    else Some(db.(next := db.next[name := start], resets := db.resets + {scope}))
  }

  function Drawn(db: SequenceDb, tenant: string, template: string): Option<(SequenceDb, int)> {
    var name := SequenceName(tenant, template);
    if name !in db.next then None
    else Some((db.(next := db.next[name := db.next[name] + 1]), db.next[name]))
  }

  class IdGenRepository {
    var next: map<string, int>
    var lookups: set<string>
    var resets: set<Scope>

    constructor ()
      ensures Db() == SequenceDb(map[], {}, {})
    {
      next, lookups, resets := map[], {}, {};
    }

    ghost function Db(): SequenceDb
      reads this
    {
      SequenceDb(next, lookups, resets)
    }

    /** The sequence floor is 1, and one lookup row may exist per name; both failures roll back. */
    method CreateSequence(tenant: string, template: string, start: int) returns (ok: bool)
      modifies this
      ensures ok <==> start >= 1 && SequenceName(tenant, template) !in old(lookups)
      ensures !ok ==> Db() == old(Db())
      ensures ok ==> Db() == old(Db()).(
                       lookups := old(lookups) + {SequenceName(tenant, template)},
                       next := if SequenceName(tenant, template) in old(next) then old(next)
                               else old(next)[SequenceName(tenant, template) := start])
    {
      var name := SequenceName(tenant, template);
      if start < 1 || name in lookups { return false; }
      if name !in next {
        next := next[name := start];
      }
      lookups := lookups + {name};
      return true;
    }

    /** One transaction under an advisory lock: reset the sequence unless this scope already did. */
    method EnsureScopeReset(tenant: string, template: string, scopeKey: string, start: int)
      returns (ok: bool)
      modifies this
      ensures ok <==> Ensured(old(Db()), Scope(tenant, template, scopeKey), start).Some?
      ensures Db() == if ok then Ensured(old(Db()), Scope(tenant, template, scopeKey), start).value
                      else old(Db())
    {
      var scope := Scope(tenant, template, scopeKey);
      if scope in resets { return true; }
      var name := SequenceName(tenant, template);
      if name !in next || start < 1 { return false; }
      next := next[name := start];
      resets := resets + {scope};
      return true;
    }

    method NextSequenceValue(tenant: string, template: string) returns (value: Option<int>)
      modifies this
      ensures value.Some? <==> Drawn(old(Db()), tenant, template).Some?
      ensures value.None? ==> Db() == old(Db())
      ensures value.Some? ==> (Db(), value.value) == Drawn(old(Db()), tenant, template).value
    {
      var name := SequenceName(tenant, template);
      if name !in next { return None; }
      value := Some(next[name]);
      next := next[name := next[name] + 1];
    }
  }

  // ---------------------------------------------------------------- scope keys

  /** A calendar date; the scope key is read off it. */
  datatype Date = Date(year: nat, month: nat, day: nat)

  datatype ScopeKind = Daily | Monthly | Yearly | Global

  /** `getScopeKey`, with Go's layouts "2006-01-02", "2006-01" and "2006". */
  function ScopeKey(kind: ScopeKind, t: Date): string {
    var y, m, d := FormatSequence(t.year, 4, "0"), FormatSequence(t.month, 2, "0"), FormatSequence(t.day, 2, "0");
    match kind
    case Daily => Join([y, m, d], "-")
    case Monthly => Join([y, m], "-")
    case Yearly => y
    case Global => "global"
  }

  predicate NotAfter(a: Date, b: Date) {
    a.year < b.year || (a.year == b.year && (a.month < b.month || (a.month == b.month && a.day <= b.day)))
  }

  lemma FormattedNumber(n: nat, width: nat)
    ensures '-' !in FormatSequence(n, width, "0")
  {
    if width > |Decimal(n)| { RepeatDigits("0", width - |Decimal(n)|); }
  }

  lemma FormattedNumbersEqual(a: nat, b: nat, width: nat)
    requires FormatSequence(a, width, "0") == FormatSequence(b, width, "0")
    ensures a == b
  {
    FormatInjectiveIff(width, "0");
  }

  /** Two dates share a key exactly when they agree on the fields the scope looks at. */
  lemma ScopeKeyInjective(kind: ScopeKind, a: Date, b: Date)
    ensures ScopeKey(kind, a) == ScopeKey(kind, b) <==>
            match kind
            case Daily => a == b
            case Monthly => a.year == b.year && a.month == b.month
            case Yearly => a.year == b.year
            case Global => true
  {
    if ScopeKey(kind, a) == ScopeKey(kind, b) && !kind.Global? {
      var ay, am, ad := FormatSequence(a.year, 4, "0"), FormatSequence(a.month, 2, "0"), FormatSequence(a.day, 2, "0");
      var yb, mb, db := FormatSequence(b.year, 4, "0"), FormatSequence(b.month, 2, "0"), FormatSequence(b.day, 2, "0");
      FormattedNumber(a.year, 4);
      FormattedNumber(a.month, 2);
      FormattedNumber(a.day, 2);
      FormattedNumber(b.year, 4);
      FormattedNumber(b.month, 2);
      FormattedNumber(b.day, 2);
      if kind.Daily? {
        JoinInjective([ay, am, ad], [yb, mb, db], '-');
        assert [ay, am, ad][0] == yb && [ay, am, ad][1] == mb && [ay, am, ad][2] == db;
        FormattedNumbersEqual(a.month, b.month, 2);
        FormattedNumbersEqual(a.day, b.day, 2);
      } else if kind.Monthly? {
        JoinInjective([ay, am], [yb, mb], '-');
        assert [ay, am][0] == yb && [ay, am][1] == mb;
        FormattedNumbersEqual(a.month, b.month, 2);
      }
      FormattedNumbersEqual(a.year, b.year, 4);
    }
  }

  /** While time does not step back, every scope key occupies one contiguous block of requests. */
  lemma KeysContiguous(kind: ScopeKind, a: Date, b: Date, c: Date)
    requires NotAfter(a, b) && NotAfter(b, c) && ScopeKey(kind, a) == ScopeKey(kind, c)
    ensures ScopeKey(kind, b) == ScopeKey(kind, a)
  {
    ScopeKeyInjective(kind, a, c);
    ScopeKeyInjective(kind, a, b);
  }

  // ---------------------------------------------------------------- interleaved requests

  type Client = nat

  /** The two atomic steps a request for one number takes. */
  datatype Event = Ensure(client: Client, key: string) | Draw(client: Client)

  /** What an observer of one template's sequence sees. */
  datatype Entry = Reset(key: string) | Number(key: string, value: int)

  datatype Machine = Machine(db: SequenceDb, pending: map<Client, string>, log: seq<Entry>)

  /** One template of one tenant, with its fixed start value. */
  datatype Config = Config(tenant: string, template: string, start: int) {
    function Name(): string { SequenceName(tenant, template) }
    function InScope(key: string): Scope { Scope(tenant, template, key) }
  }

  predicate Enabled(m: Machine, e: Event) {
    match e
    case Ensure(c, _) => c !in m.pending
    case Draw(c) => c in m.pending
  }

  ghost predicate Usable(cfg: Config, db: SequenceDb) {
    cfg.start >= 1 && cfg.Name() in db.next
  }

  function Step(cfg: Config, m: Machine, e: Event): Machine
    requires Enabled(m, e)
  {
    match e
    case Ensure(c, key) =>
      (match Ensured(m.db, cfg.InScope(key), cfg.start)
       case None => m
       case Some(db) =>
         Machine(db, m.pending[c := key], m.log + if cfg.InScope(key) in m.db.resets then [] else [Reset(key)]))
    case Draw(c) =>
      (match Drawn(m.db, cfg.tenant, cfg.template)
       case None => m
       case Some((db, v)) => Machine(db, m.pending - {c}, m.log + [Number(m.pending[c], v)]))
  }

  predicate ValidRun(cfg: Config, db0: SequenceDb, run: seq<Event>) {
    run == [] ||
    (ValidRun(cfg, db0, run[..|run| - 1]) && Enabled(After(cfg, db0, run[..|run| - 1]), run[|run| - 1]))
  }

  /** The state after an interleaving of any number of requests, none pending at the start. */
  function After(cfg: Config, db0: SequenceDb, run: seq<Event>): Machine {
    if run == [] then Machine(db0, map[], [])
    else
      var m := After(cfg, db0, run[..|run| - 1]);
      if Enabled(m, run[|run| - 1]) then Step(cfg, m, run[|run| - 1]) else m
  }

  /** How many numbers the log shows since its last reset. */
  function SinceReset(log: seq<Entry>): nat {
    if log == [] || log[|log| - 1].Reset? then 0 else 1 + SinceReset(log[..|log| - 1])
  }

  predicate SomeReset(log: seq<Entry>) {
    exists i | 0 <= i < |log| :: log[i].Reset?
  }

  /** Every number after a reset is the start value plus its distance from that reset. */
  ghost predicate Numbered(start: int, log: seq<Entry>) {
    forall p | 0 <= p < |log| && log[p].Number? && SomeReset(log[..p]) ::
      log[p].value == start + SinceReset(log[..p])
  }

  /** The recorded resets are the initial ones plus those in the log, each of them logged once. */
  ghost predicate ResetsLogged(cfg: Config, db0: SequenceDb, m: Machine) {
    && (forall key :: cfg.InScope(key) in m.db.resets <==>
                      cfg.InScope(key) in db0.resets || Reset(key) in m.log)
    && (forall i | 0 <= i < |m.log| && m.log[i].Reset? ::
          cfg.InScope(m.log[i].key) !in db0.resets && m.log[i] !in m.log[..i])
  }

  /** No number is drawn under a key that has not been reset yet. */
  ghost predicate ResetFirst(cfg: Config, db0: SequenceDb, m: Machine) {
    && (forall c | c in m.pending :: cfg.InScope(m.pending[c]) in m.db.resets)
    && (forall i | 0 <= i < |m.log| && m.log[i].Number? ::
          cfg.InScope(m.log[i].key) in db0.resets || Reset(m.log[i].key) in m.log[..i])
  }

  ghost predicate Inv(cfg: Config, db0: SequenceDb, m: Machine) {
    && Usable(cfg, m.db)
    && (SomeReset(m.log) ==> m.db.next[cfg.Name()] == cfg.start + SinceReset(m.log))
    && Numbered(cfg.start, m.log)
    && ResetsLogged(cfg, db0, m)
    && ResetFirst(cfg, db0, m)
  }

  lemma NumberedAppend(start: int, log: seq<Entry>, e: Entry)
    requires Numbered(start, log) && (e.Number? && SomeReset(log) ==> e.value == start + SinceReset(log))
    ensures Numbered(start, log + [e])
  {
    var after := log + [e];
    assert after[..|log|] == log;
    assert forall p | 0 <= p < |log| :: after[..p] == log[..p] && after[p] == log[p];
  }

  /** A first ensure step under a key, one that logs a reset. */
  ghost predicate LogsReset(cfg: Config, db0: SequenceDb, m: Machine, c: Client, key: string) {
    Inv(cfg, db0, m) && Enabled(m, Ensure(c, key)) && cfg.InScope(key) !in m.db.resets
  }

  lemma ResetIsLogged(cfg: Config, db0: SequenceDb, m: Machine, c: Client, key: string)
    requires LogsReset(cfg, db0, m, c, key)
    ensures ResetsLogged(cfg, db0, Step(cfg, m, Ensure(c, key)))
  {
    var m' := Step(cfg, m, Ensure(c, key));
    AppendedEntry(m.log, Reset(key));
    assert Reset(key) !in m.log && m'.log == m.log + [Reset(key)];
    forall k ensures cfg.InScope(k) in m'.db.resets <==> cfg.InScope(k) in db0.resets || Reset(k) in m'.log {
      assert cfg.InScope(k) == cfg.InScope(key) <==> k == key;
    }
    ResetsOnce(cfg, db0, m.log, key);
  }

  lemma ResetsOnce(cfg: Config, db0: SequenceDb, log: seq<Entry>, key: string)
    requires forall i | 0 <= i < |log| && log[i].Reset? :: cfg.InScope(log[i].key) !in db0.resets && log[i] !in log[..i]
    requires Reset(key) !in log && cfg.InScope(key) !in db0.resets
    ensures forall i | 0 <= i < |log + [Reset(key)]| && (log + [Reset(key)])[i].Reset? ::
              cfg.InScope((log + [Reset(key)])[i].key) !in db0.resets
              && (log + [Reset(key)])[i] !in (log + [Reset(key)])[..i]
  {
    var after := log + [Reset(key)];
    assert after[..|log|] == log;
    assert forall i | 0 <= i < |log| :: after[..i] == log[..i] && after[i] == log[i];
  }

  lemma ResetKeepsFirst(cfg: Config, db0: SequenceDb, m: Machine, c: Client, key: string)
    requires LogsReset(cfg, db0, m, c, key)
    ensures ResetFirst(cfg, db0, Step(cfg, m, Ensure(c, key)))
  {
    var m' := Step(cfg, m, Ensure(c, key));
    forall i | 0 <= i < |m'.log| && m'.log[i].Number?
      ensures cfg.InScope(m'.log[i].key) in db0.resets || Reset(m'.log[i].key) in m'.log[..i]
    {
      assert i < |m.log| && m'.log[i] == m.log[i] && m'.log[..i] == m.log[..i];
    }
  }

  lemma EnsureKeepsInv(cfg: Config, db0: SequenceDb, m: Machine, c: Client, key: string)
    requires Inv(cfg, db0, m) && Enabled(m, Ensure(c, key))
    ensures Inv(cfg, db0, Step(cfg, m, Ensure(c, key)))
  {
    if cfg.InScope(key) in m.db.resets {
      assert Step(cfg, m, Ensure(c, key)).log == m.log;
    } else {
      ResetIsLogged(cfg, db0, m, c, key);
      ResetKeepsFirst(cfg, db0, m, c, key);
      AppendedEntry(m.log, Reset(key));
      NumberedAppend(cfg.start, m.log, Reset(key));
    }
  }

  lemma DrawKeepsInv(cfg: Config, db0: SequenceDb, m: Machine, c: Client)
    requires Inv(cfg, db0, m) && Enabled(m, Draw(c))
    ensures Inv(cfg, db0, Step(cfg, m, Draw(c)))
  {
    hide SomeReset, SinceReset, Numbered;
    var entry := Number(m.pending[c], m.db.next[cfg.Name()]);
    AppendedEntry(m.log, entry);
    NumberedAppend(cfg.start, m.log, entry);
    DrawKeepsLog(cfg, db0, m, c);
  }

  lemma DrawKeepsLog(cfg: Config, db0: SequenceDb, m: Machine, c: Client)
    requires Usable(cfg, m.db) && ResetsLogged(cfg, db0, m) && ResetFirst(cfg, db0, m) && Enabled(m, Draw(c))
    ensures ResetsLogged(cfg, db0, Step(cfg, m, Draw(c))) && ResetFirst(cfg, db0, Step(cfg, m, Draw(c)))
  {
    var m' := Step(cfg, m, Draw(c));
    assert forall p | 0 <= p < |m.log| :: m'.log[..p] == m.log[..p];
    assert m'.log[..|m.log|] == m.log;
  }

  lemma AppendedEntry(log: seq<Entry>, e: Entry)
    ensures SomeReset(log + [e]) <==> SomeReset(log) || e.Reset?
    ensures SinceReset(log + [e]) == if e.Reset? then 0 else 1 + SinceReset(log)
    ensures forall x :: x in log + [e] <==> x in log || x == e
  {
    var log' := log + [e];
    assert log'[..|log|] == log && log'[|log|] == e;
    if i :| 0 <= i < |log| && log[i].Reset? { assert log'[i].Reset?; }
    if e.Reset? { assert log'[|log|].Reset?; }
  }

  /** In every interleaving: each scope key resets at most once, and numbers count up from there. */
  lemma {:induction false} RunKeepsInv(cfg: Config, db0: SequenceDb, run: seq<Event>)
    requires Usable(cfg, db0) && ValidRun(cfg, db0, run)
    ensures Inv(cfg, db0, After(cfg, db0, run))
  {
    if run != [] {
      var before, e := run[..|run| - 1], run[|run| - 1];
      RunKeepsInv(cfg, db0, before);
      var m := After(cfg, db0, before);
      match e
      case Ensure(c, key) => EnsureKeepsInv(cfg, db0, m, c, key);
      case Draw(c) => DrawKeepsInv(cfg, db0, m, c);
    }
  }

  // ---------------------------------------------------------------- one scope key

  function Numbers(log: seq<Entry>): seq<int> {
    if log == [] then []
    else
      var rest := Numbers(log[..|log| - 1]);
      match log[|log| - 1]
      case Reset(_) => rest
      case Number(_, v) => rest + [v]
  }

  predicate OneKey(run: seq<Event>, key: string) {
    forall e <- run :: e.Ensure? ==> e.key == key
  }

  ghost predicate AllUnder(m: Machine, key: string) {
    (forall c | c in m.pending :: m.pending[c] == key) && (forall e <- m.log :: e.key == key)
  }

  lemma OneKeyStep(cfg: Config, m: Machine, e: Event, key: string)
    requires Enabled(m, e) && (e.Ensure? ==> e.key == key) && AllUnder(m, key)
    ensures AllUnder(Step(cfg, m, e), key)
  {
  }

  lemma {:induction false} OneKeyLog(cfg: Config, db0: SequenceDb, run: seq<Event>, key: string)
    requires Usable(cfg, db0) && ValidRun(cfg, db0, run) && OneKey(run, key)
    ensures AllUnder(After(cfg, db0, run), key)
  {
    if run != [] {
      var before, e := run[..|run| - 1], run[|run| - 1];
      OneKeyLog(cfg, db0, before, key);
      assert e in run;
      RunKeepsInv(cfg, db0, before);
      OneKeyStep(cfg, After(cfg, db0, before), e, key);
    }
  }

  lemma {:induction false} NumbersCountUp(start: int, log: seq<Entry>)
    requires log == [] || log[0].Reset?
    requires forall i | 1 <= i < |log| :: log[i].Number?
    requires Numbered(start, log)
    ensures |Numbers(log)| == if log == [] then 0 else |log| - 1
    ensures |log| > 0 ==> SinceReset(log) == |log| - 1
    ensures forall i | 0 <= i < |Numbers(log)| :: Numbers(log)[i] == start + i
  {
    if |log| > 1 {
      var init := log[..|log| - 1];
      assert forall p | 0 <= p < |init| :: init[..p] == log[..p];
      NumbersCountUp(start, init);
      assert log[0] == init[0] && SomeReset(init);
    } else if |log| == 1 {
      assert log[..0] == [];
    }
  }

  /**
   * Any interleaving of requests under one scope key, new to this template: one reset, before all
   * draws, and the n numbers handed out are start, start + 1, ..., start + n - 1 in that order.
   */
  lemma OneScopeNumbers(cfg: Config, db0: SequenceDb, run: seq<Event>, key: string)
    requires Usable(cfg, db0) && ValidRun(cfg, db0, run) && OneKey(run, key)
    requires cfg.InScope(key) !in db0.resets
    ensures var log := After(cfg, db0, run).log;
      && (log != [] ==> log[0] == Reset(key))
      && (forall i | 1 <= i < |log| :: log[i].Number?)
      && forall i | 0 <= i < |Numbers(log)| :: Numbers(log)[i] == cfg.start + i
  {
    var m := After(cfg, db0, run);
    RunKeepsInv(cfg, db0, run);
    OneKeyLog(cfg, db0, run, key);
    var log := m.log;
    if log != [] {
      assert log[0] in log && log[..0] == [];
      assert log[0] == Reset(key);
      forall i | 1 <= i < |log| ensures log[i].Number? {
        assert log[i] in log;
        assert log[..i][0] == log[0] && log[0] in log[..i];
      }
    }
    NumbersCountUp(cfg.start, log);
  }

  // ---------------------------------------------------------------- rollovers

  /**
   * Between two equal (key, number) pairs of any interleaving there is a reset: numbers under one
   * key repeat only when the sequence was restarted for another key in between.
   */
  lemma RepeatNeedsReset(cfg: Config, db0: SequenceDb, run: seq<Event>, p: nat, q: nat)
    requires Usable(cfg, db0) && ValidRun(cfg, db0, run)
    requires var log := After(cfg, db0, run).log;
      p < q < |log| && log[p].Number? && log[q] == log[p] && cfg.InScope(log[p].key) !in db0.resets
    ensures var log := After(cfg, db0, run).log;
      exists r | p < r < q :: log[r].Reset? && log[r].key != log[p].key
  {
    var m := After(cfg, db0, run);
    RunKeepsInv(cfg, db0, run);
    ResetBetween(cfg.start, m.log, p, q);
    var r :| p < r < q && m.log[r].Reset?;
    OtherReset(cfg, db0, m, p, r);
  }

  lemma ResetBetween(start: int, log: seq<Entry>, p: nat, q: nat)
    requires Numbered(start, log) && p < q < |log| && log[p].Number? && log[q] == log[p]
    requires Reset(log[p].key) in log[..p]
    ensures exists r | p < r < q :: log[r].Reset?
  {
    ResetInPrefix(log, log[p].key, p);
    assert log[..q][..p] == log[..p];
    assert Reset(log[p].key) in log[..q];
    ResetInPrefix(log, log[p].key, q);
    if forall r | p < r < q :: log[r].Number? {
      CountsSince(log, p, q);
    }
  }

  lemma OtherReset(cfg: Config, db0: SequenceDb, m: Machine, p: nat, r: nat)
    requires ResetsLogged(cfg, db0, m) && p < r < |m.log| && m.log[r].Reset? && Reset(m.log[p].key) in m.log[..p]
    ensures m.log[r].key != m.log[p].key
  {
    var s :| 0 <= s < p && m.log[..p][s] == Reset(m.log[p].key);
    assert m.log[..r][s] == m.log[s];
  }

  lemma ResetInPrefix(log: seq<Entry>, key: string, p: nat)
    requires p <= |log| && Reset(key) in log[..p]
    ensures SomeReset(log[..p])
  {
    var s :| 0 <= s < p && log[..p][s] == Reset(key);
    assert log[..p][s].Reset?;
  }

  lemma {:induction false} CountsSince(log: seq<Entry>, p: nat, q: nat)
    requires p < q <= |log| && forall r | p <= r < q :: log[r].Number?
    ensures SinceReset(log[..q]) == SinceReset(log[..p]) + (q - p)
  {
    assert log[..q][..q - 1] == log[..q - 1];
    if p + 1 < q { CountsSince(log, p, q - 1); }
  }

  /** Two draws under one key, as many numbers after their last resets. */
  predicate SameCount(log: seq<Entry>, p: nat, q: nat)
    requires p < q < |log|
  {
    log[p].Number? && log[q].Number? && log[p].key == log[q].key && SinceReset(log[..p]) == SinceReset(log[..q])
  }

  /** In any interleaving, a draw under a new key repeats a later one exactly at the same count. */
  lemma RepeatIff(cfg: Config, db0: SequenceDb, run: seq<Event>, p: nat, q: nat)
    requires Usable(cfg, db0) && ValidRun(cfg, db0, run)
    requires var log := After(cfg, db0, run).log;
      p < q < |log| && log[p].Number? && cfg.InScope(log[p].key) !in db0.resets
    ensures var log := After(cfg, db0, run).log; log[p] == log[q] <==> SameCount(log, p, q)
  {
    var log := After(cfg, db0, run).log;
    RunKeepsInv(cfg, db0, run);
    ResetInPrefix(log, log[p].key, p);
    if log[q].Number? && log[q].key == log[p].key {
      ResetInPrefix(log, log[p].key, q);
    }
  }

  /** A run of new keys repeats a (key, number) pair exactly if two draws under one key share their count. */
  lemma RunRepeatsIff(cfg: Config, db0: SequenceDb, run: seq<Event>)
    requires Usable(cfg, db0) && ValidRun(cfg, db0, run)
    requires forall scope <- db0.resets :: scope.tenant != cfg.tenant || scope.template != cfg.template
    ensures var log := After(cfg, db0, run).log;
      (exists p, q | 0 <= p < q < |log| :: log[p].Number? && log[p] == log[q])
      <==> exists p, q | 0 <= p < q < |log| :: SameCount(log, p, q)
  {
    var log := After(cfg, db0, run).log;
    forall p, q | 0 <= p < q < |log| && log[p].Number? ensures log[p] == log[q] <==> SameCount(log, p, q) {
      RepeatIff(cfg, db0, run, p, q);
    }
  }

  /** The key the log shows as reset last. */
  function LastReset(log: seq<Entry>): Option<string> {
    if log == [] then None
    else if log[|log| - 1].Reset? then Some(log[|log| - 1].key)
    else LastReset(log[..|log| - 1])
  }

  /** No request draws after another one has moved the template on to a different key. */
  predicate DrawsUnderLastReset(log: seq<Entry>) {
    forall i | 0 <= i < |log| && log[i].Number? :: LastReset(log[..i]) == Some(log[i].key)
  }

  lemma {:induction false} LastResetAt(log: seq<Entry>) returns (r: nat)
    requires LastReset(log).Some?
    ensures r < |log| && log[r] == Reset(LastReset(log).value)
    ensures forall i | r < i < |log| :: log[i].Number?
  {
    if log[|log| - 1].Reset? {
      r := |log| - 1;
    } else {
      r := LastResetAt(log[..|log| - 1]);
    }
  }

  /** Interleaved or not: draws made under the key reset last never repeat a (key, number) pair. */
  lemma LastResetPairsUnique(cfg: Config, db0: SequenceDb, run: seq<Event>, p: nat, q: nat)
    requires Usable(cfg, db0) && ValidRun(cfg, db0, run) && DrawsUnderLastReset(After(cfg, db0, run).log)
    requires p < q < |After(cfg, db0, run).log| && After(cfg, db0, run).log[p].Number?
    ensures After(cfg, db0, run).log[p] != After(cfg, db0, run).log[q]
  {
    var log := After(cfg, db0, run).log;
    if log[p] == log[q] {
      RunKeepsInv(cfg, db0, run);
      var rp := LastResetAt(log[..p]);
      var rq := LastResetAt(log[..q]);
      assert log[rp] == Reset(log[p].key) == log[rq];
      assert rp == rq;
      assert forall r | p <= r < q :: log[r] == log[..q][r];
      CountsSince(log, p, q);
    }
  }

  /** Sequential requests: each draws right after its own ensure step. */
  function Sequential(keys: seq<string>): seq<Event> {
    if keys == [] then []
    else Sequential(keys[..|keys| - 1]) + [Ensure(0, keys[|keys| - 1]), Draw(0)]
  }

  predicate Contiguous(keys: seq<string>) {
    forall i, j, k | 0 <= i < j < k < |keys| && keys[i] == keys[k] :: keys[j] == keys[i]
  }

  predicate LogContiguous(log: seq<Entry>) {
    forall i, j, k | 0 <= i < j < k < |log| && log[i].key == log[k].key :: log[j].key == log[i].key
  }

  /** The log mentions exactly the requested keys, the last request's key last. */
  ghost predicate Mirrors(log: seq<Entry>, keys: seq<string>) {
    && (forall e <- log :: e.key in keys)
    && (keys != [] ==> log != [] && log[|log| - 1].key == keys[|keys| - 1])
  }

  lemma SequentialStep(cfg: Config, db0: SequenceDb, keys: seq<string>, key: string) returns (v: int)
    requires Usable(cfg, db0) && ValidRun(cfg, db0, Sequential(keys))
    requires After(cfg, db0, Sequential(keys)).pending == map[]
    ensures ValidRun(cfg, db0, Sequential(keys + [key]))
    ensures var m, m' := After(cfg, db0, Sequential(keys)), After(cfg, db0, Sequential(keys + [key]));
      && m'.pending == map[]
      && m'.log == m.log + (if cfg.InScope(key) in m.db.resets then [] else [Reset(key)]) + [Number(key, v)]
  {
    var run := Sequential(keys);
    var run1 := run + [Ensure(0, key)];
    var run2 := run1 + [Draw(0)];
    assert (keys + [key])[..|keys|] == keys;
    assert Sequential(keys + [key]) == run2;
    RunKeepsInv(cfg, db0, run);
    var m := After(cfg, db0, run);
    OneMore(cfg, db0, run, Ensure(0, key));
    var m1 := Step(cfg, m, Ensure(0, key));
    OneMore(cfg, db0, run1, Draw(0));
    assert Step(cfg, m1, Draw(0)).pending == map[];
    v := m1.db.next[cfg.Name()];
  }

  lemma OneMore(cfg: Config, db0: SequenceDb, run: seq<Event>, e: Event)
    requires ValidRun(cfg, db0, run) && Enabled(After(cfg, db0, run), e)
    ensures ValidRun(cfg, db0, run + [e])
    ensures After(cfg, db0, run + [e]) == Step(cfg, After(cfg, db0, run), e)
  {
    assert (run + [e])[..|run|] == run;
  }

  lemma {:induction false} SequentialLog(cfg: Config, db0: SequenceDb, keys: seq<string>)
    requires Usable(cfg, db0) && Contiguous(keys)
    ensures ValidRun(cfg, db0, Sequential(keys))
    ensures After(cfg, db0, Sequential(keys)).pending == map[]
    ensures var log := After(cfg, db0, Sequential(keys)).log; LogContiguous(log) && Mirrors(log, keys)
  {
    if keys != [] {
      var init, key := keys[..|keys| - 1], keys[|keys| - 1];
      SequentialLog(cfg, db0, init);
      var v := SequentialStep(cfg, db0, init, key);
      assert init + [key] == keys;
      var m := After(cfg, db0, Sequential(init));
      if cfg.InScope(key) !in m.db.resets { ExtendLog(m.log, init, key, Reset(key)); }
      ExtendLog(m.log, init, key, Number(key, v));
      if cfg.InScope(key) !in m.db.resets { ExtendSameKey(m.log + [Reset(key)], keys, key, Number(key, v)); }
      assert m.log + [] == m.log;
    }
  }

  lemma ExtendLog(log: seq<Entry>, keys: seq<string>, key: string, e: Entry)
    requires LogContiguous(log) && Mirrors(log, keys) && Contiguous(keys + [key]) && e.key == key
    ensures LogContiguous(log + [e]) && Mirrors(log + [e], keys + [key])
  {
    if keys != [] && log != [] && keys[|keys| - 1] != key {
      KeyIsNew(keys, key);
      assert forall i | 0 <= i < |log| :: log[i] in log;
    }
  }

  lemma KeyIsNew(keys: seq<string>, key: string)
    requires Contiguous(keys + [key]) && keys != [] && keys[|keys| - 1] != key
    ensures key !in keys
  {
    var all := keys + [key];
    forall n | 0 <= n < |keys| ensures keys[n] != key {
      assert all[n] == keys[n] && all[|keys|] == key && all[|keys| - 1] == keys[|keys| - 1];
    }
  }

  lemma ExtendSameKey(log: seq<Entry>, keys: seq<string>, key: string, e: Entry)
    requires LogContiguous(log) && Mirrors(log, keys) && keys != [] && keys[|keys| - 1] == key && e.key == key
    ensures LogContiguous(log + [e]) && Mirrors(log + [e], keys)
  {
  }

  /**
   * Sequential requests whose scope keys come in contiguous blocks never repeat a (key, number)
   * pair: each new scope restarts at the start value and no old scope is returned to.
   */
  lemma ContiguousPairsUnique(cfg: Config, db0: SequenceDb, keys: seq<string>, p: nat, q: nat)
    requires Usable(cfg, db0) && Contiguous(keys)
    requires forall k <- keys :: cfg.InScope(k) !in db0.resets
    requires p < q < |After(cfg, db0, Sequential(keys)).log|
    requires After(cfg, db0, Sequential(keys)).log[p].Number?
    ensures After(cfg, db0, Sequential(keys)).log[p] != After(cfg, db0, Sequential(keys)).log[q]
  {
    var log := After(cfg, db0, Sequential(keys)).log;
    SequentialLog(cfg, db0, keys);
    if log[p] == log[q] {
      assert log[p] in log;
      RepeatNeedsReset(cfg, db0, Sequential(keys), p, q);
    }
  }

  function KeysOf(kind: ScopeKind, dates: seq<Date>): seq<string> {
    seq(|dates|, i requires 0 <= i < |dates| => ScopeKey(kind, dates[i]))
  }

  predicate NeverBack(dates: seq<Date>) { forall i, j | 0 <= i < j < |dates| :: NotAfter(dates[i], dates[j]) }

  /** The same for requests stamped with dates that never step back. */
  lemma MonotoneDatesUnique(cfg: Config, db0: SequenceDb, kind: ScopeKind, dates: seq<Date>, p: nat, q: nat)
    requires Usable(cfg, db0) && NeverBack(dates)
    requires forall k <- KeysOf(kind, dates) :: cfg.InScope(k) !in db0.resets
    requires p < q < |After(cfg, db0, Sequential(KeysOf(kind, dates))).log|
    requires After(cfg, db0, Sequential(KeysOf(kind, dates))).log[p].Number?
    ensures After(cfg, db0, Sequential(KeysOf(kind, dates))).log[p]
         != After(cfg, db0, Sequential(KeysOf(kind, dates))).log[q]
  {
    DatesContiguous(kind, dates);
    ContiguousPairsUnique(cfg, db0, KeysOf(kind, dates), p, q);
  }

  lemma DatesContiguous(kind: ScopeKind, dates: seq<Date>)
    requires NeverBack(dates)
    ensures Contiguous(KeysOf(kind, dates))
  {
    var keys := KeysOf(kind, dates);
    forall i, j, k | 0 <= i < j < k < |keys| && keys[i] == keys[k] ensures keys[j] == keys[i] {
      KeysContiguous(kind, dates[i], dates[j], dates[k]);
    }
  }

  /** The machine of the race below, its sequence about to hand out `next`. */
  function RaceAt(next: int, resets: set<Scope>, pending: map<Client, string>, log: seq<Entry>): Machine {
    Machine(SequenceDb(map[RACE.Name() := next], {RACE.Name()}, resets), pending, log)
  }

  const RACE := Config("t", "c", 1)

  lemma RaceStep(run: seq<Event>, e: Event, m: Machine)
    requires var db0 := RaceAt(1, {}, map[], []).db;
             ValidRun(RACE, db0, run) && Enabled(After(RACE, db0, run), e) && Step(RACE, After(RACE, db0, run), e) == m
    ensures var db0 := RaceAt(1, {}, map[], []).db;
            ValidRun(RACE, db0, run + [e]) && After(RACE, db0, run + [e]) == m
  {
    OneMore(RACE, RaceAt(1, {}, map[], []).db, run, e);
  }

  /** A request under the old scope draws, and the next one ensures it again. */
  lemma RaceStart()
    ensures var db0 := RaceAt(1, {}, map[], []).db;
            var run := [] + [Ensure(0, "d1")] + [Draw(0)] + [Ensure(0, "d1")];
            ValidRun(RACE, db0, run) &&
            After(RACE, db0, run)
            == RaceAt(2, {RACE.InScope("d1")}, map[0 := "d1"], [Reset("d1"), Number("d1", 1)])
  {
    var d1 := RACE.InScope("d1");
    var r1 := [] + [Ensure(0, "d1")];
    RaceStep([], Ensure(0, "d1"), RaceAt(1, {d1}, map[0 := "d1"], [Reset("d1")]));
    RaceStep(r1, Draw(0), RaceAt(2, {d1}, map[], [Reset("d1"), Number("d1", 1)]));
    RaceStep(r1 + [Draw(0)], Ensure(0, "d1"),
             RaceAt(2, {d1}, map[0 := "d1"], [Reset("d1"), Number("d1", 1)]));
  }

  /**
   * Across a rollover the two steps of a request are not enough: a request that ensured the old
   * scope, then lost the race to the first request of the new scope, repeats an old number.
   */
  lemma RolloverRace()
    ensures exists cfg, db0, run ::
      Usable(cfg, db0) && db0.resets == {} && ValidRun(cfg, db0, run) &&
      var log := After(cfg, db0, run).log;
      exists p, q | 0 <= p < q < |log| :: log[p].Number? && log[p] == log[q]
  {
    var db0 := RaceAt(1, {}, map[], []).db;
    var d1, d2 := RACE.InScope("d1"), RACE.InScope("d2");
    var log := [Reset("d1"), Number("d1", 1), Reset("d2")];
    var run := [] + [Ensure(0, "d1")] + [Draw(0)] + [Ensure(0, "d1")];
    RaceStart();
    RaceStep(run, Ensure(1, "d2"), RaceAt(1, {d1, d2}, map[0 := "d1", 1 := "d2"], log));
    RaceStep(run + [Ensure(1, "d2")], Draw(0), RaceAt(2, {d1, d2}, map[1 := "d2"], log + [Number("d1", 1)]));
    RepeatedInRace(run + [Ensure(1, "d2")] + [Draw(0)], log + [Number("d1", 1)]);
  }

  lemma RepeatedInRace(run: seq<Event>, log: seq<Entry>)
    requires var db0 := RaceAt(1, {}, map[], []).db; ValidRun(RACE, db0, run) && After(RACE, db0, run).log == log
    requires |log| == 4 && log[1] == log[3] == Number("d1", 1)
    ensures exists cfg, db0, run ::
      Usable(cfg, db0) && db0.resets == {} && ValidRun(cfg, db0, run) &&
      var log := After(cfg, db0, run).log;
      exists p, q | 0 <= p < q < |log| :: log[p].Number? && log[p] == log[q]
  {
    assert Usable(RACE, RaceAt(1, {}, map[], []).db);
  }
}
