/** The text and the number each segment writes. */
module IdPieces {
  import opened Prelude
  import opened GoStrings
  import opened IdTemplate
  import opened IdSequence
  import opened IdService

  // ---------------------------------------------------------------- numbers and scope keys as texts

  /** Digits that read as the number, without a superfluous zero. */
  predicate Reads(s: string, n: nat) {
    |s| >= 1 && (forall c <- s :: '0' <= c <= '9') && (s[0] == '0' ==> |s| == 1) && ParseDecimal(s) == n
  }

  function Pow10(k: nat): nat { if k == 0 then 1 else 10 * Pow10(k - 1) }

  /** Reading digits: the first one counts for the highest power of ten. */
  lemma {:induction false} ReadsFirst(c: char, s: string)
    ensures ParseDecimal([c] + s) == (c as int - '0' as int) * Pow10(|s|) + ParseDecimal(s)
  {
    if s == "" {
      assert [c] + s == [c] && [c][..0] == "";
    } else {
      var t := s[..|s| - 1];
      assert ([c] + s)[..|s|] == [c] + t;
      ReadsFirst(c, t);
      assert 10 * ((c as int - '0' as int) * Pow10(|t|)) == (c as int - '0' as int) * (10 * Pow10(|t|));
    }
  }

  /** The pad as often as characters are missing, then a sign and the number's digits. */
  ghost predicate PaddedNumber(text: string, n: int, padLength: int, padChar: string) {
    exists pads, sign, digits ::
      && text == pads + (sign + digits)
      && sign == (if n < 0 then "-" else "") && Reads(digits, if n < 0 then -n else n)
      && PaddedBy(pads, if padChar == "" then "0" else padChar, padLength - |sign + digits|)
  }

  /** So many copies of the pad, none for a count that is not positive. */
  ghost predicate PaddedBy(pads: string, pad: string, count: int) {
    exists copies: seq<string> ::
      && pads == Join(copies, "") && |copies| == (if count > 0 then count else 0)
      && forall i | 0 <= i < |copies| :: copies[i] == pad
  }

  lemma {:induction false} RepeatIsJoin(pad: string, copies: seq<string>)
    requires forall i | 0 <= i < |copies| :: copies[i] == pad
    ensures Repeat(pad, |copies|) == Join(copies, "")
  {
    if copies != [] {
      RepeatIsJoin(pad, copies[1..]);
      if |copies| == 1 { assert Join(copies[1..], "") == ""; }
      assert pad + "" + Join(copies[1..], "") == pad + Join(copies[1..], "");
    }
  }

  lemma FormatIsPadded(n: int, padLength: int, padChar: string)
    ensures PaddedNumber(FormatSequence(n, padLength, padChar), n, padLength, padChar)
  {
    hide Reads, Join;
    var pad := if padChar == "" then "0" else padChar;
    var size: nat := if n < 0 then -n else n;
    var sign, digits := if n < 0 then "-" else "", Decimal(size);
    DecimalReads(size);
    assert FormatInt(n) == sign + digits;
    var count: nat := if padLength > |sign + digits| then padLength - |sign + digits| else 0;
    var copies := seq(count, i => pad);
    RepeatIsJoin(pad, copies);
    assert PaddedBy(Repeat(pad, count), pad, padLength - |sign + digits|);
    WrittenAs(n, padLength, padChar, sign + digits);
    assert FormatSequence(n, padLength, padChar) == Repeat(pad, count) + (sign + digits);
  }

  lemma WrittenAs(n: int, padLength: int, padChar: string, written: string)
    requires FormatInt(n) == written
    ensures FormatSequence(n, padLength, padChar)
         == Repeat(if padChar == "" then "0" else padChar, if padLength > |written| then padLength - |written| else 0)
            + written
  {
    hide FormatInt, Decimal;
    var pad := if padChar == "" then "0" else padChar;
    if padLength <= 0 {
      assert Repeat(pad, 0) == "";
      assert "" + written == written;
    }
  }

  lemma DecimalReads(n: nat)
    ensures Reads(Decimal(n), n)
  {
    ParseOfDecimal(n);
    assert forall c <- Decimal(n) :: IsDigit(c);
  }

  /** Digits of at least this width that read as the number, zeros in front only to fill up. */
  predicate ReadsWide(s: string, n: nat, width: nat) {
    && |s| >= width && (|s| > width ==> s[0] != '0')
    && (forall c <- s :: '0' <= c <= '9') && ParseDecimal(s) == n
  }

  lemma {:induction false} ZerosFirst(k: nat, s: string)
    requires |s| >= 1
    ensures |Repeat("0", k)| == k && (forall c <- Repeat("0", k) :: c == '0')
    ensures ParseDecimal(Repeat("0", k) + s) == ParseDecimal(s)
  {
    if k > 0 {
      ZerosFirst(k - 1, s);
      var rest := Repeat("0", k - 1);
      assert Repeat("0", k) + s == ['0'] + (rest + s);
      ReadsFirst('0', rest + s);
    } else {
      assert Repeat("0", 0) + s == s;
    }
  }

  lemma FormatReadsWide(n: nat, width: nat)
    requires width >= 1
    ensures ReadsWide(FormatSequence(n, width, "0"), n, width)
  {
    var digits := Decimal(n);
    var count: nat := if width > |digits| then width - |digits| else 0;
    DecimalReads(n);
    ZerosFirst(count, digits);
    WrittenAs(n, width, "0", digits);
  }

  /** The year, the year and month or the whole date, four and two digits wide, or the one global key. */
  lemma ScopeKeyIs(kind: ScopeKind, t: Date) returns (y: string, m: string, d: string)
    ensures ReadsWide(y, t.year, 4) && ReadsWide(m, t.month, 2) && ReadsWide(d, t.day, 2)
    ensures ScopeKey(kind, t)
         == match kind
            case Daily => y + "-" + m + "-" + d
            case Monthly => y + "-" + m
            case Yearly => y
            case Global => "global"
  {
    hide FormatSequence, ReadsWide;
    y, m, d := FormatSequence(t.year, 4, "0"), FormatSequence(t.month, 2, "0"), FormatSequence(t.day, 2, "0");
    FormatReadsWide(t.year, 4);
    FormatReadsWide(t.month, 2);
    FormatReadsWide(t.day, 2);
    assert [y, m, d][1..] == [m, d] && [m, d][1..] == [d] && [y, m][1..] == [m];
    assert Join([d], "-") == d && Join([m], "-") == m;
    assert Join([m, d], "-") == m + "-" + d && Join([y, m, d], "-") == y + "-" + Join([m, d], "-");
    assert Join([y, m], "-") == y + "-" + m;
    assert y + "-" + (m + "-" + d) == y + "-" + m + "-" + d;
  }

  // ---------------------------------------------------------------- pieces

  /** The sequence's name, and the scope a request's n-th segment draws in. */
  function Name(req: Request): string { req.tenant + ":" + req.templateCode }

  function ScopeOf(cfg: TemplateConfig, req: Request, n: nat): Scope {
    Scope(req.tenant, req.templateCode, ScopeKey(cfg.scope, req.now(n)))
  }

  /** One of five tries is answered. */
  predicate Answered(req: Request, n: nat) {
    req.answers(n)(0) || req.answers(n)(1) || req.answers(n)(2) || req.answers(n)(3) || req.answers(n)(4)
  }

  /** The sequence exists, and can be started where the scope is new. */
  predicate CanEnsure(db: SequenceDb, cfg: TemplateConfig, req: Request, n: nat) {
    ScopeOf(cfg, req, n) in db.resets || (Name(req) in db.next && cfg.start >= 1)
  }

  /** The store with the scope recorded, its sequence at the start if the scope was new. */
  ghost predicate EnsuredTo(db: SequenceDb, db': SequenceDb, cfg: TemplateConfig, req: Request, n: nat) {
    && db'.lookups == db.lookups && db'.resets == db.resets + {ScopeOf(cfg, req, n)}
    && (if ScopeOf(cfg, req, n) in db.resets then db'.next == db.next else db'.next == db.next[Name(req) := cfg.start])
  }

  /** A number drawn: the start in a new scope, else the stored next one, which moves on by one. */
  ghost predicate Draws(db: SequenceDb, db': SequenceDb, cfg: TemplateConfig, req: Request, n: nat, number: int) {
    && CanEnsure(db, cfg, req, n) && Answered(req, n) && Name(req) in db.next
    && number == (if ScopeOf(cfg, req, n) in db.resets then db.next[Name(req)] else cfg.start)
    && db'.next == db.next[Name(req) := number + 1]
    && db'.resets == db.resets + {ScopeOf(cfg, req, n)} && db'.lookups == db.lookups
  }

  lemma DrawIs(db: SequenceDb, cfg: TemplateConfig, req: Request, n: nat)
    ensures var (db', value) := DrawInScope(db, cfg, req, n);
            match value
            case Some(number) => Draws(db, db', cfg, req, n, number)
            case None => !(CanEnsure(db, cfg, req, n) && Answered(req, n) && Name(req) in db.next)
                         && if CanEnsure(db, cfg, req, n) then EnsuredTo(db, db', cfg, req, n) else db' == db
  {
    AnsweredIff(req, n);
    assert Name(req) == SequenceName(req.tenant, req.templateCode);
  }

  lemma AnsweredIff(req: Request, n: nat)
    ensures SomeTryAnswers(req.answers(n)) <==> Answered(req, n)
  {
    var answers := req.answers(n);
    if i: nat :| i < MAX_RETRIES && answers(i) {
      assert i == 0 || i == 1 || i == 2 || i == 3 || i == 4;
    }
  }

  /** A segment writes its literal, its DATE text, its random text, its number or its variable. */
  ghost predicate Writes(db: SequenceDb, db': SequenceDb, cfg: TemplateConfig, s: Segment, n: nat, req: Request,
                         text: string) {
    if s.token == "" then text == s.literal && db' == db
    else if s.token == "SEQ" then
      exists number :: Draws(db, db', cfg, req, n, number) && PaddedNumber(text, number, cfg.padLength, cfg.padChar)
    else if HasPrefix(s.token, "DATE") then req.dateText(n, s.token) == Some(text) && db' == db
    else if s.token == "RAND" then req.randomText(n) == Some(text) && db' == db
    else s.token in req.variables && text == req.variables[s.token] && db' == db
  }

  /** Why a segment fails, and what it leaves: a SEQ token that gets no number may have restarted its sequence. */
  ghost predicate Fails(db: SequenceDb, db': SequenceDb, cfg: TemplateConfig, s: Segment, n: nat, req: Request,
                        error: GenerateError) {
    if s.token == "" then false
    else if s.token == "SEQ" then
      && error == SequenceFailure && !(CanEnsure(db, cfg, req, n) && Answered(req, n) && Name(req) in db.next)
      && if CanEnsure(db, cfg, req, n) then EnsuredTo(db, db', cfg, req, n) else db' == db
    else if HasPrefix(s.token, "DATE") then req.dateText(n, s.token) == None && error == InvalidDateKeyword && db' == db
    else if s.token == "RAND" then req.randomText(n) == None && error == InvalidCharset && db' == db
    else s.token !in req.variables && error == MissingVariable(s.token) && db' == db
  }

  lemma EmitIs(db: SequenceDb, cfg: TemplateConfig, s: Segment, n: nat, req: Request)
    ensures var o := Emit(db, cfg, s, n, req);
            match o.id
            case Ok(text) => Writes(db, o.db, cfg, s, n, req, text)
            case Err(e) => Fails(db, o.db, cfg, s, n, req, e)
  {
    hide DrawInScope, FormatSequence, Draws, EnsuredTo, CanEnsure, Answered, PaddedNumber;
    if s.token == "SEQ" {
      DrawIs(db, cfg, req, n);
      var value := DrawInScope(db, cfg, req, n).1;
      if value.Some? { FormatIsPadded(value.value, cfg.padLength, cfg.padChar); }
    }
  }

  /** The pieces of the segments from the n-th on, each written to the store the one before left. */
  ghost predicate Chain(dbs: seq<SequenceDb>, texts: seq<string>, cfg: TemplateConfig, segments: seq<Segment>, n: nat,
                        req: Request) {
    && |dbs| == |texts| + 1 && n + |texts| <= |segments|
    && forall i | 0 <= i < |texts| :: Writes(dbs[i], dbs[i + 1], cfg, segments[n + i], n + i, req, texts[i])
  }

  lemma ChainFirst(db: SequenceDb, text: string, dbs: seq<SequenceDb>, texts: seq<string>, cfg: TemplateConfig,
                   segments: seq<Segment>, n: nat, req: Request)
    requires n < |segments| && Chain(dbs, texts, cfg, segments, n + 1, req)
    requires Writes(db, dbs[0], cfg, segments[n], n, req, text)
    ensures Chain([db] + dbs, [text] + texts, cfg, segments, n, req)
    ensures Join([text] + texts, "") == text + Join(texts, "")
  {
    hide Writes;
    assert ([text] + texts)[1..] == texts;
    forall i | 0 <= i < |texts| + 1
      ensures Writes(([db] + dbs)[i], ([db] + dbs)[i + 1], cfg, segments[n + i], n + i, req, ([text] + texts)[i]) {
      if i > 0 { assert n + i == n + 1 + (i - 1); }
    }
    if texts == [] { assert text + "" == text; } else { assert text + "" + Join(texts, "") == text + Join(texts, ""); }
  }

  lemma {:induction false} PiecesFrom(db: SequenceDb, cfg: TemplateConfig, segments: seq<Segment>, n: nat, req: Request)
    returns (dbs: seq<SequenceDb>, texts: seq<string>)
    requires n <= |segments|
    ensures Chain(dbs, texts, cfg, segments, n, req) && dbs[0] == db
    ensures var o := EmitAll(db, cfg, segments, n, req);
            match o.id
            case Ok(id) => n + |texts| == |segments| && o.db == dbs[|texts|] && id == Join(texts, "")
            case Err(e) => n + |texts| < |segments|
                           && Fails(dbs[|texts|], o.db, cfg, segments[n + |texts|], n + |texts|, req, e)
    decreases |segments| - n
  {
    hide Emit, Writes, Fails, Join;
    dbs, texts := [db], [];
    if n < |segments| {
      EmitIs(db, cfg, segments[n], n, req);
      var o := Emit(db, cfg, segments[n], n, req);
      if o.id.Ok? {
        var dbs', texts' := PiecesFrom(o.db, cfg, segments, n + 1, req);
        ChainFirst(db, o.id.value, dbs', texts', cfg, segments, n, req);
        dbs, texts := [db] + dbs', [o.id.value] + texts';
      }
    } else {
      assert Join([], "") == "" by { NothingJoined(); }
    }
  }

  lemma NothingJoined()
    ensures Join([], "") == ""
  {
  }

  /**
   * An identifier is the texts of its template's segments, one after another, each from the store the one before left. A
   * request fails without a template, on a panicking one, or at its first segment without a text, keeping what came before.
   */
  lemma IdIsPieces(db: SequenceDb, req: Request) returns (dbs: seq<SequenceDb>, texts: seq<string>)
    ensures var o := Generated(db, req);
            if req.config == None then o.id == Err(NoTemplate) && o.db == db
            else if Parse(req.config.value.template) == Panicked then o.id == Err(BraceMismatch) && o.db == db
            else
              var segments := Parse(req.config.value.template).segments;
              && Chain(dbs, texts, req.config.value, segments, 0, req) && dbs[0] == db
              && match o.id
                 case Ok(id) => |texts| == |segments| && o.db == dbs[|texts|] && id == Join(texts, "")
                 case Err(e) => |texts| < |segments|
                                && Fails(dbs[|texts|], o.db, req.config.value, segments[|texts|], |texts|, req, e)
  {
    dbs, texts := [], [];
    if req.config.Some? && Parse(req.config.value.template).Parsed? {
      dbs, texts := PiecesFrom(db, req.config.value, Parse(req.config.value.template).segments, 0, req);
    }
  }
}
