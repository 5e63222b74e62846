/** One identifier: the walk over the parsed template. */
module IdService {
  import opened Prelude
  import opened GoStrings
  import opened IdTemplate
  import opened IdSequence

  datatype TemplateConfig = TemplateConfig(
    template: string, scope: ScopeKind, start: int, padLength: int, padChar: string)

  /** What one request reads from its caller, the clock, the random source and the database connection. */
  datatype Request = Request(
    tenant: string,
    templateCode: string,
    config: Option<TemplateConfig>,             // of the latest template, None if there is none or it cannot be read
    now: nat -> Date,                           // the clock as the n-th segment reads it
    variables: map<string, string>,
    dateText: (nat, string) -> Option<string>,  // the n-th segment's DATE text, None for an unknown keyword
    randomText: nat -> Option<string>,          // the n-th segment's random text, None for a bad charset
    answers: nat -> nat -> bool)                // whether the database answers the n-th segment's i-th try

  const MAX_RETRIES := 5

  datatype GenerateError =
    | NoTemplate | BraceMismatch | InvalidDateKeyword | SequenceFailure | InvalidCharset | MissingVariable(name: string)

  datatype Outcome = Outcome(db: SequenceDb, id: Result<string, GenerateError>)

  const SEQ := "SEQ"

  function RequestScope(cfg: TemplateConfig, req: Request, n: nat): Scope {
    Scope(req.tenant, req.templateCode, ScopeKey(cfg.scope, req.now(n)))
  }

  predicate SomeTryAnswers(answers: nat -> bool) { exists i: nat | i < MAX_RETRIES :: answers(i) }

  /** The reset and the draw of one SEQ token; however many tries the draw takes, it is one number. */
  function DrawInScope(db: SequenceDb, cfg: TemplateConfig, req: Request, n: nat): (SequenceDb, Option<int>) {
    match Ensured(db, RequestScope(cfg, req, n), cfg.start)
    case None => (db, None)
    case Some(ensured) =>
      match Drawn(ensured, req.tenant, req.templateCode)
      case None => (ensured, None)
      case Some((drawn, value)) => if SomeTryAnswers(req.answers(n)) then (drawn, Some(value)) else (ensured, None)
  }

  /** The text of a segment that is not a SEQ token. */
  function PlainText(s: Segment, n: nat, req: Request): Result<string, GenerateError> {
    if s.token == "" then Ok(s.literal)
    else if HasPrefix(s.token, "DATE") then
      match req.dateText(n, s.token)
      case None => Err(InvalidDateKeyword)
      case Some(text) => Ok(text)
    else if s.token == "RAND" then
      match req.randomText(n)
      case None => Err(InvalidCharset)
      case Some(text) => Ok(text)
    else if s.token in req.variables then Ok(req.variables[s.token])
    else Err(MissingVariable(s.token))
  }

  function Emit(db: SequenceDb, cfg: TemplateConfig, s: Segment, n: nat, req: Request): Outcome {
    if s.token == SEQ then
      var (db', value) := DrawInScope(db, cfg, req, n);
      match value
      case None => Outcome(db', Err(SequenceFailure))
      case Some(v) => Outcome(db', Ok(FormatSequence(v, cfg.padLength, cfg.padChar)))
    else Outcome(db, PlainText(s, n, req))
  }

  function Prefixed(text: string, o: Outcome): Outcome {
    match o.id
    case Ok(rest) => o.(id := Ok(text + rest))
    case Err(_) => o
  }

  /** The whole walk over the segments from the n-th on. */
  function EmitAll(db: SequenceDb, cfg: TemplateConfig, segments: seq<Segment>, n: nat, req: Request): Outcome
    requires n <= |segments|
    decreases |segments| - n
  {
    if n == |segments| then Outcome(db, Ok(""))
    else
      var o := Emit(db, cfg, segments[n], n, req);
      match o.id
      case Err(_) => o
      case Ok(text) => Prefixed(text, EmitAll(o.db, cfg, segments, n + 1, req))
  }

  function Generated(db: SequenceDb, req: Request): Outcome {
    match req.config
    case None => Outcome(db, Err(NoTemplate))
    case Some(cfg) =>
      match Parse(cfg.template)
      case Panicked => Outcome(db, Err(BraceMismatch))
      case Parsed(segments) => EmitAll(db, cfg, segments, 0, req)
  }

  lemma PrefixedAssoc(a: string, b: string, o: Outcome)
    ensures Prefixed(a, Prefixed(b, o)) == Prefixed(a + b, o)
  {
    if o.id.Ok? { ConcatAssoc(a, b, o.id.value); }
  }

  lemma PrefixedEmpty(text: string, o: Outcome)
    ensures Prefixed("", o) == o
    ensures o.id == Ok("") ==> Prefixed(text, o).id == Ok(text)
  {
    if o.id.Ok? {
      assert "" + o.id.value == o.id.value;
      assert text + "" == text;
    }
  }

  class IDGenService {
    const repo: IdGenRepository

    constructor (repo: IdGenRepository)
      ensures this.repo == repo
    {
      this.repo := repo;
    }

    /** `nextSeqWithRetry`: tries again after every error, and gives up after the fifth. */
    method NextSeqWithRetry(tenant: string, template: string, answers: nat -> bool) returns (value: Option<int>)
      modifies repo
      ensures value.Some? <==> SomeTryAnswers(answers) && Drawn(old(repo.Db()), tenant, template).Some?
      ensures value.None? ==> repo.Db() == old(repo.Db())
      ensures value.Some? ==> (repo.Db(), value.value) == Drawn(old(repo.Db()), tenant, template).value
    {
      for i := 0 to MAX_RETRIES
        invariant repo.Db() == old(repo.Db())
        invariant forall j: nat | j < i :: !answers(j) || Drawn(repo.Db(), tenant, template).None?
      {
        if answers(i) {
          value := repo.NextSequenceValue(tenant, template);
          if value.Some? { return; }
        }
      }
      return None;
    }

    method GenerateID(req: Request) returns (id: Result<string, GenerateError>)
      modifies repo
      ensures Outcome(repo.Db(), id) == Generated(old(repo.Db()), req)
    {
      hide Parse, ScopeKey, FormatSequence, Ensured, Drawn, PlainText, SomeTryAnswers;
      if req.config.None? { return Err(NoTemplate); }
      var cfg := req.config.value;
      var parsed := ParseTemplate(cfg.template);
      if parsed.Panicked? { return Err(BraceMismatch); }
      var parts := parsed.segments;
      var output := "";
      var n := 0;
      PrefixedEmpty("", EmitAll(repo.Db(), cfg, parts, 0, req));
      while n < |parts|
        invariant n <= |parts|
        invariant EmitAll(old(repo.Db()), cfg, parts, 0, req)
               == Prefixed(output, EmitAll(repo.Db(), cfg, parts, n, req))
      {
        var part := parts[n];
        var text := "";
        if part.token == SEQ {
          var scopeKey := ScopeKey(cfg.scope, req.now(n));
          var ok := repo.EnsureScopeReset(req.tenant, req.templateCode, scopeKey, cfg.start);
          if !ok { return Err(SequenceFailure); }
          var value := NextSeqWithRetry(req.tenant, req.templateCode, req.answers(n));
          if value.None? { return Err(SequenceFailure); }
          text := FormatSequence(value.value, cfg.padLength, cfg.padChar);
        } else {
          var plain := PlainText(part, n, req);
          if plain.Err? { return plain; }
          text := plain.value;
        }
        PrefixedAssoc(output, text, EmitAll(repo.Db(), cfg, parts, n + 1, req));
        output := output + text;
        n := n + 1;
      }
      PrefixedEmpty(output, Outcome(repo.Db(), Ok("")));
      return Ok(output);
    }
  }

  /** The text of the segments before `hi`, none of them a SEQ token. */
  ghost predicate PlainUpTo(segments: seq<Segment>, lo: nat, hi: nat, req: Request, text: string)
    requires lo <= hi <= |segments|
    decreases hi - lo
  {
    if lo == hi then text == ""
    else
      && segments[lo].token != SEQ
      && PlainText(segments[lo], lo, req).Ok?
      && var first := PlainText(segments[lo], lo, req).value;
         HasPrefix(text, first) && PlainUpTo(segments, lo + 1, hi, req, text[|first|..])
  }

  lemma {:induction false} PlainRun(db: SequenceDb, cfg: TemplateConfig, segments: seq<Segment>, lo: nat, hi: nat,
                                    req: Request)
    returns (text: string)
    requires lo <= hi <= |segments| && forall i | lo <= i < hi :: segments[i].token != SEQ
    requires EmitAll(db, cfg, segments, lo, req).id.Ok?
    ensures PlainUpTo(segments, lo, hi, req, text)
    ensures EmitAll(db, cfg, segments, lo, req) == Prefixed(text, EmitAll(db, cfg, segments, hi, req))
    decreases hi - lo
  {
    if lo == hi {
      text := "";
      var o := EmitAll(db, cfg, segments, lo, req);
      assert "" + o.id.value == o.id.value;
    } else {
      var rest := PlainRun(db, cfg, segments, lo + 1, hi, req);
      var first := PlainText(segments[lo], lo, req).value;
      text := first + rest;
      assert text[|first|..] == rest;
      PrefixedAssoc(first, rest, EmitAll(db, cfg, segments, hi, req));
    }
  }

  lemma {:induction false} PlainUnique(segments: seq<Segment>, lo: nat, hi: nat, req: Request, a: string, b: string)
    requires lo <= hi <= |segments|
    requires PlainUpTo(segments, lo, hi, req, a) && PlainUpTo(segments, lo, hi, req, b)
    ensures a == b
    decreases hi - lo
  {
    if lo < hi {
      var first := PlainText(segments[lo], lo, req).value;
      PlainUnique(segments, lo + 1, hi, req, a[|first|..], b[|first|..]);
      assert a == first + a[|first|..] && b == first + b[|first|..];
    }
  }

  predicate OnlySeqAt(segments: seq<Segment>, k: nat) {
    k < |segments| && forall i | 0 <= i < |segments| :: segments[i].token == SEQ <==> i == k
  }

  /** With a single SEQ token at `k`, an identifier is prefix, padded number, suffix. */
  lemma OneSeqShape(db: SequenceDb, cfg: TemplateConfig, segments: seq<Segment>, k: nat, req: Request)
    returns (before: string, after: string)
    requires OnlySeqAt(segments, k) && EmitAll(db, cfg, segments, 0, req).id.Ok?
    ensures PlainUpTo(segments, 0, k, req, before) && PlainUpTo(segments, k + 1, |segments|, req, after)
    ensures DrawInScope(db, cfg, req, k).1.Some?
    ensures EmitAll(db, cfg, segments, 0, req).id.value ==
            before + (FormatSequence(DrawInScope(db, cfg, req, k).1.value, cfg.padLength, cfg.padChar) + after)
  {
    before := PlainRun(db, cfg, segments, 0, k, req);
    var o := Emit(db, cfg, segments[k], k, req);
    after := PlainRun(o.db, cfg, segments, k + 1, |segments|, req);
    assert after + "" == after;
  }

  /**
   * From one template with a single SEQ token and the same other inputs, two identifiers differ
   * exactly when the numbers drawn for them differ.
   */
  lemma IdsDifferIff(db1: SequenceDb, db2: SequenceDb, req: Request, k: nat)
    requires req.config.Some? && Parse(req.config.value.template).Parsed?
    requires OnlySeqAt(Parse(req.config.value.template).segments, k)
    requires Generated(db1, req).id.Ok? && Generated(db2, req).id.Ok?
    requires DrawInScope(db1, req.config.value, req, k).1.Some? ==> DrawInScope(db1, req.config.value, req, k).1.value >= 0
    requires DrawInScope(db2, req.config.value, req, k).1.Some? ==> DrawInScope(db2, req.config.value, req, k).1.value >= 0
    requires UnambiguousPad(req.config.value.padLength, req.config.value.padChar)
    ensures Generated(db1, req).id == Generated(db2, req).id <==>
            DrawInScope(db1, req.config.value, req, k).1 == DrawInScope(db2, req.config.value, req, k).1
  {
    hide Parse, DrawInScope, FormatSequence, PlainUpTo, EmitAll, UnambiguousPad;
    var cfg := req.config.value;
    var segments := Parse(cfg.template).segments;
    var b1, a1 := OneSeqShape(db1, cfg, segments, k, req);
    var b2, a2 := OneSeqShape(db2, cfg, segments, k, req);
    PlainUnique(segments, 0, k, req, b1, b2);
    PlainUnique(segments, k + 1, |segments|, req, a1, a2);
    var v1, v2 := DrawInScope(db1, cfg, req, k).1.value, DrawInScope(db2, cfg, req, k).1.value;
    var f1 := FormatSequence(v1, cfg.padLength, cfg.padChar);
    var f2 := FormatSequence(v2, cfg.padLength, cfg.padChar);
    if b1 + (f1 + a1) == b2 + (f2 + a2) {
      MiddleEqual(b1, f1, f2, a1);
      FormatInjectiveIff(cfg.padLength, cfg.padChar);
    }
  }

  lemma MiddleEqual(b: string, x: string, y: string, a: string)
    requires b + (x + a) == b + (y + a)
    ensures x == y
  {
    assert (b + (x + a))[|b|..] == x + a && (b + (y + a))[|b|..] == y + a;
    assert (x + a)[..|x|] == x && (y + a)[..|y|] == y;
  }
}
