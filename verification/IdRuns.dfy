/** The numbers that requests draw in turn. */
module IdRuns {
  import opened Prelude
  import opened GoStrings
  import opened IdTemplate
  import opened IdSequence
  import opened IdService
  import opened IdPieces

  // ---------------------------------------------------------------- one request

  /** A request for a template with one SEQ token, its k-th segment. */
  ghost predicate OneSeq(req: Request, k: nat) {
    && req.config.Some? && Parse(req.config.value.template).Parsed?
    && OnlySeqAt(Parse(req.config.value.template).segments, k)
  }

  /** Only the SEQ token touches the store. */
  lemma {:induction false} ChainStore(dbs: seq<SequenceDb>, texts: seq<string>, cfg: TemplateConfig, segments: seq<Segment>,
                                      k: nat, req: Request, i: nat)
    requires Chain(dbs, texts, cfg, segments, 0, req) && OnlySeqAt(segments, k) && i <= |texts|
    ensures i <= k ==> dbs[i] == dbs[0]
    ensures k < i ==> dbs[i] == dbs[k + 1]
  {
    if i > 0 {
      ChainStore(dbs, texts, cfg, segments, k, req, i - 1);
      assert 0 + (i - 1) == i - 1;
      assert Writes(dbs[i - 1], dbs[i], cfg, segments[i - 1], i - 1, req, texts[i - 1]);
    }
  }

  /** The machine of the interleaved requests takes the same two steps. */
  ghost predicate TakesBothSteps(db: SequenceDb, db': SequenceDb, cfg: Config, key: string, number: int) {
    var m := Machine(db, map[], []);
    && Enabled(m, Ensure(0, key)) && Enabled(Step(cfg, m, Ensure(0, key)), Draw(0))
    && var end := Step(cfg, Step(cfg, m, Ensure(0, key)), Draw(0));
       && end.db == db' && end.pending == map[]
       && end.log == (if cfg.InScope(key) in db.resets then [] else [Reset(key)]) + [Number(key, number)]
  }

  lemma DrawsBySteps(db: SequenceDb, db': SequenceDb, cfg: TemplateConfig, req: Request, n: nat, number: int)
    requires Draws(db, db', cfg, req, n, number)
    ensures TakesBothSteps(db, db', Config(req.tenant, req.templateCode, cfg.start), ScopeKey(cfg.scope, req.now(n)),
                           number)
  {
    var config, key := Config(req.tenant, req.templateCode, cfg.start), ScopeKey(cfg.scope, req.now(n));
    assert Name(req) == config.Name();
    var m := Machine(db, map[], []);
    var ensured := Step(config, m, Ensure(0, key));
    assert ensured.pending == map[0 := key];
    var end := Step(config, ensured, Draw(0));
    assert end.pending == map[];
    assert end.db.next == db'.next;
    assert end.db == db';
  }

  /** What a request with one SEQ token may leave: nothing new, a recorded scope, or that and a drawn number. */
  ghost predicate Advances(db: SequenceDb, db': SequenceDb, req: Request, k: nat)
    requires req.config.Some?
  {
    || db' == db
    || (CanEnsure(db, req.config.value, req, k) && EnsuredTo(db, db', req.config.value, req, k))
    || exists number :: Draws(db, db', req.config.value, req, k, number)
  }

  /**
   * A successful request records its scope and draws one number, the start in a new scope and else the next one; the
   * identifier is that number, padded, among the texts of the other segments. A failing one draws at most one number.
   */
  lemma OneRequest(db: SequenceDb, req: Request, k: nat) returns (texts: seq<string>, number: int)
    requires OneSeq(req, k)
    ensures var o, cfg := Generated(db, req), req.config.value;
            var segments := Parse(cfg.template).segments;
            && Advances(db, o.db, req, k)
            && (o.id.Ok? ==>
                  && Draws(db, o.db, cfg, req, k, number)
                  && TakesBothSteps(db, o.db, Config(req.tenant, req.templateCode, cfg.start),
                                    ScopeKey(cfg.scope, req.now(k)), number)
                  && |texts| == |segments| && o.id.value == Join(texts, "")
                  && PaddedNumber(texts[k], number, cfg.padLength, cfg.padChar)
                  && forall i | 0 <= i < |texts| && i != k :: Writes(db, db, cfg, segments[i], i, req, texts[i]))
  {
    hide Draws, EnsuredTo, CanEnsure, Answered, PaddedNumber, Generated, Parse, TakesBothSteps;
    var cfg, o := req.config.value, Generated(db, req);
    var segments := Parse(cfg.template).segments;
    var dbs;
    dbs, texts := IdIsPieces(db, req);
    ChainStore(dbs, texts, cfg, segments, k, req, |texts|);
    number := 0;
    if k < |texts| {
      ChainStore(dbs, texts, cfg, segments, k, req, k);
      assert 0 + k == k;
      assert Writes(dbs[k], dbs[k + 1], cfg, segments[k], k, req, texts[k]);
      number :| Draws(db, dbs[k + 1], cfg, req, k, number) && PaddedNumber(texts[k], number, cfg.padLength, cfg.padChar);
      DrawsBySteps(db, dbs[k + 1], cfg, req, k, number);
      forall i | 0 <= i < |texts| && i != k ensures Writes(db, db, cfg, segments[i], i, req, texts[i]) {
        assert Writes(dbs[i], dbs[i + 1], cfg, segments[0 + i], 0 + i, req, texts[i]);
      }
    }
  }

  // ---------------------------------------------------------------- requests in turn

  /** Requests of one tenant for one template, each to the store the one before left. */
  ghost predicate InTurn(dbs: seq<SequenceDb>, reqs: seq<Request>, k: nat, cfg: TemplateConfig) {
    && |dbs| == |reqs| + 1
    && (forall i | 0 <= i < |reqs| :: OneSeq(reqs[i], k) && reqs[i].config == Some(cfg)
                                      && Generated(dbs[i], reqs[i]).db == dbs[i + 1])
    && (forall i, j | 0 <= i < j < |reqs| ::
          reqs[i].tenant == reqs[j].tenant && reqs[i].templateCode == reqs[j].templateCode)
  }

  /** Requests with one scope key, those between them included. */
  predicate OneKey(reqs: seq<Request>, k: nat, cfg: TemplateConfig, i: nat, j: nat)
    requires i < |reqs| && j <= |reqs|
  {
    forall m | i <= m < j :: ScopeOf(cfg, reqs[m], k) == ScopeOf(cfg, reqs[i], k)
  }

  lemma OneInTurn(dbs: seq<SequenceDb>, reqs: seq<Request>, k: nat, cfg: TemplateConfig, i: nat)
    requires InTurn(dbs, reqs, k, cfg) && i < |reqs|
    ensures reqs[i].config == Some(cfg) && Advances(dbs[i], dbs[i + 1], reqs[i], k)
  {
    var texts, number := OneRequest(dbs[i], reqs[i], k);
  }

  /** Under a recorded scope the next number never goes back. */
  lemma {:induction false} NextGrows(dbs: seq<SequenceDb>, reqs: seq<Request>, k: nat, cfg: TemplateConfig, i: nat, j: nat)
    requires InTurn(dbs, reqs, k, cfg) && i < |reqs| && i <= j <= |reqs| && OneKey(reqs, k, cfg, i, j)
    requires ScopeOf(cfg, reqs[i], k) in dbs[i].resets && Name(reqs[i]) in dbs[i].next
    ensures ScopeOf(cfg, reqs[i], k) in dbs[j].resets && Name(reqs[i]) in dbs[j].next
    ensures dbs[j].next[Name(reqs[i])] >= dbs[i].next[Name(reqs[i])]
    decreases j
  {
    hide OneSeq, Generated;
    if i < j {
      NextGrows(dbs, reqs, k, cfg, i, j - 1);
      OneInTurn(dbs, reqs, k, cfg, j - 1);
      assert Name(reqs[j - 1]) == Name(reqs[i]);
    }
  }

  /** Whatever fails in between: under one key, unbroken, a later identifier carries a larger number. */
  lemma NumbersGrow(dbs: seq<SequenceDb>, reqs: seq<Request>, k: nat, cfg: TemplateConfig, i: nat, j: nat, a: int, b: int)
    requires InTurn(dbs, reqs, k, cfg) && i < j < |reqs| && OneKey(reqs, k, cfg, i, j + 1)
    requires Draws(dbs[i], dbs[i + 1], cfg, reqs[i], k, a) && Draws(dbs[j], dbs[j + 1], cfg, reqs[j], k, b)
    ensures a < b
  {
    hide OneSeq, Generated;
    assert forall m | i + 1 <= m < j :: ScopeOf(cfg, reqs[m], k) == ScopeOf(cfg, reqs[i + 1], k);
    assert Name(reqs[i + 1]) == Name(reqs[i]) == Name(reqs[j]);
    NextGrows(dbs, reqs, k, cfg, i + 1, j);
  }

  /** Requests on dates that never step back: under one key a later identifier carries a larger number. */
  lemma DatedNumbersGrow(dbs: seq<SequenceDb>, reqs: seq<Request>, k: nat, cfg: TemplateConfig, i: nat, j: nat, a: int,
                         b: int)
    requires InTurn(dbs, reqs, k, cfg) && i < j < |reqs|
    requires Draws(dbs[i], dbs[i + 1], cfg, reqs[i], k, a) && Draws(dbs[j], dbs[j + 1], cfg, reqs[j], k, b)
    requires forall m, n | 0 <= m < n < |reqs| :: NotAfter(reqs[m].now(k), reqs[n].now(k))
    requires ScopeKey(cfg.scope, reqs[i].now(k)) == ScopeKey(cfg.scope, reqs[j].now(k))
    ensures a < b
  {
    hide OneSeq, Generated, Draws, ScopeKey, NotAfter;
    forall m | i <= m < j + 1 ensures ScopeOf(cfg, reqs[m], k) == ScopeOf(cfg, reqs[i], k) {
      if i < m < j { KeysContiguous(cfg.scope, reqs[i].now(k), reqs[m].now(k), reqs[j].now(k)); }
    }
    NumbersGrow(dbs, reqs, k, cfg, i, j, a, b);
  }

  /** Requests that all succeed, with the numbers they draw. */
  ghost predicate AllDraw(dbs: seq<SequenceDb>, reqs: seq<Request>, k: nat, cfg: TemplateConfig, numbers: seq<int>) {
    && InTurn(dbs, reqs, k, cfg) && |numbers| == |reqs|
    && forall i | 0 <= i < |reqs| :: Draws(dbs[i], dbs[i + 1], cfg, reqs[i], k, numbers[i])
  }

  /** The scope is recorded at the beginning or an earlier request is in it. */
  ghost predicate Known(dbs: seq<SequenceDb>, reqs: seq<Request>, k: nat, cfg: TemplateConfig, i: nat)
    requires |dbs| > 0 && i < |reqs|
  {
    ScopeOf(cfg, reqs[i], k) in dbs[0].resets || MetBefore(reqs, k, cfg, i, ScopeOf(cfg, reqs[i], k))
  }

  predicate MetBefore(reqs: seq<Request>, k: nat, cfg: TemplateConfig, i: nat, scope: Scope)
    requires i <= |reqs|
  {
    exists m | 0 <= m < i :: ScopeOf(cfg, reqs[m], k) == scope
  }

  lemma MetNext(reqs: seq<Request>, k: nat, cfg: TemplateConfig, i: nat, scope: Scope)
    requires i < |reqs|
    ensures MetBefore(reqs, k, cfg, i + 1, scope)
       <==> MetBefore(reqs, k, cfg, i, scope) || ScopeOf(cfg, reqs[i], k) == scope
  {
  }

  lemma DrawSizes(dbs: seq<SequenceDb>, reqs: seq<Request>, k: nat, cfg: TemplateConfig, numbers: seq<int>)
    requires AllDraw(dbs, reqs, k, cfg, numbers)
    ensures |dbs| == |reqs| + 1
  {
  }

  lemma Records(dbs: seq<SequenceDb>, reqs: seq<Request>, k: nat, cfg: TemplateConfig, numbers: seq<int>, i: nat)
    requires AllDraw(dbs, reqs, k, cfg, numbers) && i < |reqs|
    ensures |dbs| == |reqs| + 1 && dbs[i + 1].resets == dbs[i].resets + {ScopeOf(cfg, reqs[i], k)}
  {
    hide OneSeq, Generated;
    assert Draws(dbs[i], dbs[i + 1], cfg, reqs[i], k, numbers[i]);
  }

  lemma {:induction false} RecordedIff(dbs: seq<SequenceDb>, reqs: seq<Request>, k: nat, cfg: TemplateConfig,
                                       numbers: seq<int>, i: nat, scope: Scope)
    requires AllDraw(dbs, reqs, k, cfg, numbers) && i <= |reqs|
    ensures |dbs| == |reqs| + 1
    ensures scope in dbs[i].resets <==> scope in dbs[0].resets || MetBefore(reqs, k, cfg, i, scope)
  {
    hide AllDraw, ScopeOf;
    DrawSizes(dbs, reqs, k, cfg, numbers);
    if i > 0 {
      hide MetBefore;
      MetNext(reqs, k, cfg, i - 1, scope);
      RecordedIff(dbs, reqs, k, cfg, numbers, i - 1, scope);
      Records(dbs, reqs, k, cfg, numbers, i - 1);
    }
  }

  /** Successful requests number themselves: the start in a new scope, and else one more than the request before. */
  lemma NumbersInTurn(dbs: seq<SequenceDb>, reqs: seq<Request>, k: nat, cfg: TemplateConfig, numbers: seq<int>, i: nat)
    requires AllDraw(dbs, reqs, k, cfg, numbers) && i < |reqs|
    ensures Name(reqs[0]) in dbs[0].next
    ensures numbers[i] == if !Known(dbs, reqs, k, cfg, i) then cfg.start
                          else if i == 0 then dbs[0].next[Name(reqs[0])] else numbers[i - 1] + 1
  {
    hide OneSeq, Generated;
    RecordedIff(dbs, reqs, k, cfg, numbers, i, ScopeOf(cfg, reqs[i], k));
    assert Draws(dbs[0], dbs[1], cfg, reqs[0], k, numbers[0]);
    assert Draws(dbs[i], dbs[i + 1], cfg, reqs[i], k, numbers[i]);
    if i > 0 {
      assert Draws(dbs[i - 1], dbs[i], cfg, reqs[i - 1], k, numbers[i - 1]);
      assert Name(reqs[i - 1]) == Name(reqs[i]);
    }
  }

  /** From the first request in a new scope on, the numbers count up from the start. */
  lemma {:induction false} ScopeCountsUp(dbs: seq<SequenceDb>, reqs: seq<Request>, k: nat, cfg: TemplateConfig,
                                         numbers: seq<int>, first: nat, i: nat)
    requires AllDraw(dbs, reqs, k, cfg, numbers) && first <= i < |reqs|
    requires !Known(dbs, reqs, k, cfg, first) && OneKey(reqs, k, cfg, first, i + 1)
    ensures numbers[i] == cfg.start + (i - first)
    decreases i
  {
    hide AllDraw, ScopeOf;
    NumbersInTurn(dbs, reqs, k, cfg, numbers, i);
    if first < i {
      ScopeCountsUp(dbs, reqs, k, cfg, numbers, first, i - 1);
      assert ScopeOf(cfg, reqs[first], k) == ScopeOf(cfg, reqs[i], k);
    }
  }
}
