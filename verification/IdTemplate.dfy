/**
 * The brace-template parser, its round trip with the printer of segment lists, and the formatter of padded numbers with
 * the pads that keep numbers apart.
 */
module IdTemplate {
  import opened GoStrings

  // ---------------------------------------------------------------- parseTemplate

  /** A parsed piece of a template; exactly one of the two fields is meant to be non-empty. */
  datatype Segment = Segment(literal: string, token: string)

  /** Slicing with a bound below the start panics: `tmpl[start+1:end]` with end <= start. */
  datatype ParseResult = Parsed(segments: seq<Segment>) | Panicked

  function Text(s: string): Segment { Segment(s, "") }

  function Token(s: string): Segment { Segment("", s) }

  function Prepend(front: seq<Segment>, r: ParseResult): ParseResult {
    match r
    case Parsed(segments) => Parsed(front + segments)
    case Panicked => Panicked
  }

  function LeadingText(tmpl: string, start: nat): seq<Segment>
    requires start <= |tmpl|
  {
    if start > 0 then [Text(tmpl[..start])] else []
  }

  /** What the parsing loop still has to produce; one-character searches are places of the character. */
  function Parse(tmpl: string): ParseResult
    decreases |tmpl|
  {
    var start := IndexByte(tmpl, '{');
    if start == -1 then Parsed(if tmpl == "" then [] else [Text(tmpl)])
    else
      var end := IndexByte(tmpl, '}');
      if end == -1 then Parsed(LeadingText(tmpl, start))
      else if end < start + 1 then Panicked
      else
        Prepend(LeadingText(tmpl, start) + [Token(tmpl[start + 1..end])], Parse(tmpl[end + 1..]))
  }

  /** `parseTemplate`: each round consumes through the first closing brace. */
  method ParseTemplate(template: string) returns (r: ParseResult)
    ensures r == Parse(template)
  {
    hide Parse;
    var tmpl := template;
    var result: seq<Segment> := [];
    while true
      invariant Parse(template) == Prepend(result, Parse(tmpl))
      decreases |tmpl|
    {
      ParseCases(tmpl);
      var start := IndexByte(tmpl, '{');
      if start == -1 {
        if tmpl != "" {
          result := result + [Text(tmpl)];
        }
        break;
      }
      ghost var before := result;
      if start > 0 {
        result := result + [Text(tmpl[..start])];
      }
      assert result == before + LeadingText(tmpl, start);
      var end := IndexByte(tmpl, '}');
      if end == -1 {
        break;
      }
      if end < start + 1 {
        return Panicked;
      }
      ParseRound(before, tmpl, start, end);
      result := result + [Token(tmpl[start + 1..end])];
      tmpl := tmpl[end + 1..];
    }
    return Parsed(result);
  }

  /** One round of the parse, whatever is left after it. */
  lemma ParseCases(tmpl: string)
    ensures var start, end := IndexByte(tmpl, '{'), IndexByte(tmpl, '}');
            Parse(tmpl) ==
            if start == -1 then Parsed(if tmpl == "" then [] else [Text(tmpl)])
            else if end == -1 then Parsed(LeadingText(tmpl, start))
            else if end < start + 1 then Panicked
            else Prepend(LeadingText(tmpl, start) + [Token(tmpl[start + 1..end])], Parse(tmpl[end + 1..]))
  {
  }

  lemma ParseRound(before: seq<Segment>, tmpl: string, start: nat, end: nat)
    requires start == IndexByte(tmpl, '{') && end == IndexByte(tmpl, '}') && start < end
    ensures Prepend(before, Parse(tmpl)) ==
            Prepend(before + LeadingText(tmpl, start) + [Token(tmpl[start + 1..end])], Parse(tmpl[end + 1..]))
  {
    hide Parse;
    ParseCases(tmpl);
    PrependAssoc(before, LeadingText(tmpl, start), [Token(tmpl[start + 1..end])], Parse(tmpl[end + 1..]));
  }

  lemma PrependAssoc(a: seq<Segment>, b: seq<Segment>, c: seq<Segment>, r: ParseResult)
    ensures Prepend(a, Prepend(b + c, r)) == Prepend(a + b + c, r)
  {
    ConcatAssoc(a, b, c);
    if r.Parsed? { ConcatAssoc(a, b + c, r.segments); }
  }

  /** How a segment is written in a template. */
  function PrintSegment(s: Segment): string {
    if s.token == "" then s.literal else "{" + s.token + "}"
  }

  function Print(segments: seq<Segment>): string {
    if segments == [] then "" else PrintSegment(segments[0]) + Print(segments[1..])
  }

  /**
   * Segment lists a template can spell: non-empty tokens without a closing brace, non-empty
   * literals without an opening brace, each literal but the last followed by a token and free of
   * closing braces.
   */
  predicate Canonical(segments: seq<Segment>) {
    forall i | 0 <= i < |segments| :: CanonicalAt(segments, i)
  }

  predicate CanonicalAt(segments: seq<Segment>, i: nat)
    requires i < |segments|
  {
    var s := segments[i];
    if s.token == "" then
      && s.literal != "" && '{' !in s.literal
      && (i + 1 < |segments| ==> '}' !in s.literal && segments[i + 1].token != "")
    else
      s.literal == "" && '}' !in s.token
  }

  lemma CanonicalDrop(segments: seq<Segment>, n: nat)
    requires Canonical(segments) && n <= |segments|
    ensures Canonical(segments[n..])
  {
    forall i | 0 <= i < |segments| - n ensures CanonicalAt(segments[n..], i) {
      assert CanonicalAt(segments, n + i);
    }
  }

  lemma ParseStep(t: string, lit: string, token: string, rest: string)
    requires '{' !in lit && '}' !in lit && '}' !in token
    requires t == lit + "{" + token + "}" + rest
    ensures Parse(t) == Prepend((if lit == "" then [] else [Text(lit)]) + [Token(token)], Parse(rest))
  {
    hide Parse;
    ParseCases(t);
    IndexByteIs(t, '{');
    IndexByteIs(t, '}');
    var start, end := IndexByte(t, '{'), IndexByte(t, '}');
    assert t[|lit|] == '{' && t[..|lit|] == lit;
    assert start == |lit|;
    assert t[|lit| + 1 + |token|] == '}';
    assert t[..|lit| + 1 + |token|] == lit + "{" + token;
    assert end == |lit| + 1 + |token|;
    assert t[start + 1..end] == token && t[end + 1..] == rest;
  }

  /** Parsing what a canonical list prints gives the list back. */
  lemma {:induction false} ParseOfPrint(segments: seq<Segment>)
    requires Canonical(segments)
    ensures Parse(Print(segments)) == Parsed(segments)
    decreases |segments|, 1
  {
    if segments != [] {
      var first, rest := segments[0], segments[1..];
      assert CanonicalAt(segments, 0);
      assert segments == [first] + rest;
      PrintCons(first, rest);
      if first.token != "" {
        CanonicalDrop(segments, 1);
        ParseOfPrint(rest);
        ParseOfToken(first.token, rest);
      } else if rest == [] {
        IndexByteIs(first.literal, '{');
        assert first.literal + "" == first.literal;
      } else {
        ParseOfTextThenToken(segments);
      }
    }
  }

  lemma ParseOfToken(token: string, rest: seq<Segment>)
    requires token != "" && '}' !in token
    ensures Parse(PrintSegment(Token(token)) + Print(rest)) == Prepend([Token(token)], Parse(Print(rest)))
  {
    hide Parse, Print;
    assert "" + "{" + token + "}" == PrintSegment(Token(token));
    assert [] + [Token(token)] == [Token(token)];
    ParseStep(PrintSegment(Token(token)) + Print(rest), "", token, Print(rest));
  }

  lemma ParseOfTextThenToken(segments: seq<Segment>)
    requires Canonical(segments) && |segments| >= 2 && segments[0].token == ""
    ensures Parse(Print(segments)) == Parsed(segments)
    decreases |segments|, 0
  {
    var lit, token, rest := segments[0].literal, segments[1].token, segments[2..];
    assert CanonicalAt(segments, 0) && CanonicalAt(segments, 1);
    CanonicalDrop(segments, 2);
    ParseOfPrint(rest);
    ParseStep(lit + "{" + token + "}" + Print(rest), lit, token, Print(rest));
    PrintTwo(lit, token, rest);
    SplitTwo(segments);
  }

  lemma SplitTwo<T>(s: seq<T>)
    requires |s| >= 2
    ensures [s[0]] + [s[1]] + s[2..] == s
  {
  }

  lemma PrintTwo(lit: string, token: string, rest: seq<Segment>)
    requires token != ""
    ensures Print([Text(lit)] + [Token(token)] + rest) == lit + "{" + token + "}" + Print(rest)
  {
    ConcatAssoc([Text(lit)], [Token(token)], rest);
    PrintCons(Text(lit), [Token(token)] + rest);
    PrintCons(Token(token), rest);
    ConcatAssoc(lit, "{" + token + "}", Print(rest));
    ConcatAssoc(lit, "{" + token, "}");
    ConcatAssoc(lit, "{", token);
  }

  lemma PrintCons(s: Segment, rest: seq<Segment>)
    ensures Print([s] + rest) == PrintSegment(s) + Print(rest)
  {
    assert ([s] + rest)[1..] == rest;
  }

  lemma {:induction false} PrintConcat(a: seq<Segment>, b: seq<Segment>)
    ensures Print(a + b) == Print(a) + Print(b)
  {
    if a == [] {
      assert a + b == b;
    } else {
      PrintConcat(a[1..], b);
      PrintConcatStep(a[0], a[1..], b);
      assert a == [a[0]] + a[1..];
    }
  }

  lemma PrintConcatStep(s: Segment, a: seq<Segment>, b: seq<Segment>)
    requires Print(a + b) == Print(a) + Print(b)
    ensures Print([s] + a + b) == Print([s] + a) + Print(b)
  {
    ConcatAssoc([s], a, b);
    PrintCons(s, a);
    PrintCons(s, a + b);
    ConcatAssoc(PrintSegment(s), Print(a), Print(b));
  }

  lemma PrintFront(tmpl: string, start: nat, token: string)
    requires start <= |tmpl|
    ensures Print(LeadingText(tmpl, start) + [Token(token)]) ==
            tmpl[..start] + if token == "" then "" else "{" + token + "}"
  {
    PrintOne(Token(token));
    PrintOne(Text(tmpl[..start]));
    PrintConcat(LeadingText(tmpl, start), [Token(token)]);
  }

  lemma PrintOne(s: Segment)
    ensures Print([s]) == PrintSegment(s)
  {
    assert [s][1..] == [];
  }

  /** A printed text no longer than its template, and canonical when it is the template. */
  ghost predicate Faithful(segments: seq<Segment>, tmpl: string) {
    |Print(segments)| <= |tmpl| && (Print(segments) == tmpl ==> Canonical(segments))
  }

  lemma LastTextFaithful(text: string, tmpl: string)
    requires '{' !in text && |text| <= |tmpl| && (text == "" ==> tmpl == "" || '{' in tmpl)
    ensures Faithful(if text == "" then [] else [Text(text)], tmpl)
  {
    if text != "" { PrintOne(Text(text)); }
  }

  function Wrapped(token: string): string { if token == "" then "" else "{" + token + "}" }

  lemma RoundPrint(tmpl: string, start: nat, token: string, tail: seq<Segment>)
    requires start <= |tmpl|
    ensures Print(LeadingText(tmpl, start) + [Token(token)] + tail) == tmpl[..start] + Wrapped(token) + Print(tail)
  {
    PrintFront(tmpl, start, token);
    PrintConcat(LeadingText(tmpl, start) + [Token(token)], tail);
  }

  /** Of a round's text nothing can be missing if the whole is the template. */
  lemma NothingMissing(tmpl: string, start: nat, end: nat, printedTail: string)
    requires start < end < |tmpl| && |printedTail| <= |tmpl[end + 1..]|
    ensures var printed := tmpl[..start] + Wrapped(tmpl[start + 1..end]) + printedTail;
            |printed| <= |tmpl| &&
            (printed == tmpl ==> tmpl[start + 1..end] != "" && printedTail == tmpl[end + 1..])
  {
    var printed := tmpl[..start] + Wrapped(tmpl[start + 1..end]) + printedTail;
    assert printed[|printed| - |printedTail|..] == printedTail;
  }

  lemma RoundFaithful(tmpl: string, start: nat, end: nat, tail: seq<Segment>)
    requires start < end < |tmpl| && '{' !in tmpl[..start] && '}' !in tmpl[..end]
    requires Faithful(tail, tmpl[end + 1..])
    ensures Faithful(LeadingText(tmpl, start) + [Token(tmpl[start + 1..end])] + tail, tmpl)
  {
    var token := tmpl[start + 1..end];
    RoundPrint(tmpl, start, token, tail);
    NothingMissing(tmpl, start, end, Print(tail));
    if tmpl[..start] + Wrapped(token) + Print(tail) == tmpl {
      assert tmpl[..end][..start] == tmpl[..start] && tmpl[..end][start + 1..] == token;
      CanonicalPrepend(tmpl[..start], token, tail);
    }
  }

  /** A parse never prints longer than its template; when nothing is lost it is canonical. */
  lemma {:induction false} PrintOfParse(tmpl: string)
    requires Parse(tmpl).Parsed?
    ensures Faithful(Parse(tmpl).segments, tmpl)
    decreases |tmpl|
  {
    hide Parse;
    var start, end := IndexByte(tmpl, '{'), IndexByte(tmpl, '}');
    IndexByteIs(tmpl, '{');
    IndexByteIs(tmpl, '}');
    ParseCases(tmpl);
    if start == -1 {
      LastTextFaithful(tmpl, tmpl);
    } else if end == -1 {
      LastTextFaithful(tmpl[..start], tmpl);
    } else {
      PrintOfParse(tmpl[end + 1..]);
      RoundFaithful(tmpl, start, end, Parse(tmpl[end + 1..]).segments);
    }
  }

  lemma CanonicalPrepend(lit: string, token: string, tail: seq<Segment>)
    requires '{' !in lit && '}' !in lit && token != "" && '}' !in token && Canonical(tail)
    ensures Canonical((if lit == "" then [] else [Text(lit)]) + [Token(token)] + tail)
  {
    var front := (if lit == "" then [] else [Text(lit)]) + [Token(token)];
    var all := front + tail;
    forall i | 0 <= i < |all| ensures CanonicalAt(all, i) {
      if i >= |front| { assert CanonicalAt(tail, i - |front|); }
    }
  }

  /**
   * Every opening brace is closed by the next closing brace, with text between the two, and no
   * closing brace comes before it.
   */
  predicate WellBraced(tmpl: string)
    decreases |tmpl|
  {
    var start, end := IndexByte(tmpl, '{'), IndexByte(tmpl, '}');
    start != -1 ==> start + 1 < end && WellBraced(tmpl[end + 1..])
  }

  lemma WellBracedCases(tmpl: string)
    ensures var start, end := IndexByte(tmpl, '{'), IndexByte(tmpl, '}');
            WellBraced(tmpl) <==> start == -1 || (start + 1 < end && WellBraced(tmpl[end + 1..]))
  {
  }

  /** The round trip holds exactly for well-braced templates. */
  lemma {:induction false} TemplateRoundTripIff(tmpl: string)
    ensures (Parse(tmpl).Parsed? && Print(Parse(tmpl).segments) == tmpl) <==> WellBraced(tmpl)
    decreases |tmpl|
  {
    hide Parse, Print, WellBraced, LeadingText;
    var start, end := IndexByte(tmpl, '{'), IndexByte(tmpl, '}');
    ParseCases(tmpl);
    WellBracedCases(tmpl);
    if start == -1 {
      LastTextPrints(tmpl);
    } else if end == -1 {
      UnclosedPrints(tmpl, start);
    } else if start < end {
      IndexByteIs(tmpl, '{');
      IndexByteIs(tmpl, '}');
      TemplateRoundTripIff(tmpl[end + 1..]);
      RoundTripRound(tmpl, start, end, Parse(tmpl[end + 1..]));
    }
  }

  /** Without a closing brace the text from the opening brace on is lost. */
  lemma UnclosedPrints(tmpl: string, start: nat)
    requires start < |tmpl|
    ensures Print(LeadingText(tmpl, start)) != tmpl
  {
    LastTextPrints(tmpl[..start]);
    assert LeadingText(tmpl, start) == if tmpl[..start] == "" then [] else [Text(tmpl[..start])];
  }

  lemma LastTextPrints(text: string)
    ensures Print(if text == "" then [] else [Text(text)]) == text
  {
    if text != "" { PrintOne(Text(text)); }
  }

  /** A round is printed back whole exactly when its token is not empty and the rest is. */
  lemma RoundTripRound(tmpl: string, start: nat, end: nat, rest: ParseResult)
    requires start < end < |tmpl| && tmpl[start] == '{' && tmpl[end] == '}' && rest == Parse(tmpl[end + 1..])
    ensures var r := Prepend(LeadingText(tmpl, start) + [Token(tmpl[start + 1..end])], rest);
            (r.Parsed? && Print(r.segments) == tmpl) <==>
            start + 1 < end && rest.Parsed? && Print(rest.segments) == tmpl[end + 1..]
  {
    hide Parse, Print;
    if rest.Parsed? {
      PrintOfParse(tmpl[end + 1..]);
      RoundPrint(tmpl, start, tmpl[start + 1..end], rest.segments);
      NothingMissing(tmpl, start, end, Print(rest.segments));
      if start + 1 < end {
        assert tmpl[..start] + ("{" + tmpl[start + 1..end] + "}") + tmpl[end + 1..] == tmpl;
      }
    }
  }

  /** The well-braced templates are the texts canonical segment lists print. */
  lemma CanonicalSpellingIff(tmpl: string)
    ensures WellBraced(tmpl) <==> exists segments :: Canonical(segments) && Print(segments) == tmpl
  {
    TemplateRoundTripIff(tmpl);
    if WellBraced(tmpl) {
      PrintOfParse(tmpl);
    }
    if segments :| Canonical(segments) && Print(segments) == tmpl {
      ParseOfPrint(segments);
    }
  }

  /** A stray closing brace panics; text after an unclosed brace, and an empty token, are lost. */
  lemma BadlyBraced()
    ensures Parse("}{x}") == Panicked
    ensures Parse("{x") == Parsed([])
    ensures Parse("{}") == Parsed([Token("")]) && Print([Token("")]) == ""
  {
    StrayBrace();
    UnclosedBrace();
    EmptyBraces();
  }

  lemma StrayBrace()
    ensures Parse("}{x}") == Panicked
  {
    hide Parse;
    ParseCases("}{x}");
    IndexByteIs("}{x}", '{');
    IndexByteIs("}{x}", '}');
    assert "}{x}"[0] == '}' && "}{x}"[1] == '{';
  }

  lemma UnclosedBrace()
    ensures Parse("{x") == Parsed([])
  {
    hide Parse;
    ParseCases("{x");
    IndexByteIs("{x", '{');
    IndexByteIs("{x", '}');
    assert "{x"[0] == '{';
  }

  lemma EmptyBraces()
    ensures Parse("{}") == Parsed([Token("")]) && Print([Token("")]) == ""
  {
    hide Parse;
    ParseStep("{}", "", "", "");
    ParseCases("");
    IndexByteIs("", '{');
    assert [] + [Token("")] + [] == [Token("")];
    PrintOne(Token(""));
  }

  // ---------------------------------------------------------------- FormatSequence

  predicate IsDigit(c: char) { '0' <= c <= '9' }

  function Decimal(n: nat): (s: string)
    ensures |s| >= 1 && forall c <- s :: IsDigit(c)
    ensures s[0] == '0' ==> n == 0 && |s| == 1
  {
    var last := [(n % 10) as char + '0'];
    if n < 10 then last else Decimal(n / 10) + last
  }

  /** `fmt.Sprintf("%d", n)`. */
  function FormatInt(n: int): string {
    if n < 0 then "-" + Decimal(-n) else Decimal(n)
  }

  function FormatSequence(seqVal: int, padLength: int, padChar: string): string {
    if padLength <= 0 then FormatInt(seqVal)
    else
      var pad := if padChar == "" then "0" else padChar;
      var numStr := FormatInt(seqVal);
      var padCount := if padLength > |numStr| then padLength - |numStr| else 0;
      Repeat(pad, padCount) + numStr
  }

  /** Reading a digit string as a number. */
  function ParseDecimal(s: string): int {
    if s == "" then 0 else 10 * ParseDecimal(s[..|s| - 1]) + (s[|s| - 1] as int - '0' as int)
  }

  lemma {:induction false} ParseOfDecimal(n: nat)
    ensures ParseDecimal(Decimal(n)) == n
  {
    var s := Decimal(n);
    if n >= 10 {
      ParseOfDecimal(n / 10);
      assert s[..|s| - 1] == Decimal(n / 10);
    } else {
      assert s[..0] == "";
    }
  }

  /** Digit strings without a leading zero are exactly the decimals. */
  lemma {:induction false} DecimalOfParse(s: string)
    requires s != "" && s[0] != '0' && forall c <- s :: IsDigit(c)
    ensures ParseDecimal(s) >= 1 && Decimal(ParseDecimal(s)) == s
  {
    var init, last := s[..|s| - 1], s[|s| - 1];
    assert IsDigit(last) && IsDigit(s[0]);
    if init == "" {
      assert ParseDecimal(init) == 0;
      assert s == [last];
    } else {
      DecimalOfParse(init);
      var n := ParseDecimal(s);
      assert n / 10 == ParseDecimal(init) && n % 10 == last as int - '0' as int;
      assert s == init + [last];
    }
  }

  lemma {:induction false} RepeatSum(p: string, a: nat, b: nat)
    ensures Repeat(p, a + b) == Repeat(p, a) + Repeat(p, b)
  {
    if a > 0 {
      RepeatSum(p, a - 1, b);
      ConcatAssoc(p, Repeat(p, a - 1), Repeat(p, b));
    }
  }

  lemma {:induction false} RepeatDigits(p: string, k: nat)
    requires k >= 1 && p != ""
    ensures Repeat(p, k)[..|p|] == p
    ensures (forall c <- p :: IsDigit(c)) ==> forall c <- Repeat(p, k) :: IsDigit(c)
  {
    if k > 1 { RepeatDigits(p, k - 1); }
  }

  /**
   * The pad is repeated once for each character the written number, sign included, falls short of
   * the pad length: a one-character pad fills up exactly, a longer one overshoots.
   */
  lemma FormatLength(n: int, padLength: int, padChar: string)
    ensures var written, missing := |FormatInt(n)|, Padding(padLength, |FormatInt(n)|);
            |FormatSequence(n, padLength, padChar)|
            == if |padChar| <= 1 then missing + written else missing * |padChar| + written
  {
    if padLength > 0 {
      RepeatLength(if padChar == "" then "0" else padChar, Padding(padLength, |FormatInt(n)|));
    }
  }

  /**
   * The condition under which padded numbers stay apart: no padding is ever added to a
   * number, or the pad cannot be mistaken for leading digits of a longer number.
   */
  predicate UnambiguousPad(padLength: int, padChar: string) {
    padLength <= 1 || padChar == "" || padChar[0] == '0' || exists c <- padChar :: !IsDigit(c)
  }

  lemma PaddedShorter(m: nat, n: nat, padLength: int, padChar: string)
    requires |Decimal(n)| < |Decimal(m)|
    requires FormatSequence(m, padLength, padChar) == FormatSequence(n, padLength, padChar)
    ensures !UnambiguousPad(padLength, padChar)
  {
    if padLength > 0 {
      PaddedText(m, padLength, padChar);
      PaddedText(n, padLength, padChar);
      var pad := if padChar == "" then "0" else padChar;
      ShorterText(pad, Padding(padLength, |Decimal(m)|), Padding(padLength, |Decimal(n)|), Decimal(m), Decimal(n));
    }
  }

  function Padding(padLength: int, length: nat): nat { if padLength > length then padLength - length else 0 }

  lemma PaddedText(n: nat, padLength: int, padChar: string)
    requires padLength > 0
    ensures FormatSequence(n, padLength, padChar)
         == Repeat(if padChar == "" then "0" else padChar, Padding(padLength, |Decimal(n)|)) + Decimal(n)
  {
  }

  /** The shorter number needs more padding to come out the same, so the longer one starts with the pad. */
  lemma ShorterText(pad: string, km: nat, kn: nat, dm: string, dn: string)
    requires pad != "" && dn != "" && km <= kn && |dn| < |dm| && Repeat(pad, km) + dm == Repeat(pad, kn) + dn
    requires (forall c <- dm :: IsDigit(c)) && (dm[0] == '0' ==> |dm| == 1)
    ensures kn > 0 && pad[0] != '0' && forall c <- pad :: IsDigit(c)
  {
    assert |Repeat(pad, km)| + |dm| == |Repeat(pad, kn)| + |dn|;
    RepeatLonger(pad, km, kn);
    CommonPadding(pad, km, kn - km, dm, dn);
    PadStartsNumber(pad, kn - km, dm, dn);
  }

  lemma CommonPadding(pad: string, k: nat, extra: nat, dm: string, dn: string)
    requires Repeat(pad, k) + dm == Repeat(pad, k + extra) + dn
    ensures dm == Repeat(pad, extra) + dn
  {
    RepeatSum(pad, k, extra);
    var shift := |Repeat(pad, k)|;
    assert (Repeat(pad, k) + dm)[shift..] == dm;
    assert (Repeat(pad, k) + Repeat(pad, extra) + dn)[shift..] == Repeat(pad, extra) + dn;
  }

  lemma PadStartsNumber(pad: string, extra: nat, dm: string, dn: string)
    requires pad != "" && extra >= 1 && dn != "" && dm == Repeat(pad, extra) + dn
    requires (forall c <- dm :: IsDigit(c)) && (dm[0] == '0' ==> |dm| == 1)
    ensures pad[0] != '0' && forall c <- pad :: IsDigit(c)
  {
    RepeatDigits(pad, extra);
    assert dm[..|pad|] == pad;
    assert forall i | 0 <= i < |pad| :: dm[i] == pad[i];
  }

  lemma SameLengthPadded(m: nat, n: nat, padLength: int, padChar: string)
    requires |Decimal(n)| == |Decimal(m)|
    requires FormatSequence(m, padLength, padChar) == FormatSequence(n, padLength, padChar)
    ensures m == n
  {
    var fm, fn := FormatSequence(m, padLength, padChar), FormatSequence(n, padLength, padChar);
    assert fm[|fm| - |Decimal(m)|..] == Decimal(m);
    assert fn[|fn| - |Decimal(n)|..] == Decimal(n);
    ParseOfDecimal(m);
    ParseOfDecimal(n);
  }

  /** Distinct numbers get distinct padded forms exactly for unambiguous pads. */
  lemma FormatInjectiveIff(padLength: int, padChar: string)
    ensures (forall m: nat, n: nat ::
               FormatSequence(m, padLength, padChar) == FormatSequence(n, padLength, padChar) ==> m == n)
       <==> UnambiguousPad(padLength, padChar)
  {
    if UnambiguousPad(padLength, padChar) {
      forall m: nat, n: nat |
        FormatSequence(m, padLength, padChar) == FormatSequence(n, padLength, padChar)
        ensures m == n
      {
        if |Decimal(n)| < |Decimal(m)| { PaddedShorter(m, n, padLength, padChar); }
        else if |Decimal(m)| < |Decimal(n)| { PaddedShorter(n, m, padLength, padChar); }
        else { SameLengthPadded(m, n, padLength, padChar); }
      }
    } else {
      var m := AmbiguousPair(padLength, padChar);
      assert FormatSequence(m, padLength, padChar) == FormatSequence(0, padLength, padChar);
    }
  }

  /** With a digit pad such as "1", zero padded to the full length reads as a longer number. */
  lemma AmbiguousPair(padLength: int, padChar: string) returns (m: nat)
    requires !UnambiguousPad(padLength, padChar)
    ensures m != 0
    ensures FormatSequence(m, padLength, padChar) == FormatSequence(0, padLength, padChar)
  {
    RepeatDigits(padChar, padLength - 1);
    var text := Repeat(padChar, padLength - 1) + "0";
    assert Decimal(0) == "0";
    assert text == FormatSequence(0, padLength, padChar);
    assert text[0] == Repeat(padChar, padLength - 1)[..|padChar|][0];
    DecimalOfParse(text);
    m := ParseDecimal(text);
    RepeatAtLeast(padChar, padLength - 1);
    assert |text| >= padLength;
    assert Repeat(padChar, 0) == "";
  }
}
