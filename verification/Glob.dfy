/** The cache's wildcard matcher, compared with `*`-glob semantics. */
module Glob {
  import opened GoStrings

  /** Reference semantics: `*` stands for any text, every other character for itself. */
  predicate Matches(pattern: string, text: string)
    decreases |pattern|
  {
    if pattern == "" then text == ""
    else if pattern[0] == '*' then exists k | 0 <= k <= |text| :: Matches(pattern[1..], text[k..])
    else text != "" && text[0] == pattern[0] && Matches(pattern[1..], text[1..])
  }

  /** The non-empty parts occur left to right without overlap, each at its first chance. */
  predicate InOrder(parts: seq<string>, text: string)
    decreases |parts|
  {
    if parts == [] then true
    else if parts[0] == "" then InOrder(parts[1..], text)
    else
      var idx := Index(text, parts[0]);
      idx != -1 && InOrder(parts[1..], text[idx + |parts[0]|..])
  }

  predicate Accepts(text: string, pattern: string) {
    var parts := Split(pattern, '*');
    if pattern == "*" then true
    else if |parts| == 1 then text == pattern
    else
      && HasPrefix(text, parts[0])
      && HasSuffix(text, parts[|parts| - 1])
      && InOrder(parts[1..|parts| - 1], text)
  }

  /** `matchPattern`. */
  method MatchPattern(text: string, pattern: string) returns (ok: bool)
    ensures ok == Accepts(text, pattern)
  {
    if pattern == "*" { return true; }
    var parts := Split(pattern, '*');
    if |parts| == 1 { return text == pattern; }
    if !HasPrefix(text, parts[0]) { return false; }
    if !HasSuffix(text, parts[|parts| - 1]) { return false; }
    var current := text;
    var i := 1;
    while i < |parts| - 1
      invariant 1 <= i <= |parts| - 1
      invariant InOrder(parts[1..|parts| - 1], text) == InOrder(parts[i..|parts| - 1], current)
    {
      var rest := parts[i..|parts| - 1];
      assert rest[0] == parts[i] && rest[1..] == parts[i + 1..|parts| - 1];
      if parts[i] != "" {
        var idx := Index(current, parts[i]);
        if idx == -1 { return false; }
        current := current[idx + |parts[i]|..];
      }
      i := i + 1;
    }
    return true;
  }

  lemma {:induction false} MatchesLiteral(lit: string, pattern: string, text: string)
    requires '*' !in lit
    ensures Matches(lit + pattern, text) <==> HasPrefix(text, lit) && Matches(pattern, text[|lit|..])
  {
    if lit == "" {
      assert lit + pattern == pattern;
    } else if text != "" && text[0] == lit[0] {
      MatchesLiteral(lit[1..], pattern, text[1..]);
      assert (lit + pattern)[1..] == lit[1..] + pattern;
      assert HasPrefix(text, lit) <==> HasPrefix(text[1..], lit[1..]) by {
        if HasPrefix(text[1..], lit[1..]) { assert text[..|lit|] == [text[0]] + text[1..][..|lit| - 1]; }
        if HasPrefix(text, lit) { assert text[1..][..|lit| - 1] == text[..|lit|][1..]; }
      }
      if |lit| <= |text| { assert text[1..][|lit| - 1..] == text[|lit|..]; }
    } else {
      assert (lit + pattern)[0] == lit[0];
      assert |lit| <= |text| ==> text[..|lit|][0] == text[0];
    }
  }

  /** What matching a pattern with a literal end means. */
  ghost predicate EndIff(pattern: string, lit: string, text: string) {
    Matches(pattern + lit, text) <==> HasSuffix(text, lit) && Matches(pattern, text[..|text| - |lit|])
  }

  lemma {:induction false} MatchesLiteralEnd(pattern: string, lit: string, text: string)
    requires '*' !in lit
    ensures EndIff(pattern, lit, text)
    decreases |pattern|
  {
    if pattern == "" {
      MatchesLiteral(lit, "", text);
      assert lit + "" == lit && "" + lit == lit;
    } else if pattern[0] == '*' {
      forall k | 0 <= k <= |text| ensures EndIff(pattern[1..], lit, text[k..]) {
        MatchesLiteralEnd(pattern[1..], lit, text[k..]);
      }
      StarEnd(pattern, lit, text);
    } else {
      assert (pattern + lit)[1..] == pattern[1..] + lit;
      if text != "" {
        MatchesLiteralEnd(pattern[1..], lit, text[1..]);
        CharEnd(pattern, lit, text);
      }
    }
  }

  lemma SuffixOfDrop(text: string, k: nat, lit: string)
    requires k <= |text|
    ensures HasSuffix(text[k..], lit) <==> k + |lit| <= |text| && HasSuffix(text, lit)
    ensures k + |lit| <= |text| ==> text[k..][..|text| - k - |lit|] == text[..|text| - |lit|][k..]
  {
    if k + |lit| <= |text| {
      assert text[k..][|text| - k - |lit|..] == text[|text| - |lit|..];
    }
  }

  lemma StarUnfold(pattern: string, text: string)
    requires pattern != "" && pattern[0] == '*'
    ensures Matches(pattern, text) <==> exists k | 0 <= k <= |text| :: Matches(pattern[1..], text[k..])
  {
  }

  lemma StarEnd(pattern: string, lit: string, text: string)
    requires pattern != "" && pattern[0] == '*'
    requires forall k | 0 <= k <= |text| :: EndIff(pattern[1..], lit, text[k..])
    ensures EndIff(pattern, lit, text)
  {
    hide Matches;
    assert (pattern + lit)[1..] == pattern[1..] + lit && (pattern + lit)[0] == '*';
    StarUnfold(pattern + lit, text);
    if k :| 0 <= k <= |text| && Matches(pattern[1..] + lit, text[k..]) {
      StarEndThere(pattern, lit, text, k);
    }
    if HasSuffix(text, lit) && Matches(pattern, text[..|text| - |lit|]) {
      var front := text[..|text| - |lit|];
      StarUnfold(pattern, front);
      var k :| 0 <= k <= |front| && Matches(pattern[1..], front[k..]);
      StarEndBack(pattern, lit, text, k);
    }
  }

  lemma StarIntro(pattern: string, text: string, k: nat)
    requires pattern != "" && pattern[0] == '*' && k <= |text| && Matches(pattern[1..], text[k..])
    ensures Matches(pattern, text)
  {
    StarUnfold(pattern, text);
  }

  lemma StarEndThere(pattern: string, lit: string, text: string, k: nat)
    requires pattern != "" && pattern[0] == '*' && k <= |text|
    requires EndIff(pattern[1..], lit, text[k..]) && Matches(pattern[1..] + lit, text[k..])
    ensures HasSuffix(text, lit) && Matches(pattern, text[..|text| - |lit|])
  {
    hide Matches;
    SuffixOfDrop(text, k, lit);
    var front := text[..|text| - |lit|];
    assert Matches(pattern[1..], front[k..]);
    StarIntro(pattern, front, k);
  }

  lemma StarEndBack(pattern: string, lit: string, text: string, k: nat)
    requires HasSuffix(text, lit) && k <= |text| - |lit| && pattern != ""
    requires EndIff(pattern[1..], lit, text[k..]) && Matches(pattern[1..], text[..|text| - |lit|][k..])
    ensures Matches(pattern[1..] + lit, text[k..])
  {
    hide Matches;
    SuffixOfDrop(text, k, lit);
    assert text[k..][..|text[k..]| - |lit|] == text[..|text| - |lit|][k..];
  }

  lemma CharEnd(pattern: string, lit: string, text: string)
    requires pattern != "" && pattern[0] != '*' && text != "" && '*' !in lit
    requires EndIff(pattern[1..], lit, text[1..])
    ensures EndIff(pattern, lit, text)
  {
    CharUnfold(pattern + lit, text);
    assert (pattern + lit)[1..] == pattern[1..] + lit;
    SuffixOfDrop(text, 1, lit);
    if |lit| <= |text| { CharUnfold(pattern, text[..|text| - |lit|]); }
  }

  lemma CharUnfold(pattern: string, text: string)
    requires pattern != "" && pattern[0] != '*'
    ensures Matches(pattern, text) <==>
            text != "" && text[0] == pattern[0] && Matches(pattern[1..], text[1..])
  {
  }

  /** "*m1*m2*...*": the middle parts, unanchored on both sides. */
  function Middle(parts: seq<string>): string {
    if parts == [] then "*" else "*" + parts[0] + Middle(parts[1..])
  }

  /** Text added on either side of a match does not hurt the greedy scan. */
  lemma {:induction false} InOrderInside(parts: seq<string>, a: string, s: string, b: string)
    requires InOrder(parts, s)
    ensures InOrder(parts, a + s + b)
    decreases |parts|
  {
    if parts != [] {
      if parts[0] == "" {
        InOrderInside(parts[1..], a, s, b);
      } else {
        var m := parts[0];
        var t := a + s + b;
        var idx := Index(s, m);
        assert t[|a| + idx..|a| + idx + |m|] == s[idx..idx + |m|];
        IndexIsFirst(t, m, |a| + idx);
        var idx' := Index(t, m);
        InOrderInside(parts[1..], t[idx' + |m|..|a| + idx + |m|], s[idx + |m|..], b);
        assert t[idx' + |m|..] == t[idx' + |m|..|a| + idx + |m|] + s[idx + |m|..] + b;
      }
    }
  }

  /** The greedy scan finds the parts whenever any placement of them exists. */
  lemma {:induction false} GreedyIsComplete(parts: seq<string>, text: string)
    requires forall p <- parts :: '*' !in p
    ensures InOrder(parts, text) <==> Matches(Middle(parts), text)
    decreases |parts|
  {
    if parts == [] {
      assert Matches("*"[1..], text[|text|..]);
    } else {
      var m, rest := parts[0], parts[1..];
      var tail := Middle(rest);
      assert Middle(parts)[0] == '*' && Middle(parts)[1..] == m + tail;
      forall k | 0 <= k <= |text|
        ensures Matches(m + tail, text[k..]) <==>
                HasPrefix(text[k..], m) && InOrder(rest, text[k..][|m|..])
      {
        MatchesLiteral(m, tail, text[k..]);
        if HasPrefix(text[k..], m) { GreedyIsComplete(rest, text[k..][|m|..]); }
      }
      GreedyStep(parts, text);
    }
  }

  lemma GreedyStep(parts: seq<string>, text: string)
    requires parts != []
    requires forall k | 0 <= k <= |text| ::
               Matches(Middle(parts)[1..], text[k..]) <==>
               HasPrefix(text[k..], parts[0]) && InOrder(parts[1..], text[k..][|parts[0]|..])
    ensures InOrder(parts, text) <==> Matches(Middle(parts), text)
  {
    var m, rest := parts[0], parts[1..];
    StarUnfold(Middle(parts), text);
    if InOrder(parts, text) {
      var k := GreedyStart(parts, text);
      assert Matches(Middle(parts)[1..], text[k..]);
    }
    if k :| 0 <= k <= |text| && Matches(Middle(parts)[1..], text[k..]) {
      DropTwice(text, k, m);
      LaterMatchMeansGreedy(parts, text, k);
    }
  }

  lemma GreedyStart(parts: seq<string>, text: string) returns (k: nat)
    requires parts != [] && InOrder(parts, text)
    ensures k <= |text| && HasPrefix(text[k..], parts[0]) && InOrder(parts[1..], text[k..][|parts[0]|..])
  {
    k := if parts[0] == "" then 0 else Index(text, parts[0]);
    DropTwice(text, k, parts[0]);
    assert text[0..] == text;
  }

  lemma DropTwice(text: string, k: nat, m: string)
    requires k <= |text|
    ensures HasPrefix(text[k..], m) <==> OccursAt(text, m, k)
    ensures k + |m| <= |text| ==> text[k..][|m|..] == text[k + |m|..]
  {
    if k + |m| <= |text| { assert text[k..][..|m|] == text[k..k + |m|]; }
  }

  lemma LaterMatchMeansGreedy(parts: seq<string>, text: string, k: nat)
    requires parts != [] && OccursAt(text, parts[0], k) && InOrder(parts[1..], text[k + |parts[0]|..])
    ensures InOrder(parts, text)
  {
    var m := parts[0];
    var s := text[k + |m|..];
    if m != "" { IndexIsFirst(text, m, k); }
    var from := if m == "" then 0 else Index(text, m) + |m|;
    InOrderInside(parts[1..], text[from..k + |m|], s, "");
    assert text[from..] == text[from..k + |m|] + s + "";
    assert text[0..] == text;
  }

  lemma InnerSlices<T>(parts: seq<T>)
    requires |parts| >= 3
    ensures parts[1..][1..|parts| - 2] == parts[1..|parts| - 1][1..]
    ensures |parts[1..]| - 1 == |parts| - 2 && parts[1..][|parts| - 2] == parts[|parts| - 1]
  {
    var a, b := parts[1..][1..|parts| - 2], parts[1..|parts| - 1][1..];
    assert |a| == |b| && forall k | 0 <= k < |a| :: a[k] == parts[k + 2] == b[k];
  }

  lemma {:induction false} PatternShape(parts: seq<string>)
    requires |parts| >= 2
    ensures Join(parts, "*") == parts[0] + Middle(parts[1..|parts| - 1]) + parts[|parts| - 1]
  {
    if |parts| == 2 {
      assert parts[1..][0] == parts[1];
      assert parts[1..1] == [];
    } else {
      PatternShape(parts[1..]);
      var mid := parts[1..|parts| - 1];
      InnerSlices(parts);
      assert mid[0] == parts[1];
    }
  }

  /** A glob with a star matches exactly prefix, scattered middle, suffix, in that order. */
  lemma GlobDecomposition(pattern: string, text: string)
    requires |Split(pattern, '*')| >= 2
    ensures var parts := Split(pattern, '*');
      var first, last := parts[0], parts[|parts| - 1];
      Matches(pattern, text) <==>
        && HasPrefix(text, first) && HasSuffix(text, last) && |first| + |last| <= |text|
        && InOrder(parts[1..|parts| - 1], text[|first|..|text| - |last|])
  {
    var parts := Split(pattern, '*');
    var first, mid, last := parts[0], parts[1..|parts| - 1], parts[|parts| - 1];
    JoinOfSplit(pattern, '*');
    PatternShape(parts);
    MatchesLiteralEnd(first + Middle(mid), last, text);
    if HasSuffix(text, last) {
      var front := text[..|text| - |last|];
      MatchesLiteral(first, Middle(mid), front);
      PrefixOfTake(text, |front|, first);
      if HasPrefix(front, first) { GreedyIsComplete(mid, front[|first|..]); }
    }
  }

  lemma PrefixOfTake(text: string, n: nat, first: string)
    requires n <= |text|
    ensures HasPrefix(text[..n], first) <==> |first| <= n && HasPrefix(text, first)
    ensures |first| <= n ==> text[..n][|first|..] == text[|first|..n]
  {
    if |first| <= n { assert text[..n][..|first|] == text[..|first|]; }
  }

  lemma InOrderInMiddle(parts: seq<string>, text: string, i: nat, j: nat)
    requires i <= j <= |text| && InOrder(parts, text[i..j])
    ensures InOrder(parts, text)
  {
    InOrderInside(parts, text[..i], text[i..j], text[j..]);
    assert text == text[..i] + text[i..j] + text[j..];
  }

  /** Every text the glob matches is accepted, so a pattern deletion never misses a key. */
  lemma AcceptsEveryMatch(pattern: string, text: string)
    requires Matches(pattern, text)
    ensures Accepts(text, pattern)
  {
    var parts := Split(pattern, '*');
    if |parts| == 1 {
      JoinOfSplit(pattern, '*');
      MatchesLiteral(pattern, "", text);
      assert pattern + "" == pattern;
      assert text[..|pattern|] + text[|pattern|..] == text;
    } else {
      GlobDecomposition(pattern, text);
      InOrderInMiddle(parts[1..|parts| - 1], text, |parts[0]|, |text| - |parts[|parts| - 1]|);
    }
  }

  /**
   * What is accepted beyond the glob: the anchors and the middle parts are looked for
   * independently of each other, so they may overlap.
   */
  lemma AcceptedExactly(pattern: string, text: string)
    ensures var parts := Split(pattern, '*');
      Accepts(text, pattern) <==>
        if |parts| == 1 then Matches(pattern, text)
        else
          && HasPrefix(text, parts[0]) && HasSuffix(text, parts[|parts| - 1])
          && Matches(Middle(parts[1..|parts| - 1]), text)
  {
    var parts := Split(pattern, '*');
    if |parts| == 1 {
      JoinOfSplit(pattern, '*');
      MatchesLiteral(pattern, "", text);
      assert pattern + "" == pattern;
      if HasPrefix(text, pattern) { assert text[..|pattern|] + text[|pattern|..] == text; }
    } else {
      GreedyIsComplete(parts[1..|parts| - 1], text);
      if pattern == "*" {
        SplitConcat("", '*', "");
        assert "" + ['*'] + "" == "*";
        assert parts == ["", ""];
        assert parts[1..1] == [];
      }
    }
  }

  /**
   * For every pattern, what is accepted wrongly: the anchors and the middle parts are there, but the anchors overlap
   * or the middle parts do not fit between them.
   */
  lemma WronglyAcceptedIff(pattern: string, text: string)
    ensures var parts := Split(pattern, '*');
      Accepts(text, pattern) && !Matches(pattern, text) <==>
        && |parts| >= 2
        && HasPrefix(text, parts[0]) && HasSuffix(text, parts[|parts| - 1])
        && Matches(Middle(parts[1..|parts| - 1]), text)
        && !(&& |parts[0]| + |parts[|parts| - 1]| <= |text|
             && Matches(Middle(parts[1..|parts| - 1]), text[|parts[0]|..|text| - |parts[|parts| - 1]|]))
  {
    hide Matches, Accepts, Middle, InOrder;
    var parts := Split(pattern, '*');
    AcceptedExactly(pattern, text);
    if |parts| >= 2 {
      var first, last := |parts[0]|, |parts[|parts| - 1]|;
      GlobDecomposition(pattern, text);
      if first + last <= |text| { GreedyIsComplete(parts[1..|parts| - 1], text[first..|text| - last]); }
    }
  }

  /** With one star, what is accepted wrongly is exactly what is too short for both anchors. */
  lemma OneStarExactlyWhen(first: string, last: string, text: string)
    requires '*' !in first && '*' !in last
    ensures Matches(first + "*" + last, text) <==>
            Accepts(text, first + "*" + last) && |first| + |last| <= |text|
  {
    OneStarSplit(first, last);
    NoMiddle(first + "*" + last, text);
  }

  lemma NoMiddle(pattern: string, text: string)
    requires |Split(pattern, '*')| == 2
    ensures Matches(pattern, text) <==>
            Accepts(text, pattern) && |Split(pattern, '*')[0]| + |Split(pattern, '*')[1]| <= |text|
  {
    assert Split(pattern, '*')[1..1] == [];
    GlobDecomposition(pattern, text);
    AcceptedExactly(pattern, text);
    StarUnfold("*", text);
    assert text[|text|..] == "" && "*"[1..] == "";
  }

  lemma OneStarSplit(first: string, last: string)
    requires '*' !in first && '*' !in last
    ensures Split(first + "*" + last, '*') == [first, last]
  {
    SplitConcat(first, '*', last);
    SplitWhole(last, '*');
  }

  lemma OverAccepts()
    ensures Accepts("aba", "ab*ba") && !Matches("ab*ba", "aba")
  {
    assert "ab" + "*" + "ba" == "ab*ba";
    OneStarExactlyWhen("ab", "ba", "aba");
    OneStarSplit("ab", "ba");
    assert Split("ab*ba", '*')[1..1] == [];
    assert "aba"[..2] == "ab" && "aba"[1..] == "ba";
  }

  /** A pattern written around any text, stars included, matches that text. */
  lemma {:induction false} MatchesItself(s: string, pattern: string, text: string)
    requires Matches(pattern, text)
    ensures Matches(s + pattern, s + text)
  {
    if s == "" {
      assert s + pattern == pattern && s + text == text;
    } else {
      MatchesItself(s[1..], pattern, text);
      assert (s + pattern)[1..] == s[1..] + pattern;
      assert (s + text)[1..] == s[1..] + text;
    }
  }

  /** `prefix*word*` matches whatever starts with the prefix and goes on to contain the word. */
  lemma MatchesContaining(prefix: string, word: string, rest: string)
    requires Contains(rest, word)
    ensures Matches(prefix + "*" + word + "*", prefix + rest)
  {
    var i :| 0 <= i <= |rest| && OccursAt(rest, word, i);
    var after := rest[i + |word|..];
    assert "*"[1..] == "" && after[|after|..] == "";
    assert Matches("*", after);
    MatchesItself(word, "*", after);
    assert rest[i..] == word + after;
    var tail := "*" + word + "*";
    assert tail[0] == '*' && tail[1..] == word + "*";
    assert Matches(tail, rest);
    MatchesItself(prefix, tail, rest);
    assert prefix + tail == prefix + "*" + word + "*";
  }

  lemma WordPatternParts(prefix: string, word: string)
    requires '*' !in prefix && '*' !in word
    ensures var pattern := prefix + "*" + word + "*";
            Split(pattern, '*') == [prefix, word, ""] && Split(pattern, '*')[1..2] == [word]
  {
    OneStarSplit(word, "");
    assert word + "*" + "" == word + "*";
    SplitConcat(prefix, '*', word + "*");
    assert prefix + "*" + (word + "*") == prefix + "*" + word + "*";
  }

  /** For star-free text, exactly the keys with that prefix and that word anywhere are accepted. */
  lemma WordPatternAccepts(prefix: string, word: string, text: string)
    requires '*' !in prefix && '*' !in word && word != ""
    ensures Accepts(text, prefix + "*" + word + "*") <==> HasPrefix(text, prefix) && Contains(text, word)
  {
    WordPatternParts(prefix, word);
    InOrderOne(word, text);
    assert text[|text|..] == "";
    assert |prefix + "*" + word + "*"| >= 3;
  }

  /** Accepted wrongly are the keys in which the word occurs, but not after the prefix. */
  lemma WordPatternWrongIff(prefix: string, word: string, text: string)
    requires '*' !in prefix && '*' !in word && word != ""
    ensures var pattern := prefix + "*" + word + "*";
            Accepts(text, pattern) && !Matches(pattern, text) <==>
            HasPrefix(text, prefix) && Contains(text, word) && !Contains(text[|prefix|..], word)
  {
    hide Matches, Accepts, InOrder;
    var pattern := prefix + "*" + word + "*";
    WordPatternParts(prefix, word);
    WordPatternAccepts(prefix, word, text);
    GlobDecomposition(pattern, text);
    if HasPrefix(text, prefix) {
      assert text[|prefix|..|text| - |""|] == text[|prefix|..] && text[|text|..] == "";
      InOrderOne(word, text[|prefix|..]);
    }
  }

  lemma InOrderOne(word: string, text: string)
    requires word != ""
    ensures InOrder([word], text) <==> Contains(text, word)
  {
    assert [word][1..] == [];
  }
}
