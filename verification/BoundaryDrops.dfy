/**
 * Which cached searches the codes of a batch drop: the key patterns of the codes against the keys of all searches for one
 * code, whatever characters the codes have.
 */
module BoundaryDrops {
  import opened GoStrings
  import opened Glob
  import opened BoundaryCache

  // ---------------------------------------------------------------- a star in the text stands for any text

  /** No part holds a star, so parts found around a star of the text are found whatever replaces it. */
  lemma {:induction false} StarRefilled(parts: seq<string>, x: string, s: string, z: string)
    requires (forall p <- parts :: '*' !in p) && InOrder(parts, x + "*" + z)
    ensures InOrder(parts, x + s + z)
    decreases |parts|
  {
    var text, text' := x + "*" + z, x + s + z;
    if parts != [] {
      var m, rest := parts[0], parts[1..];
      if m == "" {
        StarRefilled(rest, x, s, z);
      } else {
        var i := Index(text, m);
        StarNotCovered(x, z, m, i);
        if i + |m| <= |x| {
          assert text[i + |m|..] == x[i + |m|..] + "*" + z;
          StarRefilled(rest, x[i + |m|..], s, z);
          assert text'[i + |m|..] == x[i + |m|..] + s + z;
          assert text'[i..i + |m|] == text[i..i + |m|];
          LaterMatchMeansGreedy(parts, text', i);
        } else {
          var j := i - |x| - 1 + |x + s|;
          assert text'[j..j + |m|] == text[i..i + |m|];
          assert text'[j + |m|..] == text[i + |m|..];
          LaterMatchMeansGreedy(parts, text', j);
        }
      }
    }
  }

  lemma StarNotCovered(x: string, z: string, m: string, i: nat)
    requires '*' !in m && OccursAt(x + "*" + z, m, i)
    ensures i + |m| <= |x| || i > |x|
  {
    if i <= |x| < i + |m| { WrongChar(x + "*" + z, m, i, |x|); }
  }

  /** A word does not occur where its place covers a character it does not have there. */
  lemma WrongChar(text: string, word: string, i: nat, j: nat)
    requires i <= j < i + |word| <= |text| && text[j] != word[j - i]
    ensures !OccursAt(text, word, i)
  {
    assert text[i..i + |word|][j - i] == text[j];
  }

  lemma {:induction false} SplitFirst(a: string, sep: char, b: string)
    ensures HasPrefix(a, Split(a + [sep] + b, sep)[0])
  {
    var s := a + [sep] + b;
    if a != "" {
      assert s[1..] == a[1..] + [sep] + b && s[0] == a[0];
      SplitFirst(a[1..], sep, b);
      if a[0] != sep {
        var first := Split(s[1..], sep)[0];
        assert a[..1 + |first|] == [a[0]] + a[1..][..|first|];
      }
    } else {
      assert s[0] == sep;
    }
  }

  lemma {:induction false} SplitLast(s: string, sep: char)
    ensures var parts := Split(s + [sep], sep); |parts| >= 2 && parts[|parts| - 1] == ""
  {
    if s == "" {
      assert (s + [sep])[1..] == "";
    } else {
      assert (s + [sep])[1..] == s[1..] + [sep];
      SplitLast(s[1..], sep);
    }
  }

  lemma PatternAccepts(tenant: string, code: string, text: string)
    ensures var parts := Split(CodePattern(tenant, code), '*');
            && |parts| >= 2 && HasPrefix(SearchPrefix(tenant), parts[0]) && (forall p <- parts :: '*' !in p)
            && (Accepts(text, CodePattern(tenant, code))
                <==> HasPrefix(text, parts[0]) && InOrder(parts[1..|parts| - 1], text))
  {
    hide Split, InOrder, SearchPrefix;
    var p, pattern := SearchPrefix(tenant), CodePattern(tenant, code);
    assert pattern == p + "*" + (code + "*");
    SplitFirst(p, '*', code + "*");
    SplitLast(p + "*" + code, '*');
    assert text[|text|..] == "" && |pattern| >= 2;
  }

  /** A key a code's pattern accepts is accepted with anything in place of a star after its fixed part. */
  lemma AcceptsRefilled(tenant: string, code: string, x: string, s: string, z: string)
    requires HasPrefix(x, SearchPrefix(tenant)) && Accepts(x + "*" + z, CodePattern(tenant, code))
    ensures Accepts(x + s + z, CodePattern(tenant, code))
  {
    hide Accepts, Split, InOrder, SearchPrefix, CodePattern;
    var parts := Split(CodePattern(tenant, code), '*');
    PatternAccepts(tenant, code, x + "*" + z);
    PatternAccepts(tenant, code, x + s + z);
    ConcatAssoc(x, s, z);
    PrefixInside(SearchPrefix(tenant), parts[0], x, s + z);
    StarRefilled(parts[1..|parts| - 1], x, s, z);
  }

  lemma PrefixInside(p: string, first: string, x: string, rest: string)
    requires HasPrefix(p, first) && HasPrefix(x, p)
    ensures HasPrefix(x + rest, first)
  {
    assert (x + rest)[..|first|] == x[..|p|][..|first|];
  }

  // ---------------------------------------------------------------- four searches stand for all that ask for a code

  /** The code alone, and with a search for "*" before it, after it, and on both sides. */
  function Around(code: string): seq<seq<string>> {
    [[code], ["*", code], [code, "*"], ["*", code, "*"]]
  }

  predicate DropsAround(tenant: string, codes: seq<string>, code: string) {
    forall query <- Around(code) :: DropsQuery(tenant, codes, query)
  }

  lemma KeysAround(tenant: string, code: string)
    ensures var p := SearchPrefix(tenant);
            && SearchKey(tenant, [code]) == p + code
            && SearchKey(tenant, ["*", code]) == p + "*" + ("," + code)
            && SearchKey(tenant, [code, "*"]) == p + code + "," + "*"
            && SearchKey(tenant, ["*", code, "*"]) == p + "*" + ("," + code + "," + "*")
  {
    var p := SearchPrefix(tenant);
    assert ["*", code][1..] == [code] && [code, "*"][1..] == ["*"] && ["*", code, "*"][1..] == [code, "*"];
    assert Join(["*", code], ",") == "*" + "," + code && Join([code, "*"], ",") == code + "," + "*";
    assert Join(["*", code, "*"], ",") == "*" + "," + (code + "," + "*");
    assert p + ("*" + "," + code) == p + "*" + ("," + code);
    assert p + (code + "," + "*") == p + code + "," + "*";
    assert p + ("*" + "," + (code + "," + "*")) == p + "*" + ("," + code + "," + "*");
  }

  /** The key of a query, split at the k-th code. */
  lemma KeySplitAt(tenant: string, query: seq<string>, k: nat)
    requires k < |query|
    ensures var front, back := query[..k], query[k + 1..];
            SearchKey(tenant, query)
            == SearchPrefix(tenant) + (if k == 0 then "" else Join(front, ",") + ",") + query[k]
               + if back == [] then "" else "," + Join(back, ",")
  {
    var p, front, back := SearchPrefix(tenant), query[..k], query[k + 1..];
    assert query == front + [query[k]] + back;
    if back != [] { JoinConcat(front + [query[k]], back, ","); } else { assert query == front + [query[k]]; }
    if front != [] {
      JoinAppend(front, query[k], ",");
    } else {
      assert front + [query[k]] == [query[k]];
    }
    var head := if k == 0 then "" else Join(front, ",") + ",";
    var tail := if back == [] then "" else "," + Join(back, ",");
    assert Join(query, ",") == head + query[k] + tail;
    ConcatAssoc(p, head + query[k], tail);
    ConcatAssoc(p, head, query[k]);
  }

  /** The one of the four searches with the same neighbours as the k-th code of a query. */
  function Probe(query: seq<string>, k: nat): (r: seq<string>)
    requires k < |query|
    ensures r in Around(query[k])
  {
    if k == 0 then if |query| == 1 then [query[k]] else [query[k], "*"]
    else if k + 1 == |query| then ["*", query[k]] else ["*", query[k], "*"]
  }

  lemma PrefixGrows(p: string, rest: string)
    ensures HasPrefix(p, p) && HasPrefix(p + rest, p)
  {
  }

  lemma ProbeDecides(tenant: string, w: string, query: seq<string>, k: nat)
    requires k < |query| && Accepts(SearchKey(tenant, Probe(query, k)), CodePattern(tenant, w))
    ensures Accepts(SearchKey(tenant, query), CodePattern(tenant, w))
  {
    hide Accepts, CodePattern, SearchPrefix, SearchKey, Join;
    var p, code := SearchPrefix(tenant), query[k];
    var front, back := Join(query[..k], ","), Join(query[k + 1..], ",");
    KeysAround(tenant, code);
    KeySplitAt(tenant, query, k);
    PrefixGrows(p, "");
    if k == 0 && |query| == 1 {
      assert p + "" + code + "" == p + code;
    } else if k == 0 {
      PrefixGrows(p, code + ",");
      ConcatAssoc(p, code, ",");
      assert p + code + "," + "*" + "" == p + code + "," + "*";
      AcceptsRefilled(tenant, w, p + code + ",", back, "");
      assert p + code + "," + back + "" == p + "" + code + ("," + back);
    } else if k + 1 == |query| {
      AcceptsRefilled(tenant, w, p, front, "," + code);
      assert p + front + ("," + code) == p + (front + ",") + code + "";
    } else {
      AcceptsRefilled(tenant, w, p, front, "," + code + "," + "*");
      var x := p + front + ("," + code + ",");
      assert p + front + ("," + code + "," + "*") == x + "*" + "";
      PrefixGrows(p, front + ("," + code + ","));
      ConcatAssoc(p, front, "," + code + ",");
      AcceptsRefilled(tenant, w, x, back, "");
      assert x + back + "" == p + (front + ",") + code + ("," + back);
    }
  }

  /** Every search that asks for the code is dropped exactly when these four are, whatever the codes are made of. */
  lemma FourSearchesDecide(tenant: string, codes: seq<string>, code: string)
    ensures (forall query: seq<string> | code in query :: DropsQuery(tenant, codes, query))
       <==> DropsAround(tenant, codes, code)
  {
    hide Accepts;
    if DropsAround(tenant, codes, code) {
      forall query: seq<string> | code in query ensures DropsQuery(tenant, codes, query) {
        var k :| 0 <= k < |query| && query[k] == code;
        assert DropsQuery(tenant, codes, Probe(query, k));
        var w :| w in codes && Accepts(SearchKey(tenant, Probe(query, k)), CodePattern(tenant, w));
        ProbeDecides(tenant, w, query, k);
      }
    }
  }

  // ---------------------------------------------------------------- codes without stars and commas

  lemma OccursBefore(p: string, rest: string, word: string, i: nat)
    requires i + |word| <= |p|
    ensures OccursAt(p + rest, word, i) <==> OccursAt(p, word, i)
  {
    assert (p + rest)[i..i + |word|] == p[i..i + |word|];
  }

  lemma OccursWithin(a: string, b: string, c: string, word: string, i: nat)
    requires |a| <= i && i + |word| <= |a| + |b|
    ensures OccursAt(a + b + c, word, i) <==> OccursAt(b, word, i - |a|)
  {
    assert (a + b + c)[i..i + |word|] == b[i - |a|..i - |a| + |word|];
  }

  /** Between stars and commas a word without either occurs only in what they enclose. */
  lemma EnclosedWord(p: string, code: string, word: string)
    requires word != "" && '*' !in word && ',' !in word
    ensures Contains(p + "*" + ("," + code + "," + "*"), word) ==> Contains(p, word) || Contains(code, word)
  {
    var text, start := p + "*" + ("," + code + "," + "*"), |p| + 2;
    assert text == p + ("*" + "," + code + "," + "*") == (p + "*" + ",") + code + ("," + "*");
    assert text[|p|] == '*' && text[|p| + 1] == ',' && text[start + |code|] == ',' && text[start + |code| + 1] == '*';
    forall i: nat | i <= |text| && OccursAt(text, word, i) ensures Contains(p, word) || Contains(code, word) {
      assert forall j | i <= j < i + |word| :: text[j] == text[i..i + |word|][j - i] == word[j - i];
      if i + |word| <= |p| {
        OccursBefore(p, "*" + "," + code + "," + "*", word, i);
      } else {
        assert i >= start && i + |word| <= start + |code|;
        OccursWithin(p + "*" + ",", code, "," + "*", word, i);
      }
    }
  }

  /** Such codes drop all that ask for a code exactly when one of them is part of it, or of the fixed part of every key. */
  lemma PlainDropsIff(tenant: string, codes: seq<string>, code: string)
    requires '*' !in tenant && forall w <- codes :: '*' !in w && ',' !in w
    ensures DropsAround(tenant, codes, code)
       <==> exists w <- codes :: Contains(code, w) || Contains(SearchPrefix(tenant), w)
  {
    hide Accepts, Contains;
    var p := SearchPrefix(tenant);
    KeysAround(tenant, code);
    if w :| w in codes && (Contains(code, w) || Contains(p, w)) {
      forall query | query in Around(code) ensures DropsQuery(tenant, codes, query) {
        PlainDrops(tenant, codes, code, w, query);
      }
    }
    if DropsAround(tenant, codes, code) {
      var all := ["*", code, "*"];
      assert all in Around(code) && DropsQuery(tenant, codes, all);
      var w :| w in codes && Accepts(SearchKey(tenant, all), CodePattern(tenant, w));
      if w == "" {
        EmptyOccurs(code);
      } else {
        WordPatternAccepts(p, w, SearchKey(tenant, all));
        EnclosedWord(p, code, w);
      }
    }
  }

  lemma EmptyOccurs(s: string)
    ensures Contains(s, "")
  {
    assert OccursAt(s, "", 0);
  }

  lemma PlainDrops(tenant: string, codes: seq<string>, code: string, w: string, query: seq<string>)
    requires '*' !in tenant && '*' !in w && w in codes && query in Around(code)
    requires Contains(code, w) || Contains(SearchPrefix(tenant), w)
    ensures DropsQuery(tenant, codes, query)
  {
    hide Accepts, Contains, SearchPrefix;
    if w == "" {
      AskedCodeDropped(tenant, codes, query, w);
    } else {
      KeyContains(tenant, query, code, w);
      StarFreePrefix(tenant);
      WordPatternAccepts(SearchPrefix(tenant), w, SearchKey(tenant, query));
    }
  }

  lemma StarFreePrefix(tenant: string)
    requires '*' !in tenant
    ensures '*' !in SearchPrefix(tenant)
  {
  }

  lemma KeyContains(tenant: string, query: seq<string>, code: string, w: string)
    requires code in query && (Contains(code, w) || Contains(SearchPrefix(tenant), w))
    ensures HasPrefix(SearchKey(tenant, query), SearchPrefix(tenant)) && Contains(SearchKey(tenant, query), w)
  {
    hide Contains, Join, SearchPrefix;
    var p, rest := SearchPrefix(tenant), Join(query, ",");
    if Contains(p, w) {
      ContainsInside("", p, rest, w);
      assert "" + p + rest == p + rest;
    } else {
      var k :| 0 <= k < |query| && query[k] == code;
      var i := JoinOffset(query, k, ",");
      ContainsInside(p + rest[..i], code, rest[i + |code|..], w);
      assert p + rest == p + rest[..i] + code + rest[i + |code|..];
    }
  }
}
