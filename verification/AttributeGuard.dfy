/** The attribute guard: request attributes against an action's requirements. */
module AttributeGuard {

  type Attributes = map<string, seq<string>>

  /** Unicode white space, as `strings.TrimSpace` sees it. */
  predicate IsSpace(c: char) {
    c in {'\t', '\n', '\U{000B}', '\U{000C}', '\r', ' ', '\U{0085}', '\U{00A0}', '\U{1680}',
          '\U{2028}', '\U{2029}', '\U{202F}', '\U{205F}', '\U{3000}'}
    || '\U{2000}' <= c <= '\U{200A}'
  }

  function TrimLeft(s: string): string {
    if s != "" && IsSpace(s[0]) then TrimLeft(s[1..]) else s
  }

  function TrimRight(s: string): string {
    if s != "" && IsSpace(s[|s| - 1]) then TrimRight(s[..|s| - 1]) else s
  }

  function TrimSpace(s: string): string { TrimRight(TrimLeft(s)) }

  predicate Missing(request: Attributes, key: string) {
    key !in request || request[key] == []
  }

  predicate SomeMatch(given: seq<string>, wanted: seq<string>) {
    exists v <- given, w <- wanted :: TrimSpace(v) == TrimSpace(w)
  }

  /** Every required key is given with at least one acceptable value. */
  predicate GuardOk(request: Attributes, required: Attributes) {
    forall k <- required :: !Missing(request, k) && SomeMatch(request[k], required[k])
  }

  predicate Mismatched(request: Attributes, required: Attributes, key: string)
    requires key in required
  {
    key in request && |request[key]| > 0 && !SomeMatch(request[key], required[key])
  }

  /** `validateAttributes`; the two lists are what the error message names. */
  method ValidateAttributes(request: Attributes, required: Attributes)
    returns (valid: bool, missingKeys: seq<string>, mismatched: seq<string>)
    ensures valid == GuardOk(request, required)
    ensures forall k :: k in missingKeys <==> k in required && (k in request ==> |request[k]| == 0)
    ensures forall k :: k in mismatched <==> k in required && Mismatched(request, required, k)
    ensures |missingKeys| + |mismatched| <= |required|
  {
    hide SomeMatch;
    missingKeys, mismatched := [], [];
    var keys := required.Keys;
    while keys != {}
      invariant keys <= required.Keys
      invariant forall k :: k in missingKeys <==> k in required && k !in keys && Missing(request, k)
      invariant forall k :: k in mismatched <==> k in required && k !in keys && Mismatched(request, required, k)
      invariant |missingKeys| + |mismatched| + |keys| <= |required.Keys|
      decreases |keys|
    {
      hide Mismatched;
      var key :| key in keys;
      keys := keys - {key};
      MismatchedIs(request, required, key);
      if key !in request || |request[key]| == 0 {
        missingKeys := missingKeys + [key];
        continue;
      }
      var hasMatch := AnyMatch(request[key], required[key]);
      if !hasMatch {
        mismatched := mismatched + [key];
      }
    }
    valid := |missingKeys| == 0 && |mismatched| == 0;
    GuardOkIff(request, required);
    if !valid {
      var k := if |missingKeys| > 0 then missingKeys[0] else mismatched[0];
      assert k in missingKeys || k in mismatched;
    }
  }

  lemma MismatchedIs(request: Attributes, required: Attributes, key: string)
    requires key in required
    ensures Mismatched(request, required, key)
       <==> !(key !in request || |request[key]| == 0) && !SomeMatch(request[key], required[key])
  {
  }

  lemma GuardOkIff(request: Attributes, required: Attributes)
    ensures GuardOk(request, required) <==> forall k <- required :: !Missing(request, k) && !Mismatched(request, required, k)
  {
  }

  method AnyMatch(given: seq<string>, wanted: seq<string>) returns (hasMatch: bool)
    ensures hasMatch == SomeMatch(given, wanted)
  {
    hasMatch := false;
    for i := 0 to |given|
      invariant !hasMatch && !SomeMatch(given[..i], wanted)
    {
      for j := 0 to |wanted|
        invariant !hasMatch && forall w <- wanted[..j] :: TrimSpace(given[i]) != TrimSpace(w)
      {
        if TrimSpace(given[i]) == TrimSpace(wanted[j]) {
          assert given[i] in given && wanted[j] in wanted;
          return true;
        }
        assert wanted[..j + 1] == wanted[..j] + [wanted[j]];
      }
      assert wanted[..|wanted|] == wanted;
      assert given[..i + 1] == given[..i] + [given[i]];
    }
    assert given[..|given|] == given;
  }

  /** No requirements means no check. */
  method CanTransition(request: Attributes, required: Attributes) returns (can: bool)
    ensures can == GuardOk(request, required)
  {
    if |required| == 0 {
      return true;
    }
    var missingKeys, mismatched;
    can, missingKeys, mismatched := ValidateAttributes(request, required);
  }

  /** White space around a value never decides a match. */
  lemma {:induction false} TrimIgnoresPadding(before: string, s: string, after: string)
    requires (forall c <- before :: IsSpace(c)) && (forall c <- after :: IsSpace(c))
    ensures TrimSpace(before + s + after) == TrimSpace(s)
  {
    if before != "" {
      assert before[0] in before;
      assert (before + s + after)[1..] == before[1..] + s + after;
      TrimIgnoresPadding(before[1..], s, after);
    } else {
      assert before + s + after == s + after;
      TrimPaddedRight(s, after);
    }
  }

  lemma {:induction false} TrimPaddedRight(s: string, after: string)
    requires forall c <- after :: IsSpace(c)
    ensures TrimSpace(s + after) == TrimSpace(s)
    decreases |s|
  {
    if s != "" && IsSpace(s[0]) {
      assert (s + after)[1..] == s[1..] + after;
      TrimPaddedRight(s[1..], after);
    } else if s != "" {
      TrimRightPadding(s, after);
    } else {
      assert s + after == after;
      AllSpace(after);
    }
  }

  lemma {:induction false} TrimRightPadding(s: string, after: string)
    requires forall c <- after :: IsSpace(c)
    ensures TrimRight(s + after) == TrimRight(s)
    decreases |after|
  {
    if after == "" {
      assert s + after == s;
    } else {
      assert after[|after| - 1] in after;
      assert (s + after)[..|s + after| - 1] == s + after[..|after| - 1];
      TrimRightPadding(s, after[..|after| - 1]);
    }
  }

  lemma {:induction false} AllSpace(s: string)
    requires forall c <- s :: IsSpace(c)
    ensures TrimLeft(s) == ""
  {
    if s != "" {
      assert s[0] in s;
      AllSpace(s[1..]);
    }
  }

  // ---------------------------------------------------------------- the guard, without trimming

  /** A value's text between the white space around it. */
  ghost predicate IsCore(v: string, core: string) {
    && (exists before, after :: (&& v == before + core + after
                                 && (forall c <- before :: IsSpace(c)) && forall c <- after :: IsSpace(c)))
    && (core != "" ==> !IsSpace(core[0]) && !IsSpace(core[|core| - 1]))
  }

  /** The white space of Unicode by its code points: the controls, the blanks and the separators. */
  lemma SpaceCodes(c: char)
    ensures IsSpace(c) <==>
              || 9 <= c as int <= 13 || c as int in {0x20, 0x85, 0xA0, 0x1680, 0x202F, 0x205F, 0x3000}
              || 0x2000 <= c as int <= 0x200A || c as int == 0x2028 || c as int == 0x2029
  {
    assert c in {'\t', '\n', '\U{000B}', '\U{000C}', '\r'} <==> 9 <= c as int <= 13;
  }

  lemma {:induction false} TrimLeftCuts(s: string) returns (before: string)
    ensures s == before + TrimLeft(s) && (forall c <- before :: IsSpace(c))
    ensures TrimLeft(s) != "" ==> !IsSpace(TrimLeft(s)[0])
  {
    hide IsSpace;
    if s != "" && IsSpace(s[0]) {
      var rest := TrimLeftCuts(s[1..]);
      before := [s[0]] + rest;
      assert s == [s[0]] + s[1..];
      assert [s[0]] + (rest + TrimLeft(s[1..])) == before + TrimLeft(s[1..]);
    } else {
      before := "";
    }
  }

  lemma {:induction false} TrimRightCuts(s: string) returns (after: string)
    ensures s == TrimRight(s) + after && (forall c <- after :: IsSpace(c))
    ensures TrimRight(s) != "" ==> !IsSpace(TrimRight(s)[|TrimRight(s)| - 1]) && TrimRight(s)[0] == s[0]
  {
    hide IsSpace;
    if s != "" && IsSpace(s[|s| - 1]) {
      var rest := TrimRightCuts(s[..|s| - 1]);
      after := rest + [s[|s| - 1]];
      assert s == s[..|s| - 1] + [s[|s| - 1]];
      assert TrimRight(s[..|s| - 1]) + rest + [s[|s| - 1]] == TrimRight(s[..|s| - 1]) + after;
    } else {
      after := "";
    }
  }

  lemma TrimIsCore(v: string)
    ensures IsCore(v, TrimSpace(v))
  {
    hide IsSpace;
    var before := TrimLeftCuts(v);
    var after := TrimRightCuts(TrimLeft(v));
    assert before + (TrimSpace(v) + after) == before + TrimSpace(v) + after;
  }

  lemma CoreIsTrim(v: string, core: string)
    requires IsCore(v, core)
    ensures core == TrimSpace(v)
  {
    hide IsSpace;
    var before, after :| (&& v == before + core + after
                          && (forall c <- before :: IsSpace(c)) && forall c <- after :: IsSpace(c));
    TrimIgnoresPadding(before, core, after);
  }

  /** The guard passes exactly if every required key is given with a value that some required one equals between blanks. */
  lemma GuardIff(request: Attributes, required: Attributes)
    ensures GuardOk(request, required) <==>
              forall k <- required ::
                && k in request
                && exists v <- request[k], w <- required[k], core :: IsCore(v, core) && IsCore(w, core)
  {
    hide IsCore, TrimSpace;
    forall v, w ensures TrimSpace(v) == TrimSpace(w) <==> exists core :: IsCore(v, core) && IsCore(w, core) {
      TrimIsCore(v);
      TrimIsCore(w);
      if core :| IsCore(v, core) && IsCore(w, core) {
        CoreIsTrim(v, core);
        CoreIsTrim(w, core);
      }
    }
  }
}
