/**
 * The SQL operators that the repositories rely on: LIKE with its two wildcards and its escape character, paging by
 * LIMIT and OFFSET, and the set of rows that an answer holds whatever its order.
 */
module Sql {
  import opened GoStrings

  function Rows<T>(s: seq<T>): set<T> { set x | x in s }

  /** OFFSET and LIMIT, each applied only when positive. */
  function Page<T>(rows: seq<T>, limit: int, offset: int): seq<T> {
    var rest := if offset <= 0 then rows else if offset >= |rows| then [] else rows[offset..];
    if 0 < limit < |rest| then rest[..limit] else rest
  }

  /** `text LIKE pattern`: `%` any text, `_` any character, `\` the next character itself. */
  predicate Like(text: string, pattern: string)
    decreases |pattern|
  {
    if pattern == "" then text == ""
    else if pattern[0] == '%' then exists k | 0 <= k <= |text| :: Like(text[k..], pattern[1..])
    else if pattern[0] == '_' then text != "" && Like(text[1..], pattern[1..])
    else if pattern[0] == '\\' && |pattern| > 1 then
      text != "" && text[0] == pattern[1] && Like(text[1..], pattern[2..])
    else text != "" && text[0] == pattern[0] && Like(text[1..], pattern[1..])
  }

  /** What the two wildcards and any other character match on their own, and an escaped character. */
  lemma LikeOne(text: string, c: char)
    ensures Like(text, "%") && (Like(text, "_") <==> |text| == 1)
    ensures c !in {'%', '_', '\\'} ==> (Like(text, [c]) <==> text == [c])
    ensures Like(text, ['\\', c]) <==> text == [c]
  {
    LikeWild(text);
    LikeChar(text, c);
  }

  lemma LikeWild(text: string)
    ensures Like(text, "%") && (Like(text, "_") <==> |text| == 1)
  {
    assert "%"[1..] == "" && "_"[1..] == "";
    assert text[|text|..] == "";
  }

  lemma LikeChar(text: string, c: char)
    ensures c !in {'%', '_', '\\'} ==> (Like(text, [c]) <==> text == [c])
    ensures Like(text, ['\\', c]) <==> text == [c]
  {
    assert [c][1..] == "" && ['\\', c][2..] == "";
    if text != "" { assert text == [text[0]] + text[1..]; }
  }

  /** One pattern after another matches one text after another; together with `LikeOne` this is what LIKE means. */
  lemma {:induction false} LikeConcat(text: string, a: string, b: string)
    requires '\\' !in a
    ensures Like(text, a + b) <==> exists i | 0 <= i <= |text| :: LikeBoth(text, i, a, b)
    decreases |a|, 1
  {
    if a == "" {
      assert a + b == b && text[0..] == text && text[..0] == "";
      assert Like(text, b) ==> LikeBoth(text, 0, a, b);
      forall i | 0 <= i <= |text| && LikeBoth(text, i, a, b) ensures Like(text, b) { assert i == |text[..i]| == 0; }
    } else {
      var head, tail := a[0], a[1..];
      assert a == [head] + tail && head in a;
      assert (a + b)[0] == head && (a + b)[1..] == tail + b;
      if head == '%' {
        LikeConcatAny(text, tail, b);
      } else if text != "" {
        LikeConcat(text[1..], tail, b);
        forall i | 1 <= i <= |text| ensures text[..i][1..] == text[1..][..i - 1] && text[i..] == text[1..][i - 1..] {}
        if Like(text, a + b) {
          var i :| 0 <= i <= |text| - 1 && LikeBoth(text[1..], i, tail, b);
          assert LikeBoth(text, i + 1, a, b);
        }
        if i :| 0 <= i <= |text| && LikeBoth(text, i, a, b) {
          assert LikeBoth(text[1..], i - 1, tail, b);
        }
      }
    }
  }

  predicate LikeBoth(text: string, i: int, a: string, b: string)
    requires 0 <= i <= |text|
  {
    Like(text[..i], a) && Like(text[i..], b)
  }

  predicate LikeFrom(text: string, k: int, pattern: string)
    requires 0 <= k <= |text|
  {
    Like(text[k..], pattern)
  }

  lemma LikeAny(text: string, rest: string)
    ensures Like(text, "%" + rest) <==> exists k | 0 <= k <= |text| :: LikeFrom(text, k, rest)
  {
    assert ("%" + rest)[1..] == rest;
    if k :| 0 <= k <= |text| && Like(text[k..], rest) { assert LikeFrom(text, k, rest); }
  }

  lemma {:induction false} LikeConcatAny(text: string, tail: string, b: string)
    requires '\\' !in tail
    ensures Like(text, "%" + tail + b) <==> exists i | 0 <= i <= |text| :: LikeBoth(text, i, "%" + tail, b)
    decreases |tail|, 2
  {
    hide Like;
    assert "%" + tail + b == "%" + (tail + b);
    LikeAny(text, tail + b);
    if Like(text, "%" + tail + b) {
      var k :| 0 <= k <= |text| && LikeFrom(text, k, tail + b);
      LikeConcat(text[k..], tail, b);
      var j :| 0 <= j <= |text| - k && LikeBoth(text[k..], j, tail, b);
      TwoCuts(text, k, k + j);
      LikeAny(text[..k + j], tail);
      assert LikeFrom(text[..k + j], k, tail);
      assert LikeBoth(text, k + j, "%" + tail, b);
    }
    if i :| 0 <= i <= |text| && LikeBoth(text, i, "%" + tail, b) {
      LikeAny(text[..i], tail);
      var k :| 0 <= k <= i && LikeFrom(text[..i], k, tail);
      TwoCuts(text, k, i);
      assert LikeBoth(text[k..], i - k, tail, b);
      LikeConcat(text[k..], tail, b);
      assert LikeFrom(text, k, tail + b);
    }
  }

  lemma TwoCuts(text: string, k: nat, i: nat)
    requires k <= i <= |text|
    ensures text[k..][..i - k] == text[..i][k..] && text[k..][i - k..] == text[i..]
  {
  }

  predicate LikeLiteral(s: string) {
    '%' !in s && '_' !in s && '\\' !in s
  }

  lemma LikeLiteralStep(text: string, pattern: string)
    requires pattern != "" && pattern[0] !in {'%', '_', '\\'}
    ensures Like(text, pattern) <==> text != "" && text[0] == pattern[0] && Like(text[1..], pattern[1..])
  {
  }

  /** A literal followed by `%` is a prefix test. */
  lemma {:induction false} LikePrefix(text: string, prefix: string)
    requires LikeLiteral(prefix)
    ensures Like(text, prefix + "%") <==> HasPrefix(text, prefix)
  {
    if prefix == "" {
      assert prefix + "%" == "%" && "%"[1..] == "";
      assert text[|text|..] == "" && Like("", "");
    } else {
      var pattern := prefix + "%";
      assert pattern[0] == prefix[0] && pattern[1..] == prefix[1..] + "%";
      assert prefix[0] in prefix;
      LikeLiteralStep(text, pattern);
      if text != "" {
        LikePrefix(text[1..], prefix[1..]);
        PrefixStep(text, prefix);
      }
    }
  }

  lemma PrefixStep(text: string, prefix: string)
    requires text != "" && prefix != ""
    ensures HasPrefix(text, prefix) <==> text[0] == prefix[0] && HasPrefix(text[1..], prefix[1..])
  {
    if |prefix| <= |text| {
      assert text[..|prefix|] == [text[0]] + text[1..][..|prefix| - 1];
      assert prefix == [prefix[0]] + prefix[1..];
    }
  }

  /** Replacing the first occurrence of a text's own prefix swaps that prefix. */
  lemma ReplacePrefix(text: string, target: string, replacement: string)
    requires HasPrefix(text, target)
    ensures ReplaceFirst(text, target, replacement) == replacement + text[|target|..]
  {
    hide Index;
    assert text[0..|target|] == target;
    IndexIsFirst(text, target, 0);
    assert text[..0] == "";
    assert text[..0] + replacement + text[0 + |target|..] == replacement + text[|target|..];
  }

  /** A stretch of the rows from the offset on, up to the limit; a bound that is not positive is none. */
  predicate Stretch<T(==)>(rows: seq<T>, stretch: seq<T>, limit: int, offset: int) {
    var from := if offset > 0 then offset else 0;
    var left := if from < |rows| then |rows| - from else 0;
    && |stretch| == (if 0 < limit < left then limit else left)
    && forall i | 0 <= i < |stretch| :: stretch[i] == rows[from + i]
  }

  lemma PageIs<T>(rows: seq<T>, limit: int, offset: int)
    ensures Stretch(rows, Page(rows, limit, offset), limit, offset)
  {
  }
}
