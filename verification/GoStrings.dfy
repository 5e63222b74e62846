/**
 * The operations of Go's `strings` package that the services call, on sequences of characters, with the laws the
 * proofs about keys, paths and templates use: splitting and joining undo one another, and searches find first places.
 */
module GoStrings {

  predicate HasPrefix(s: string, prefix: string) {
    |prefix| <= |s| && s[..|prefix|] == prefix
  }

  predicate HasSuffix(s: string, suffix: string) {
    |suffix| <= |s| && s[|s| - |suffix|..] == suffix
  }

  predicate OccursAt(s: string, sub: string, i: nat) {
    i + |sub| <= |s| && s[i..i + |sub|] == sub
  }

  predicate Contains(s: string, sub: string) {
    exists i | 0 <= i <= |s| :: OccursAt(s, sub, i)
  }

  /** For the letters A to Z. */
  function ToLower(s: string): string {
    seq(|s|, i requires 0 <= i < |s| => if 'A' <= s[i] <= 'Z' then s[i] - 'A' + 'a' else s[i])
  }

  predicate FirstOccurrence(s: string, sub: string, i: nat) {
    OccursAt(s, sub, i) && forall j | 0 <= j < i :: !OccursAt(s, sub, j)
  }

  lemma {:induction false} FirstOccurrenceExists(s: string, sub: string, i: nat) returns (first: nat)
    requires OccursAt(s, sub, i)
    ensures first <= i && FirstOccurrence(s, sub, first)
  {
    if j :| 0 <= j < i && OccursAt(s, sub, j) {
      first := FirstOccurrenceExists(s, sub, j);
    } else {
      first := i;
    }
  }

  /** The first occurrence of `sub`, or -1. */
  function Index(s: string, sub: string): (r: int)
    ensures r == -1 || 0 <= r <= |s|
    ensures r != -1 ==> FirstOccurrence(s, sub, r)
    ensures Contains(s, sub) <==> r != -1
  {
    if Contains(s, sub) then
      assert exists i: nat :: i <= |s| && FirstOccurrence(s, sub, i) by {
        var k :| 0 <= k <= |s| && OccursAt(s, sub, k);
        var i := FirstOccurrenceExists(s, sub, k);
      }
      var i: nat :| i <= |s| && FirstOccurrence(s, sub, i);
      i
    else -1
  }

  lemma IndexIsFirst(s: string, sub: string, i: nat)
    requires OccursAt(s, sub, i)
    ensures 0 <= Index(s, sub) <= i
  {
    assert Contains(s, sub);
    var first := Index(s, sub);
    assert FirstOccurrence(s, sub, first);
  }

  predicate FirstAt(s: string, c: char, i: int) { 0 <= i < |s| && s[i] == c && c !in s[..i] }

  lemma {:induction false} FirstAtExists(s: string, c: char) returns (i: int)
    requires c in s
    ensures FirstAt(s, c, i)
  {
    if s[0] == c {
      i := 0;
    } else {
      assert s == [s[0]] + s[1..];
      var j := FirstAtExists(s[1..], c);
      i := j + 1;
      assert s[..i] == [s[0]] + s[1..][..j];
    }
  }

  /** The first place of a character, or -1. */
  function IndexByte(s: string, c: char): (r: int)
    ensures -1 <= r < |s|
  {
    if c in s then
      assert exists i :: FirstAt(s, c, i) by { var i := FirstAtExists(s, c); }
      var i :| FirstAt(s, c, i);
      i
    else -1
  }

  lemma IndexByteIs(s: string, c: char)
    ensures IndexByte(s, c) == -1 <==> c !in s
    ensures IndexByte(s, c) != -1 ==> FirstAt(s, c, IndexByte(s, c))
  {
    if c in s {
      var i := FirstAtExists(s, c);
    }
  }

  /** `strings.Index` of a one-character string is the first place of the character. */
  lemma IndexIsIndexByte(s: string, c: char)
    ensures Index(s, [c]) == IndexByte(s, c)
  {
    var k, r := Index(s, [c]), IndexByte(s, c);
    IndexByteIs(s, c);
    if r != -1 {
      assert s[r..r + 1] == [c];
      IndexIsFirst(s, [c], r);
    }
    if k != -1 {
      assert s[k..k + 1] == [c];
      assert s[k] == s[k..k + 1][0];
      assert r >= 0 ==> forall j | 0 <= j < r :: s[..r][j] == s[j];
    }
  }

  /** `strings.Replace(s, old, new, 1)`. */
  function ReplaceFirst(s: string, target: string, replacement: string): string {
    var i := Index(s, target);
    if i == -1 then s else s[..i] + replacement + s[i + |target|..]
  }

  function Join(parts: seq<string>, sep: string): string {
    if |parts| == 0 then ""
    else if |parts| == 1 then parts[0]
    else parts[0] + sep + Join(parts[1..], sep)
  }

  /** `strings.Split` at a one-character separator. */
  function Split(s: string, sep: char): (parts: seq<string>)
    ensures |parts| >= 1
    ensures forall p <- parts :: sep !in p
  {
    if s == "" then [""]
    else
      var rest := Split(s[1..], sep);
      if s[0] == sep then [""] + rest else [[s[0]] + rest[0]] + rest[1..]
  }

  function Repeat(s: string, count: nat): string {
    if count == 0 then "" else s + Repeat(s, count - 1)
  }

  lemma {:induction false} SplitConcat(a: string, sep: char, b: string)
    requires sep !in a
    ensures Split(a + [sep] + b, sep) == [a] + Split(b, sep)
  {
    if a == "" {
      assert a + [sep] + b == [sep] + b;
      assert ([sep] + b)[1..] == b;
    } else {
      assert (a + [sep] + b)[1..] == a[1..] + [sep] + b;
      SplitConcat(a[1..], sep, b);
      assert [a[0]] + a[1..] == a;
    }
  }

  lemma {:induction false} SplitWhole(s: string, sep: char)
    requires sep !in s
    ensures Split(s, sep) == [s]
  {
    if s != "" {
      SplitWhole(s[1..], sep);
      assert [s[0]] + s[1..] == s;
    }
  }

  lemma {:induction false} SplitOfJoin(parts: seq<string>, sep: char)
    requires |parts| >= 1 && forall p <- parts :: sep !in p
    ensures Split(Join(parts, [sep]), sep) == parts
  {
    if |parts| == 1 {
      SplitWhole(parts[0], sep);
    } else {
      SplitOfJoin(parts[1..], sep);
      SplitConcat(parts[0], sep, Join(parts[1..], [sep]));
      assert [parts[0]] + parts[1..] == parts;
    }
  }

  lemma {:induction false} JoinOfSplit(s: string, sep: char)
    ensures Join(Split(s, sep), [sep]) == s
  {
    if s != "" {
      JoinOfSplit(s[1..], sep);
      var rest := Split(s[1..], sep);
      if s[0] == sep {
        assert ([""] + rest)[1..] == rest;
      } else {
        assert ([[s[0]] + rest[0]] + rest[1..])[1..] == rest[1..];
      }
    }
  }

  lemma JoinInjective(a: seq<string>, b: seq<string>, sep: char)
    requires |a| >= 1 && |b| >= 1
    requires (forall p <- a :: sep !in p) && (forall p <- b :: sep !in p)
    requires Join(a, [sep]) == Join(b, [sep])
    ensures a == b
  {
    SplitOfJoin(a, sep);
    SplitOfJoin(b, sep);
  }

  lemma {:induction false} JoinAppend(a: seq<string>, last: string, sep: string)
    requires |a| >= 1
    ensures Join(a + [last], sep) == Join(a, sep) + sep + last
  {
    if |a| > 1 {
      JoinAppend(a[1..], last, sep);
      assert (a + [last])[1..] == a[1..] + [last];
    } else {
      assert (a + [last])[1..] == [last];
    }
  }

  lemma {:induction false} JoinConcat(a: seq<string>, b: seq<string>, sep: string)
    requires |a| >= 1 && |b| >= 1
    ensures Join(a + b, sep) == Join(a, sep) + sep + Join(b, sep)
  {
    if |a| == 1 {
      assert (a + b)[1..] == b;
    } else {
      JoinConcat(a[1..], b, sep);
      assert (a + b)[1..] == a[1..] + b;
    }
  }

  lemma JoinContainsPart(parts: seq<string>, k: nat, sep: string)
    requires k < |parts|
    ensures Contains(Join(parts, sep), parts[k])
  {
    var i := JoinOffset(parts, k, sep);
    assert OccursAt(Join(parts, sep), parts[k], i);
  }

  lemma {:induction false} JoinOffset(parts: seq<string>, k: nat, sep: string) returns (i: nat)
    requires k < |parts|
    ensures OccursAt(Join(parts, sep), parts[k], i)
  {
    if k == 0 {
      i := 0;
    } else {
      var j := JoinOffset(parts[1..], k - 1, sep);
      i := |parts[0] + sep| + j;
      OccursBehind(parts[0] + sep, Join(parts[1..], sep), parts[k], j);
    }
  }

  lemma OccursBehind(front: string, rest: string, sub: string, j: nat)
    requires OccursAt(rest, sub, j)
    ensures OccursAt(front + rest, sub, |front| + j)
  {
    assert (front + rest)[|front| + j..|front| + j + |sub|] == rest[j..j + |sub|];
  }

  lemma {:induction false} RepeatLonger(s: string, a: nat, b: nat)
    requires a <= b
    ensures |Repeat(s, a)| <= |Repeat(s, b)|
    ensures a < b && s != "" ==> |Repeat(s, a)| < |Repeat(s, b)|
  {
    if a < b { RepeatLonger(s, a, b - 1); }
  }

  lemma {:induction false} RepeatAtLeast(s: string, n: nat)
    requires s != ""
    ensures |Repeat(s, n)| >= n
  {
    if n > 0 { RepeatAtLeast(s, n - 1); }
  }

  lemma {:induction false} RepeatLength(s: string, n: nat)
    ensures |Repeat(s, n)| == n * |s|
  {
    if n > 0 { RepeatLength(s, n - 1); }
  }

  lemma ConcatAssoc<T>(a: seq<T>, b: seq<T>, c: seq<T>)
    ensures a + (b + c) == a + b + c
  {
  }

  lemma ContainsInside(a: string, b: string, c: string, sub: string)
    requires Contains(b, sub)
    ensures Contains(a + b + c, sub)
  {
    var i :| 0 <= i <= |b| && OccursAt(b, sub, i);
    assert (a + b + c)[|a| + i..|a| + i + |sub|] == b[i..i + |sub|];
    assert OccursAt(a + b + c, sub, |a| + i);
  }
}
