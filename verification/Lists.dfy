/**
 * Lists without repetition: how many members they can have within another list, and when two of them have the same
 * members. The marks of a parallel execution and the uuids of a batch of messages are such lists.
 */
module Lists {

  predicate Distinct<T(==)>(xs: seq<T>) { forall i, j | 0 <= i < j < |xs| :: xs[i] != xs[j] }

  /** Distinct members of a list are no more than its places, and if as many, they are all its members. */
  lemma {:induction false} DistinctFits<T>(xs: seq<T>, ys: seq<T>)
    requires Distinct(xs) && forall x <- xs :: x in ys
    ensures |xs| <= |ys|
    ensures |xs| == |ys| ==> forall y <- ys :: y in xs
  {
    if xs != [] {
      var front, last := xs[..|xs| - 1], xs[|xs| - 1];
      assert xs == front + [last] && last in xs;
      var i :| 0 <= i < |ys| && ys[i] == last;
      var rest := ys[..i] + ys[i + 1..];
      assert forall x <- front :: x != last;
      forall x | x in front ensures x in rest {
        assert x in ys && x != last;
        var j :| 0 <= j < |ys| && ys[j] == x;
        assert x == if j < i then rest[j] else rest[j - 1];
      }
      DistinctFits(front, rest);
      if |xs| == |ys| {
        forall y | y in ys ensures y in xs {
          var j :| 0 <= j < |ys| && ys[j] == y;
          assert j != i ==> y == if j < i then rest[j] else rest[j - 1];
        }
      }
    }
  }

  lemma {:induction false} CountDistinct<T>(xs: seq<T>, x: T)
    requires Distinct(xs)
    ensures multiset(xs)[x] == if x in xs then 1 else 0
  {
    if xs != [] {
      var front, last := xs[..|xs| - 1], xs[|xs| - 1];
      CountDistinct(front, x);
      assert xs == front + [last];
    }
  }

  lemma DistinctSameElements<T>(xs: seq<T>, ys: seq<T>)
    requires Distinct(xs) && Distinct(ys) && forall x :: x in xs <==> x in ys
    ensures multiset(xs) == multiset(ys)
  {
    forall x ensures multiset(xs)[x] == multiset(ys)[x] {
      CountDistinct(xs, x);
      CountDistinct(ys, x);
    }
  }

  /** A list covering as many distinct members as it has places repeats nothing. */
  lemma CoveredIsDistinct<T>(xs: seq<T>, ys: seq<T>)
    requires Distinct(xs) && (forall x <- xs :: x in ys) && |xs| == |ys|
    ensures Distinct(ys)
  {
    forall i, j | 0 <= i < j < |ys| ensures ys[i] != ys[j] {
      if ys[i] == ys[j] {
        RepeatSpares(xs, ys, i, j);
      }
    }
  }

  lemma RepeatSpares<T>(xs: seq<T>, ys: seq<T>, i: nat, j: nat)
    requires Distinct(xs) && (forall x <- xs :: x in ys) && i < j < |ys| && ys[i] == ys[j]
    ensures |xs| < |ys|
  {
    var rest := ys[..j] + ys[j + 1..];
    forall x | x in xs ensures x in rest {
      var k :| 0 <= k < |ys| && ys[k] == x;
      assert rest[if k < j then k else if k == j then i else k - 1] == x;
    }
    DistinctFits(xs, rest);
  }

  lemma FrontDistinct<T>(xs: seq<T>, x: T)
    requires Distinct(xs + [x])
    ensures Distinct(xs)
  {
    assert forall i | 0 <= i < |xs| :: (xs + [x])[i] == xs[i];
  }

  // ---------------------------------------------------------------- places

  /** The places below `n` that hold, in order. */
  ghost predicate Places(at: seq<nat>, n: nat, holds: nat -> bool) {
    && (forall i, j | 0 <= i < j < |at| :: at[i] < at[j])
    && (forall k | 0 <= k < |at| :: at[k] < n && holds(at[k]))
    && (forall p: nat | p < n && holds(p) :: p in at)
  }

  /** The members at these places. */
  function At<T>(xs: seq<T>, at: seq<nat>): seq<T>
    requires forall k | 0 <= k < |at| :: at[k] < |xs|
  {
    seq(|at|, k requires 0 <= k < |at| => xs[at[k]])
  }

  lemma NoPlaces(holds: nat -> bool)
    ensures Places([], 0, holds)
  {
  }

  /** One place more to look at. */
  lemma PlacesNext(at: seq<nat>, n: nat, before: nat -> bool, holds: nat -> bool)
    requires Places(at, n, before) && forall p: nat | p < n :: before(p) <==> holds(p)
    ensures Places(if holds(n) then at + [n] else at, n + 1, holds)
  {
    if holds(n) { assert (at + [n])[|at|] == n; }
    assert forall p <- at :: p in at + [n];
  }

  /** The same list, told by another condition. */
  lemma PlacesSame(at: seq<nat>, n: nat, holds: nat -> bool, tells: nat -> bool)
    requires Places(at, n, holds) && forall p: nat | p < n :: holds(p) <==> tells(p)
    ensures Places(at, n, tells)
  {
  }

  /** Places moved up by one, behind the first if it holds. */
  function Shifted(rest: seq<nat>, first: bool): seq<nat> {
    (if first then [0] else []) + seq(|rest|, k requires 0 <= k < |rest| => rest[k] + 1)
  }

  lemma ShiftedAt(rest: seq<nat>, first: bool)
    ensures var shift, at := if first then 1 else 0, Shifted(rest, first);
            && |at| == |rest| + shift && (first ==> at[0] == 0)
            && forall k | shift <= k < |at| :: at[k] == rest[k - shift] + 1
  {
  }

  lemma ShiftedHas(rest: seq<nat>, first: bool, p: nat)
    requires if p == 0 then first else p - 1 in rest
    ensures p in Shifted(rest, first)
  {
    var at, shift := Shifted(rest, first), if first then 1 else 0;
    if p == 0 {
      assert at[0] == 0;
    } else {
      var k :| 0 <= k < |rest| && rest[k] == p - 1;
      assert at[k + shift] == p;
    }
  }

  lemma ShiftedOrder(rest: seq<nat>, first: bool)
    requires forall i, j | 0 <= i < j < |rest| :: rest[i] < rest[j]
    ensures var at := Shifted(rest, first); forall i, j | 0 <= i < j < |at| :: at[i] < at[j]
  {
    hide Shifted;
    ShiftedAt(rest, first);
  }

  lemma ShiftedHold(rest: seq<nat>, n: nat, holds: nat -> bool, later: nat -> bool)
    requires Places(rest, n, later) && forall p: nat | p < n :: later(p) <==> holds(p + 1)
    ensures var at := Shifted(rest, holds(0)); forall k | 0 <= k < |at| :: at[k] < n + 1 && holds(at[k])
  {
    hide Shifted;
    var at, shift := Shifted(rest, holds(0)), if holds(0) then 1 else 0;
    ShiftedAt(rest, holds(0));
    forall k | 0 <= k < |at| ensures at[k] < n + 1 && holds(at[k]) {
      if k >= shift { assert later(rest[k - shift]); }
    }
  }

  /** A filter that goes from the front: the places of the rest, moved by one. */
  lemma PlacesShifted(rest: seq<nat>, n: nat, holds: nat -> bool, later: nat -> bool)
    requires Places(rest, n, later) && forall p: nat | p < n :: later(p) <==> holds(p + 1)
    ensures Places(Shifted(rest, holds(0)), n + 1, holds)
  {
    hide Shifted;
    ShiftedOrder(rest, holds(0));
    ShiftedHold(rest, n, holds, later);
    forall p: nat | p < n + 1 && holds(p) ensures p in Shifted(rest, holds(0)) {
      if p > 0 { assert later(p - 1); }
      ShiftedHas(rest, holds(0), p);
    }
  }

  lemma AtNext<T>(xs: seq<T>, at: seq<nat>, n: nat)
    requires n < |xs| && forall k | 0 <= k < |at| :: at[k] < n
    ensures At(xs[..n], at) == At(xs, at) && At(xs, at + [n]) == At(xs, at) + [xs[n]]
  {
  }

  /** The places of a filter that goes from the front. */
  lemma AtShifted<T>(xs: seq<T>, rest: seq<nat>, holds: nat -> bool, later: nat -> bool) returns (at: seq<nat>)
    requires xs != [] && Places(rest, |xs| - 1, later) && forall p: nat | p < |xs| - 1 :: later(p) <==> holds(p + 1)
    ensures Places(at, |xs|, holds)
    ensures At(xs, at) == (if holds(0) then [xs[0]] else []) + At(xs[1..], rest)
  {
    at := Shifted(rest, holds(0));
    PlacesShifted(rest, |xs| - 1, holds, later);
    AtOfShifted(xs, rest, holds(0));
  }

  lemma AtOfShifted<T>(xs: seq<T>, rest: seq<nat>, first: bool)
    requires xs != [] && forall k | 0 <= k < |rest| :: rest[k] < |xs| - 1
    ensures forall k | 0 <= k < |Shifted(rest, first)| :: Shifted(rest, first)[k] < |xs|
    ensures At(xs, Shifted(rest, first)) == (if first then [xs[0]] else []) + At(xs[1..], rest)
  {
    hide Shifted;
    ShiftedAt(rest, first);
  }
}
