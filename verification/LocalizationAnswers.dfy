/**
 * What the table answers a search with, the selected rows in code order, and what cache keys tell apart: the part of the
 * coherence proof that is about single answers and single keys.
 */
module LocalizationAnswers {
  import opened GoStrings
  import opened LocalizationModel

  // ---------------------------------------------------------------- answers

  predicate InCodeOrder(rows: seq<Message>) { forall i, j | 0 <= i < j < |rows| :: UpTo(rows[i].code, rows[j].code) }

  lemma {:induction false} UpToTotal(a: string, b: string)
    ensures UpTo(a, b) || UpTo(b, a)
    ensures UpTo(a, b) && UpTo(b, a) ==> a == b
  {
    if a != "" && b != "" {
      UpToTotal(a[1..], b[1..]);
      assert a == [a[0]] + a[1..] && b == [b[0]] + b[1..];
    }
  }

  lemma {:induction false} UpToTransitive(a: string, b: string, c: string)
    requires UpTo(a, b) && UpTo(b, c)
    ensures UpTo(a, c)
    decreases |a|
  {
    if a != "" && a[0] == b[0] == c[0] {
      UpToTransitive(a[1..], b[1..], c[1..]);
    }
  }

  lemma {:induction false} PlacedPermutes(sorted: seq<Message>, m: Message)
    ensures multiset(Placed(sorted, m)) == multiset(sorted) + multiset{m}
  {
    if sorted != [] {
      assert sorted == [sorted[0]] + sorted[1..];
      PlacedPermutes(sorted[1..], m);
    }
  }

  lemma {:induction false} PlacedSorts(sorted: seq<Message>, m: Message)
    requires InCodeOrder(sorted)
    ensures InCodeOrder(Placed(sorted, m))
  {
    if sorted != [] {
      if UpTo(m.code, sorted[0].code) {
        forall j | 0 < j < |sorted| ensures UpTo(m.code, sorted[j].code) {
          UpToTransitive(m.code, sorted[0].code, sorted[j].code);
        }
      } else {
        var rest := Placed(sorted[1..], m);
        UpToTotal(m.code, sorted[0].code);
        PlacedSorts(sorted[1..], m);
        forall j | 0 <= j < |rest| ensures UpTo(sorted[0].code, rest[j].code) {
          PlacedPermutes(sorted[1..], m);
          assert rest[j] in multiset(rest);
          assert rest[j] in sorted[1..] || rest[j] == m;
        }
      }
    }
  }

  lemma {:induction false} ByCodeSorts(rows: seq<Message>)
    ensures InCodeOrder(ByCode(rows)) && multiset(ByCode(rows)) == multiset(rows)
  {
    if rows != [] {
      ByCodeSorts(rows[1..]);
      PlacedSorts(ByCode(rows[1..]), rows[0]);
      PlacedPermutes(ByCode(rows[1..]), rows[0]);
      assert rows == [rows[0]] + rows[1..];
    }
  }

  lemma {:induction false} SelectedIn(table: seq<Message>, t: string, m: string, l: string)
    ensures forall r :: r in Selected(table, t, m, l) <==> r in table && Selects(r, t, m, l)
  {
    if table != [] {
      SelectedIn(table[1..], t, m, l);
      assert table == [table[0]] + table[1..];
    }
  }

  lemma AnswerIn(table: seq<Message>, t: string, m: string, l: string)
    ensures forall r :: r in Answer(table, t, m, l) <==> r in table && Selects(r, t, m, l)
    ensures InCodeOrder(Answer(table, t, m, l))
  {
    SelectedIn(table, t, m, l);
    ByCodeSorts(Selected(table, t, m, l));
    var selected, answer := Selected(table, t, m, l), Answer(table, t, m, l);
    assert forall r :: r in answer <==> r in multiset(answer);
    assert forall r :: r in selected <==> r in multiset(selected);
  }

  lemma {:induction false} SelectedConcat(a: seq<Message>, b: seq<Message>, t: string, m: string, l: string)
    ensures Selected(a + b, t, m, l) == Selected(a, t, m, l) + Selected(b, t, m, l)
  {
    if a == [] {
      assert a + b == b;
    } else {
      assert (a + b)[1..] == a[1..] + b;
      SelectedConcat(a[1..], b, t, m, l);
      ConcatAssoc(if Selects(a[0], t, m, l) then [a[0]] else [], Selected(a[1..], t, m, l), Selected(b, t, m, l));
    }
  }

  lemma {:induction false} SelectedSame(a: seq<Message>, b: seq<Message>, t: string, m: string, l: string)
    requires |a| == |b|
    requires forall i | 0 <= i < |a| :: a[i] == b[i] || !(Selects(a[i], t, m, l) || Selects(b[i], t, m, l))
    ensures Selected(a, t, m, l) == Selected(b, t, m, l)
  {
    if a != [] {
      SelectedSame(a[1..], b[1..], t, m, l);
    }
  }

  lemma {:induction false} SelectedNone(rows: seq<Message>, t: string, m: string, l: string)
    ensures Selected(rows, t, m, l) == [] <==> forall r <- rows :: !Selects(r, t, m, l)
  {
    if rows != [] {
      SelectedNone(rows[1..], t, m, l);
      assert rows == [rows[0]] + rows[1..];
    }
  }

  lemma {:induction false} SelectedWithout(table: seq<Message>, tenant: string, uuids: seq<string>, t: string,
                                           m: string, l: string)
    requires t != tenant
    ensures Selected(Without(table, tenant, uuids), t, m, l) == Selected(table, t, m, l)
  {
    if table != [] {
      SelectedWithout(table[1..], tenant, uuids, t, m, l);
      var rest := Without(table[1..], tenant, uuids);
      assert Without(table, tenant, uuids) == if Hits(table[0], tenant, uuids) then rest else [table[0]] + rest;
      assert ([table[0]] + rest)[1..] == rest;
    }
  }

  // ---------------------------------------------------------------- keys

  predicate Clean(s: string) { ':' !in s }

  predicate CleanRow(r: Message) { Clean(r.tenant) && Clean(r.moduleName) && Clean(r.locale) }

  lemma KeySplits(t: string, m: string, l: string)
    requires Clean(t) && Clean(m) && Clean(l)
    ensures Split(CacheKey(t, m, l), ':') == [t, m, l]
  {
    assert CacheKey(t, m, l) == t + ":" + (m + ":" + l);
    SplitConcat(t, ':', m + ":" + l);
    SplitConcat(m, ':', l);
    SplitWhole(l, ':');
  }

  lemma KeyInjective(t: string, m: string, l: string, t': string, m': string, l': string)
    requires Clean(t) && Clean(m) && Clean(l) && Clean(t') && Clean(m') && Clean(l')
    requires CacheKey(t, m, l) == CacheKey(t', m', l')
    ensures t == t' && m == m' && l == l'
  {
    KeySplits(t, m, l);
    KeySplits(t', m', l');
    assert [t, m, l][0] == [t', m', l'][0] && [t, m, l][1] == [t', m', l'][1] && [t, m, l][2] == [t', m', l'][2];
  }

  /** A clean key is dropped exactly when a message carries its module and locale. */
  lemma DropsIff(messages: seq<Message>, t: string, m: string, l: string)
    requires Clean(t) && Clean(m) && Clean(l) && forall r <- messages :: CleanRow(r)
    ensures Drops(messages, CacheKey(t, m, l))
       <==> exists r <- messages :: r.tenant == t && r.moduleName == m && r.locale == l
  {
    KeySplits(t, m, l);
    forall r | r in messages && KeyOf(r) == CacheKey(t, m, l)
      ensures r.tenant == t && r.moduleName == m && r.locale == l
    {
      KeyInjective(r.tenant, r.moduleName, r.locale, t, m, l);
    }
  }
}
