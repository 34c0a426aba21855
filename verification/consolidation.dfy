/** Consolidation of the per-file outcomes: each file's scan becomes either
    a `Resultado` or an error line; the results are then ordered by file
    name and their lines and words are summed. The files are processed
    concurrently, so the results arrive in no particular order; the model
    takes them as any sequence and shows that the totals do not depend on
    that order, and neither does the ordered list when the names are
    distinct. */
module Consolidation {
  import opened Wrappers
  import opened LineScan

  /** One processed file: its name and its counts. */
  datatype Resultado = Resultado(fileName: string, lines: nat, words: nat)

  /** What processing one file leaves behind: a result, or an error line. */
  datatype Outcome = Done(result: Resultado) | Failed(message: string)

  /** The error line of a file whose scan was cancelled. */
  function CancelledMessage(nome: string): string {
    nome + ": operação cancelada."
  }

  /** The error line of a file whose reader failed with `message`. */
  function FailureMessage(nome: string, message: string): string {
    nome + ": " + message
  }

  /** The body run for each file: scan it, then record its counts, or the
      cancellation, or the reader's message, each under the file name. */
  function ProcessFile(nome: string, st: Stream, cancelAt: Option<nat>): (o: Outcome)
    ensures o.Done? <==> (cancelAt.None? || cancelAt.value > |st.lines|) && st.failure.None?
    ensures o.Done? ==> o.result == Resultado(nome, |st.lines|, TotalWords(st.lines))
    ensures cancelAt.Some? && cancelAt.value <= |st.lines| ==> o == Failed(CancelledMessage(nome))
    ensures (cancelAt.None? || cancelAt.value > |st.lines|) && st.failure.Some? ==>
              o == Failed(FailureMessage(nome, st.failure.value))
  {
    match Scan(st, cancelAt)
    case Scanned(c) => Done(Resultado(nome, c.lines, c.words))
    case Cancelled => Failed(CancelledMessage(nome))
    case ReadFailed(m) => Failed(FailureMessage(nome, m))
  }

  /** The two bags, `resultados` and `erros`, as filled by the outcomes. */
  datatype Collected = Collected(resultados: seq<Resultado>, erros: seq<string>)

  /** Files the outcomes list, each outcome going to its bag. */
  function Collect(outcomes: seq<Outcome>): (c: Collected)
    ensures |c.resultados| + |c.erros| == |outcomes|
  {
    if |outcomes| == 0 then Collected([], [])
    else
      var rest := Collect(outcomes[1..]);
      match outcomes[0]
      case Done(r) => Collected([r] + rest.resultados, rest.erros)
      case Failed(e) => Collected(rest.resultados, [e] + rest.erros)
  }

  /** Every result and every error line comes from an outcome, and every
      outcome lands in its bag. */
  lemma {:induction false} CollectMembers(outcomes: seq<Outcome>)
    ensures forall r :: r in Collect(outcomes).resultados <==> Done(r) in outcomes
    ensures forall e :: e in Collect(outcomes).erros <==> Failed(e) in outcomes
  {
    if |outcomes| > 0 {
      CollectMembers(outcomes[1..]);
      assert outcomes == [outcomes[0]] + outcomes[1..];
    }
  }

  /** Every outcome lands in its bag as often as it occurs: k failed files
      leave k error lines, and each result is kept once per file. */
  lemma {:induction false} CollectCounts(outcomes: seq<Outcome>)
    ensures forall r :: multiset(Collect(outcomes).resultados)[r] == multiset(outcomes)[Done(r)]
    ensures forall e :: multiset(Collect(outcomes).erros)[e] == multiset(outcomes)[Failed(e)]
  {
    if |outcomes| > 0 {
      var o, rest := outcomes[0], outcomes[1..];
      CollectCounts(rest);
      SplitHead(outcomes, []);
      CollectCons(o, rest);
      BagCountsStep(o, rest, Collect(outcomes), Collect(rest));
    }
  }

  /** One outcome in front adds one to the count of its result or of its
      error line, and to nothing else. */
  lemma BagCountsStep(o: Outcome, rest: seq<Outcome>, c: Collected, cr: Collected)
    requires c.resultados == (if o.Done? then [o.result] else []) + cr.resultados
    requires c.erros == (if o.Failed? then [o.message] else []) + cr.erros
    requires forall r :: multiset(cr.resultados)[r] == multiset(rest)[Done(r)]
    requires forall e :: multiset(cr.erros)[e] == multiset(rest)[Failed(e)]
    ensures forall r :: multiset(c.resultados)[r] == multiset([o] + rest)[Done(r)]
    ensures forall e :: multiset(c.erros)[e] == multiset([o] + rest)[Failed(e)]
  {
    assert multiset([o] + rest) == multiset{o} + multiset(rest);
    if o.Done? {
      assert multiset(c.resultados) == multiset{o.result} + multiset(cr.resultados);
      assert multiset(c.erros) == multiset(cr.erros);
    } else {
      assert multiset(c.erros) == multiset{o.message} + multiset(cr.erros);
      assert multiset(c.resultados) == multiset(cr.resultados);
    }
  }

  /** Collecting two runs of outcomes is collecting each and putting the
      bags together. */
  lemma {:induction false} CollectAppend(a: seq<Outcome>, b: seq<Outcome>)
    ensures Collect(a + b).resultados == Collect(a).resultados + Collect(b).resultados
    ensures Collect(a + b).erros == Collect(a).erros + Collect(b).erros
  {
    if |a| > 0 {
      var o, rest := a[0], a[1..];
      var r, e := if o.Done? then [o.result] else [], if o.Failed? then [o.message] else [];
      CollectAppend(rest, b);
      SplitHead(a, b);
      CollectCons(o, rest + b);
      CollectCons(o, rest);
      calc {
        Collect(a + b).resultados;
        r + Collect(rest + b).resultados;
        r + (Collect(rest).resultados + Collect(b).resultados);
        (r + Collect(rest).resultados) + Collect(b).resultados;
        Collect(a).resultados + Collect(b).resultados;
      }
      calc {
        Collect(a + b).erros;
        e + Collect(rest + b).erros;
        e + (Collect(rest).erros + Collect(b).erros);
        (e + Collect(rest).erros) + Collect(b).erros;
        Collect(a).erros + Collect(b).erros;
      }
    } else {
      assert a + b == b;
    }
  }

  /** A non-empty list is its head followed by its tail. */
  lemma SplitHead<T>(a: seq<T>, b: seq<T>)
    requires |a| > 0
    ensures a == [a[0]] + a[1..] && a + b == [a[0]] + (a[1..] + b)
  {
  }

  /** One outcome in front adds its result or its error line in front. */
  lemma CollectCons(o: Outcome, rest: seq<Outcome>)
    ensures Collect([o] + rest).resultados == (if o.Done? then [o.result] else []) + Collect(rest).resultados
    ensures Collect([o] + rest).erros == (if o.Failed? then [o.message] else []) + Collect(rest).erros
  {
    assert ([o] + rest)[1..] == rest;
  }

  // ---------------------------------------------------------------------
  // Ordering by file name

  /** Comparison of two names: `a` precedes or equals `b` in the
      lexicographic order of their Unicode code points. */
  predicate NameLe(a: string, b: string) {
    |a| == 0 || (|b| > 0 && (a[0] < b[0] || (a[0] == b[0] && NameLe(a[1..], b[1..]))))
  }

  lemma {:induction false} NameLeReflexive(a: string)
    ensures NameLe(a, a)
  {
    if |a| > 0 {
      NameLeReflexive(a[1..]);
    }
  }

  lemma {:induction false} NameLeTotal(a: string, b: string)
    ensures NameLe(a, b) || NameLe(b, a)
  {
    if |a| > 0 && |b| > 0 && a[0] == b[0] {
      NameLeTotal(a[1..], b[1..]);
    }
  }

  lemma {:induction false} NameLeAntisymmetric(a: string, b: string)
    requires NameLe(a, b) && NameLe(b, a)
    ensures a == b
  {
    if |a| > 0 && |b| > 0 {
      NameLeAntisymmetric(a[1..], b[1..]);
      assert a == [a[0]] + a[1..] && b == [b[0]] + b[1..];
    }
  }

  lemma {:induction false} NameLeTransitive(a: string, b: string, c: string)
    requires NameLe(a, b) && NameLe(b, c)
    ensures NameLe(a, c)
  {
    if |a| > 0 && |b| > 0 && |c| > 0 && a[0] == b[0] && b[0] == c[0] {
      NameLeTransitive(a[1..], b[1..], c[1..]);
    }
  }

  /** Ordered by file name. */
  predicate Sorted(s: seq<Resultado>) {
    forall i, j :: 0 <= i < j < |s| ==> NameLe(s[i].fileName, s[j].fileName)
  }

  /** The records called `n`, in the order they appear in `s`. */
  function WithName(s: seq<Resultado>, n: string): (w: seq<Resultado>)
    ensures |w| <= |s|
  {
    if |s| == 0 then []
    else (if s[0].fileName == n then [s[0]] else []) + WithName(s[1..], n)
  }

  /** `WithName(s, n)` holds exactly the records of `s` called `n`. */
  lemma {:induction false} WithNameMembers(s: seq<Resultado>, n: string)
    ensures forall y :: y in WithName(s, n) <==> y in s && y.fileName == n
  {
    if |s| > 0 {
      WithNameMembers(s[1..], n);
      assert s == [s[0]] + s[1..];
    }
  }

  /** No record of `s` is called `n`. */
  lemma {:induction false} WithNameNone(s: seq<Resultado>, n: string)
    requires forall i :: 0 <= i < |s| ==> s[i].fileName != n
    ensures WithName(s, n) == []
  {
    if |s| > 0 {
      WithNameNone(s[1..], n);
    }
  }

  lemma {:induction false} WithNameAppend(a: seq<Resultado>, b: seq<Resultado>, n: string)
    ensures WithName(a + b, n) == WithName(a, n) + WithName(b, n)
  {
    if |a| > 0 {
      WithNameAppend(a[1..], b, n);
      assert (a + b)[1..] == a[1..] + b;
    } else {
      assert a + b == b;
    }
  }

  /** The first record of a sorted list has the least name. */
  lemma HeadLeast(s: seq<Resultado>, y: Resultado)
    requires Sorted(s) && y in s
    ensures NameLe(s[0].fileName, y.fileName)
  {
    var k :| 0 <= k < |s| && s[k] == y;
    if k == 0 {
      NameLeReflexive(y.fileName);
    }
  }

  /** `x` placed after every record whose name is not greater than its own
      (the stable insertion step of `OrderBy`). */
  function Insert(x: Resultado, s: seq<Resultado>): (r: seq<Resultado>)
    requires Sorted(s)
    ensures Sorted(r)
    ensures multiset(r) == multiset(s) + multiset{x}
  {
    if |s| == 0 then [x]
    else if !NameLe(s[0].fileName, x.fileName) then
      SortedBeforeHead(x, s);
      [x] + s
    else
      var t := Insert(x, s[1..]);
      SortedAfterHead(x, s, t);
      [s[0]] + t
  }

  /** A record named before the head of a sorted list can go in front. */
  lemma SortedBeforeHead(x: Resultado, s: seq<Resultado>)
    requires Sorted(s) && |s| > 0 && !NameLe(s[0].fileName, x.fileName)
    ensures Sorted([x] + s)
  {
    NameLeTotal(s[0].fileName, x.fileName);
    forall j | 0 <= j < |s| ensures NameLe(x.fileName, s[j].fileName) {
      HeadLeast(s, s[j]);
      NameLeTransitive(x.fileName, s[0].fileName, s[j].fileName);
    }
    forall i, j | 0 <= i < j < |s| + 1
      ensures NameLe(([x] + s)[i].fileName, ([x] + s)[j].fileName)
    {
      assert ([x] + s)[j] == s[j - 1];
      if i > 0 {
        assert ([x] + s)[i] == s[i - 1];
      }
    }
  }

  /** The head of a sorted list, followed by a sorted rearrangement of its
      tail and a record named no earlier than the head, is sorted. */
  lemma SortedAfterHead(x: Resultado, s: seq<Resultado>, t: seq<Resultado>)
    requires Sorted(s) && |s| > 0 && NameLe(s[0].fileName, x.fileName)
    requires Sorted(t) && multiset(t) == multiset(s[1..]) + multiset{x}
    ensures Sorted([s[0]] + t)
    ensures multiset([s[0]] + t) == multiset(s) + multiset{x}
  {
    assert s == [s[0]] + s[1..];
    forall y | y in t ensures NameLe(s[0].fileName, y.fileName) {
      assert y in multiset(t);
      if y != x {
        assert y in s;
        HeadLeast(s, y);
      }
    }
    forall i, j | 0 <= i < j < |t| + 1
      ensures NameLe(([s[0]] + t)[i].fileName, ([s[0]] + t)[j].fileName)
    {
      assert ([s[0]] + t)[j] == t[j - 1];
      assert t[j - 1] in t;
      if i > 0 {
        assert ([s[0]] + t)[i] == t[i - 1];
      }
    }
  }

  /** Nothing in a sorted list whose head comes after `m` is called `m`. */
  lemma NoneNamedBelowHead(s: seq<Resultado>, m: string)
    requires Sorted(s) && |s| > 0 && !NameLe(s[0].fileName, m)
    ensures WithName(s, m) == []
  {
    forall i | 0 <= i < |s| ensures s[i].fileName != m {
      HeadLeast(s, s[i]);
    }
    WithNameNone(s, m);
  }

  /** Inserting `x` leaves the records of every other name in place and
      puts `x` after those sharing its name. */
  lemma {:induction false} WithNameInsert(x: Resultado, s: seq<Resultado>, n: string)
    requires Sorted(s)
    ensures WithName(Insert(x, s), n) == WithName(s, n) + (if x.fileName == n then [x] else [])
  {
    if |s| == 0 {
      WithNameCons(x, [], n);
    } else if !NameLe(s[0].fileName, x.fileName) {
      WithNameInsertFront(x, s, n);
    } else {
      WithNameInsert(x, s[1..], n);
      WithNameInsertLater(x, s, n);
    }
  }

  lemma WithNameInsertFront(x: Resultado, s: seq<Resultado>, n: string)
    requires Sorted(s) && |s| > 0 && !NameLe(s[0].fileName, x.fileName)
    ensures WithName(Insert(x, s), n) == WithName(s, n) + (if x.fileName == n then [x] else [])
  {
    assert Insert(x, s) == [x] + s;
    if x.fileName == n {
      NoneNamedBelowHead(s, n);
    }
    WithNameCons(x, s, n);
  }

  lemma WithNameInsertLater(x: Resultado, s: seq<Resultado>, n: string)
    requires Sorted(s) && |s| > 0 && NameLe(s[0].fileName, x.fileName)
    requires WithName(Insert(x, s[1..]), n) == WithName(s[1..], n) + (if x.fileName == n then [x] else [])
    ensures WithName(Insert(x, s), n) == WithName(s, n) + (if x.fileName == n then [x] else [])
  {
    var t := Insert(x, s[1..]);
    InsertAfterHead(x, s);
    SplitHead(s, []);
    ConsKeepsWithName(s[0], t, s[1..], n, if x.fileName == n then [x] else []);
  }

  /** A record named no earlier than the head goes into the tail. */
  lemma InsertAfterHead(x: Resultado, s: seq<Resultado>)
    requires Sorted(s) && |s| > 0 && NameLe(s[0].fileName, x.fileName)
    ensures Insert(x, s) == [s[0]] + Insert(x, s[1..])
  {
  }

  /** Putting the same record in front of two lists keeps a relation
      between their records of one name. */
  lemma ConsKeepsWithName(h: Resultado, a: seq<Resultado>, b: seq<Resultado>, n: string, extra: seq<Resultado>)
    requires WithName(a, n) == WithName(b, n) + extra
    ensures WithName([h] + a, n) == WithName([h] + b, n) + extra
  {
    WithNameCons(h, a, n);
    WithNameCons(h, b, n);
  }

  lemma WithNameCons(h: Resultado, t: seq<Resultado>, n: string)
    ensures WithName([h] + t, n) == (if h.fileName == n then [h] else []) + WithName(t, n)
  {
    assert ([h] + t)[1..] == t;
  }

  lemma WithNameSingle(x: Resultado, n: string)
    ensures WithName([x], n) == if x.fileName == n then [x] else []
  {
    assert [x][1..] == [];
  }

  /** `OrderBy(r => r.FileName)`: a stable sort by name. */
  function SortByName(s: seq<Resultado>): (r: seq<Resultado>)
    ensures Sorted(r)
    ensures multiset(r) == multiset(s)
  {
    if |s| == 0 then []
    else
      assert s == s[..|s| - 1] + [s[|s| - 1]];
      Insert(s[|s| - 1], SortByName(s[..|s| - 1]))
  }

  /** The sort is stable: records that share a name keep their relative
      order. */
  lemma {:induction false} SortByNameStable(s: seq<Resultado>, n: string)
    ensures WithName(SortByName(s), n) == WithName(s, n)
    decreases |s|
  {
    if |s| > 0 {
      var init, x := s[..|s| - 1], s[|s| - 1];
      var sorted := SortByName(init);
      var tail := if x.fileName == n then [x] else [];
      calc {
        WithName(SortByName(s), n);
        { SortByNameLast(s); }
        WithName(Insert(x, sorted), n);
        { WithNameInsert(x, sorted, n); }
        WithName(sorted, n) + tail;
        { SortByNameStable(init, n); }
        WithName(init, n) + tail;
        { WithNameAppend(init, [x], n); WithNameSingle(x, n); }
        WithName(init + [x], n);
        { assert init + [x] == s; }
        WithName(s, n);
      }
    }
  }

  lemma SortByNameLast(s: seq<Resultado>)
    requires |s| > 0
    ensures SortByName(s) == Insert(s[|s| - 1], SortByName(s[..|s| - 1]))
  {
  }

  /** A sorted list is fixed by the order it keeps among records of each
      name: the ordered list is the only one with those properties. */
  lemma {:induction false} SortedUnique(a: seq<Resultado>, b: seq<Resultado>)
    requires Sorted(a) && Sorted(b)
    requires forall n :: WithName(a, n) == WithName(b, n)
    ensures a == b
    decreases |a|
  {
    if |a| > 0 && |b| > 0 {
      var m, m' := a[0].fileName, b[0].fileName;
      assert WithName(a, m) == [a[0]] + WithName(a[1..], m);
      assert WithName(b, m') == [b[0]] + WithName(b[1..], m');
      WithNameMembers(a, m');
      WithNameMembers(b, m);
      assert WithName(a, m) == WithName(b, m) && WithName(a, m') == WithName(b, m');
      assert a[0] in WithName(b, m) && a[0] in b;
      assert b[0] in WithName(a, m') && b[0] in a;
      HeadLeast(b, a[0]);
      HeadLeast(a, b[0]);
      NameLeAntisymmetric(m, m');
      assert WithName(a, m)[0] == a[0] && WithName(b, m)[0] == b[0];
      forall n ensures WithName(a[1..], n) == WithName(b[1..], n) {
        var h := if m == n then [a[0]] else [];
        assert WithName(a, n) == h + WithName(a[1..], n);
        assert WithName(b, n) == h + WithName(b[1..], n);
        assert WithName(a[1..], n) == WithName(a, n)[|h|..];
        assert WithName(b[1..], n) == WithName(b, n)[|h|..];
      }
      SortedUnique(a[1..], b[1..]);
      assert a == [a[0]] + a[1..] && b == [b[0]] + b[1..];
    } else if |a| > 0 {
      assert a[0] in WithName(a, a[0].fileName);
      assert false;
    } else if |b| > 0 {
      assert b[0] in WithName(b, b[0].fileName);
      assert false;
    }
  }

  /** The ordered list depends only on the order among records of each
      name, not on the order in which different files finished. */
  lemma SortByNameDeterminedByNames(s1: seq<Resultado>, s2: seq<Resultado>)
    requires forall n :: WithName(s1, n) == WithName(s2, n)
    ensures SortByName(s1) == SortByName(s2)
  {
    forall n ensures WithName(SortByName(s1), n) == WithName(SortByName(s2), n) {
      SortByNameStable(s1, n);
      SortByNameStable(s2, n);
    }
    SortedUnique(SortByName(s1), SortByName(s2));
  }

  /** No two records share a name (names come from one directory). */
  predicate DistinctNames(s: seq<Resultado>) {
    forall i, j :: 0 <= i < j < |s| ==> s[i].fileName != s[j].fileName
  }

  /** With distinct names, the records called `n` are at most one. */
  lemma {:induction false} WithNameAtMostOne(s: seq<Resultado>, n: string)
    requires DistinctNames(s)
    ensures |WithName(s, n)| <= 1
  {
    if |s| > 0 {
      assert DistinctNames(s[1..]) by {
        forall i, j | 0 <= i < j < |s[1..]| ensures s[1..][i].fileName != s[1..][j].fileName {
          assert s[1..][i] == s[i + 1] && s[1..][j] == s[j + 1];
        }
      }
      WithNameAtMostOne(s[1..], n);
      if s[0].fileName == n {
        forall i | 0 <= i < |s[1..]| ensures s[1..][i].fileName != n {
          assert s[1..][i] == s[i + 1];
        }
        WithNameNone(s[1..], n);
      }
    }
  }

  lemma SameNamedRecord(s1: seq<Resultado>, s2: seq<Resultado>, n: string)
    requires DistinctNames(s1) && DistinctNames(s2)
    requires forall y :: y in s1 <==> y in s2
    ensures WithName(s1, n) == WithName(s2, n)
  {
    WithNameAtMostOne(s1, n);
    WithNameAtMostOne(s2, n);
    WithNameMembers(s1, n);
    WithNameMembers(s2, n);
    AtMostOneSame(WithName(s1, n), WithName(s2, n));
  }

  /** Two lists of at most one record with the same members are equal. */
  lemma AtMostOneSame(w1: seq<Resultado>, w2: seq<Resultado>)
    requires |w1| <= 1 && |w2| <= 1
    requires forall y :: y in w1 <==> y in w2
    ensures w1 == w2
  {
    if w1 != [] {
      assert w1[0] in w1;
    }
    if w2 != [] {
      assert w2[0] in w2;
    }
  }

  /** Files with distinct names come out in the same order whatever the
      order they finished in. */
  lemma SortByNameOrderIndependent(s1: seq<Resultado>, s2: seq<Resultado>)
    requires DistinctNames(s1) && DistinctNames(s2)
    requires multiset(s1) == multiset(s2)
    ensures SortByName(s1) == SortByName(s2)
  {
    forall n ensures WithName(s1, n) == WithName(s2, n) {
      assert forall y :: y in s1 <==> y in multiset(s2);
      SameNamedRecord(s1, s2, n);
    }
    SortByNameDeterminedByNames(s1, s2);
  }

  // ---------------------------------------------------------------------
  // Totals

  function SumLines(s: seq<Resultado>): nat {
    if |s| == 0 then 0 else s[0].lines + SumLines(s[1..])
  }

  function SumWords(s: seq<Resultado>): nat {
    if |s| == 0 then 0 else s[0].words + SumWords(s[1..])
  }

  /** Removing the record at position `k` takes its counts off the sums. */
  lemma {:induction false} SumsWithout(s: seq<Resultado>, k: nat)
    requires k < |s|
    ensures SumLines(s) == s[k].lines + SumLines(s[..k] + s[k + 1..])
    ensures SumWords(s) == s[k].words + SumWords(s[..k] + s[k + 1..])
  {
    if k == 0 {
      assert s[..0] + s[1..] == s[1..];
    } else {
      SumsWithout(s[1..], k - 1);
      assert s[1..][..k - 1] + s[1..][k..] == (s[..k] + s[k + 1..])[1..];
    }
  }

  /** Taking the same element off two permutations of each other leaves
      permutations of each other. */
  lemma MultisetWithout<T>(a: seq<T>, b: seq<T>, k: nat)
    requires multiset(a) == multiset(b) && |a| > 0 && k < |b| && b[k] == a[0]
    ensures multiset(a[1..]) == multiset(b[..k] + b[k + 1..])
  {
    assert a == [a[0]] + a[1..];
    assert b == b[..k] + ([b[k]] + b[k + 1..]);
    calc {
      multiset(a[1..]);
      multiset(a) - multiset{a[0]};
      multiset(b) - multiset{b[k]};
      multiset(b[..k]) + multiset(b[k + 1..]);
    }
  }

  /** The sums do not depend on the order of the records. */
  lemma {:induction false} SumsPermutation(a: seq<Resultado>, b: seq<Resultado>)
    requires multiset(a) == multiset(b)
    ensures SumLines(a) == SumLines(b) && SumWords(a) == SumWords(b)
    decreases |a|
  {
    if |a| > 0 {
      assert a[0] in multiset(b);
      var k :| 0 <= k < |b| && b[k] == a[0];
      var b' := b[..k] + b[k + 1..];
      assert b == b[..k] + [b[k]] + b[k + 1..];
      MultisetWithout(a, b, k);
      SumsWithout(b, k);
      SumsPermutation(a[1..], b');
    } else {
      assert b == [];
    }
  }

  /** What lines 100-102 compute: the results ordered by name and the two
      totals. */
  datatype Report = Report(ordenados: seq<Resultado>, totalLinhas: nat, totalPalavras: nat)

  /** The ordered list is the collected results, rearranged by name (and
      stable among equal names); the totals are the sums over the
      collected results. */
  function Consolidate(resultados: seq<Resultado>): (rep: Report)
    ensures Sorted(rep.ordenados)
    ensures multiset(rep.ordenados) == multiset(resultados)
    ensures rep.totalLinhas == SumLines(resultados)
    ensures rep.totalPalavras == SumWords(resultados)
  {
    var ordenados := SortByName(resultados);
    SumsPermutation(ordenados, resultados);
    Report(ordenados, SumLines(ordenados), SumWords(ordenados))
  }

  /** Two arrival orders of the same results of distinctly named files give
      the same report. */
  lemma ConsolidateOrderIndependent(r1: seq<Resultado>, r2: seq<Resultado>)
    requires DistinctNames(r1) && DistinctNames(r2)
    requires multiset(r1) == multiset(r2)
    ensures Consolidate(r1) == Consolidate(r2)
  {
    SortByNameOrderIndependent(r1, r2);
  }
}
