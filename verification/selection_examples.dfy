/** Worked selections, derived from the general theorems about
    `ParseSelecao`: "1,3-5" over six files, and "9" and "9,9" over three
    files (which fall back to every file). Each step works on a few named strings
    rather than one long literal, so that the verifier never has to
    evaluate the whole parse at once. */
module SelectionExamples {
  import opened Wrappers
  import opened Text
  import opened IntParse
  import opened Selection

  /** A one-digit numeral parses to its value. */
  lemma ParseDigit(s: string, k: int)
    requires 0 <= k <= 9 && s == ShowInt(k)
    ensures TryParseInt(s) == Some(k)
  {
    ParseShowInt(k);
  }

  /** A selection without a comma and without surrounding white space is a
      single token. */
  lemma OneToken(p: string)
    requires ',' !in p
    requires p != [] && !IsWhiteSpace(p[0]) && !IsWhiteSpace(p[|p| - 1])
    ensures Tokens(p) == [p]
  {
    SplitNoSep(p, ',');
    TrimKeeps(p);
  }

  /** "p,q" gives the two tokens p and q. */
  lemma TwoTokens(p: string, q: string)
    requires ',' !in p && ',' !in q
    requires p != [] && !IsWhiteSpace(p[0]) && !IsWhiteSpace(p[|p| - 1])
    requires q != [] && !IsWhiteSpace(q[0]) && !IsWhiteSpace(q[|q| - 1])
    ensures Tokens(p + [','] + q) == [p, q]
  {
    SplitAtFirst(p, ',', q);
    SplitNoSep(q, ',');
    TrimKeeps(p);
    TrimKeeps(q);
    assert Split(p + [','] + q, ',') == [p, q];
    assert TrimmedNonEmpty([q]) == [q];
  }

  /** "p-q" with both sides integers in order is the span between them. */
  lemma SpanOf(p: string, q: string, x: int, y: int)
    requires '-' !in p && x <= y
    requires p != [] && !IsWhiteSpace(p[0]) && !IsWhiteSpace(p[|p| - 1])
    requires q != [] && !IsWhiteSpace(q[0]) && !IsWhiteSpace(q[|q| - 1])
    requires TryParseInt(p) == Some(x) && TryParseInt(q) == Some(y)
    ensures Classify(p + "-" + q) == Span(x, y)
  {
    ClassifyRange(p, q);
    TrimKeeps(p);
    TrimKeeps(q);
  }

  lemma TokensOfOneAndThreeToFive(s: string)
    requires s == "1,3-5"
    ensures Tokens(s) == ["1", "3-5"]
  {
    var p, q := "1", "3-5";
    assert s == p + [','] + q;
    TwoTokens(p, q);
  }

  lemma ClassifyOne(t: string)
    requires t == "1"
    ensures Classify(t) == Single(1)
  {
    ParseDigit(t, 1);
  }

  lemma ClassifyThreeToFive(t: string)
    requires t == "3-5"
    ensures Classify(t) == Span(3, 5)
  {
    var p, q := "3", "5";
    assert t == p + "-" + q;
    ParseDigit(p, 3);
    ParseDigit(q, 5);
    SpanOf(p, q, 3, 5);
  }

  lemma ItemsOfOneAndThreeToFive(s: string)
    requires s == "1,3-5"
    ensures Classified(Tokens(s)) == [Item("1", Single(1)), Item("3-5", Span(3, 5))]
  {
    var p, q := "1", "3-5";
    TokensOfOneAndThreeToFive(s);
    ClassifyOne(p);
    ClassifyThreeToFive(q);
    ItemsOfTwo(p, q);
  }

  /** Two tokens are classified one by one. */
  lemma ItemsOfTwo(p: string, q: string)
    ensures Classified([p, q]) == [Item(p, Classify(p)), Item(q, Classify(q))]
  {
    var items := Classified([p, q]);
    assert items[0] == Item(p, Classify(p));
    assert items[1] == Item(q, Classify(q));
  }

  /** The two tokens ask for 1, 3, 4 and 5 and nothing else. */
  lemma RequestedOneAndThreeToFive(items: seq<Item>)
    requires items == [Item("1", Single(1)), Item("3-5", Span(3, 5))]
    ensures forall i :: Requested(items, i) <==> i == 1 || 3 <= i <= 5
  {
    forall i ensures Requested(items, i) <==> i == 1 || 3 <= i <= 5 {
      RequestedCons(items, i);
      RequestedCons(items[1..], i);
      assert items[1..][1..] == [];
    }
  }

  lemma IndicesOneAndThreeToFive(idx: seq<int>, items: seq<Item>, n: nat)
    requires n == 6
    requires forall i :: Requested(items, i) <==> i == 1 || 3 <= i <= 5
    requires forall i :: i in idx <==> 1 <= i <= n && (NoneRequested(items, n) || Requested(items, i))
    requires StrictlyIncreasing(idx)
    ensures idx == [1, 3, 4, 5]
  {
    var expected := [1, 3, 4, 5];
    assert !NoneRequested(items, n) by {
      assert Requested(items, 1);
    }
    forall i ensures i in idx <==> i in expected {
      assert i in expected <==> i == 1 || 3 <= i <= 5;
    }
    AscendingUnique(idx, expected);
  }

  lemma SelectionOfOneAndThreeToFive(sel: Option<string>, arquivos: seq<string>)
    requires !Blank(sel) && |arquivos| == 6
    requires Classified(Tokens(sel.value)) == [Item("1", Single(1)), Item("3-5", Span(3, 5))]
    ensures ParseSelecao(sel, arquivos).indices == [1, 3, 4, 5]
  {
    var items := Classified(Tokens(sel.value));
    RequestedOneAndThreeToFive(items);
    ResolveChoice(items, arquivos);
    IndicesOneAndThreeToFive(ParseSelecao(sel, arquivos).indices, items, 6);
  }

  lemma PickedFiles(r: Resolved, arquivos: seq<string>)
    requires Picks(r, arquivos) && r.indices == [1, 3, 4, 5] && |arquivos| == 6
    ensures r.files == [arquivos[0], arquivos[2], arquivos[3], arquivos[4]]
  {
    assert r.files[0] == arquivos[0];
    assert r.files[1] == arquivos[2];
    assert r.files[2] == arquivos[3];
    assert r.files[3] == arquivos[4];
  }

  /** "1,3-5" over six files picks the first, third, fourth and fifth, in
      that order. */
  lemma SelectionExample(s: string, arquivos: seq<string>)
    requires s == "1,3-5" && |arquivos| == 6
    ensures ParseSelecao(Some(s), arquivos).files == [arquivos[0], arquivos[2], arquivos[3], arquivos[4]]
  {
    ItemsOfOneAndThreeToFive(s);
    assert !IsWhiteSpace(s[0]);
    SelectionOfOneAndThreeToFive(Some(s), arquivos);
    PickedFiles(ParseSelecao(Some(s), arquivos), arquivos);
  }

  lemma ClassifyNine(t: string)
    requires t == "9"
    ensures Classify(t) == Single(9)
  {
    ParseDigit(t, 9);
  }

  lemma ItemsOfNine(s: string)
    requires s == "9"
    ensures Classified(Tokens(s)) == [Item("9", Single(9))]
  {
    OneToken(s);
    ClassifyNine(s);
  }

  /** A single out-of-range index prints one line. */
  lemma PrintedOfOutOfRange(t: string, i: int, n: nat)
    requires !(1 <= i <= n)
    ensures Printed(Item(t, Single(i)), n) == [OutOfRange(i)]
  {
    var idxs := Candidates(Single(i));
    assert idxs == [i];
    assert idxs[1..] == [];
    assert Rejected(idxs, n) == [OutOfRange(i)] + Rejected(idxs[1..], n);
  }

  /** The lines of one token, or of two tokens in turn. */
  lemma PrintedAllOfTwo(a: Item, b: Item, n: nat)
    ensures PrintedAll([b], n) == Printed(b, n)
    ensures PrintedAll([a, b], n) == Printed(a, n) + Printed(b, n)
  {
    assert [b][1..] == [];
    assert PrintedAll([b], n) == Printed(b, n) + PrintedAll([], n);
    assert [a, b][1..] == [b];
  }

  /** Tokens that all name the one index `i`, outside 1..n, request
      nothing in range. */
  lemma OnlyIndexRequested(items: seq<Item>, t: string, i: int, n: nat)
    requires !(1 <= i <= n)
    requires items == [Item(t, Single(i))] || items == [Item(t, Single(i)), Item(t, Single(i))]
    ensures NoneRequested(items, n)
  {
    forall j | 1 <= j <= n ensures !Requested(items, j) {
      RequestedCons(items, j);
      if |items| == 2 {
        RequestedCons(items[1..], j);
        assert items[1..][1..] == [];
      } else {
        assert items[1..] == [];
      }
    }
  }

  /** A single token naming an out-of-range index: every file is taken,
      after that index's line. */
  lemma ResolveSingle(items: seq<Item>, arquivos: seq<string>, t: string, i: int)
    requires !(1 <= i <= |arquivos|) && items == [Item(t, Single(i))]
    ensures Resolve(items, arquivos).files == arquivos
    ensures Resolve(items, arquivos).diagnostics == [OutOfRange(i), NoValidIndex]
  {
    var n := |arquivos|;
    OnlyIndexRequested(items, t, i, n);
    ResolveChoice(items, arquivos);
    ResolveDiagnostics(items, arquivos);
    assert Resolve(items, arquivos).diagnostics == PrintedAll(items, n) + [NoValidIndex];
    PrintedOfOutOfRange(t, i, n);
    PrintedAllOfTwo(items[0], items[0], n);
  }

  /** The same out-of-range index named twice: its line twice, then the
      fallback notice. */
  lemma ResolveRepeated(items: seq<Item>, arquivos: seq<string>, t: string, i: int)
    requires !(1 <= i <= |arquivos|) && items == [Item(t, Single(i)), Item(t, Single(i))]
    ensures Resolve(items, arquivos).diagnostics == [OutOfRange(i), OutOfRange(i), NoValidIndex]
  {
    var n := |arquivos|;
    OnlyIndexRequested(items, t, i, n);
    ResolveDiagnostics(items, arquivos);
    assert Resolve(items, arquivos).diagnostics == PrintedAll(items, n) + [NoValidIndex];
    PrintedOfRepeated(items, t, i, n);
  }

  lemma PrintedOfRepeated(items: seq<Item>, t: string, i: int, n: nat)
    requires !(1 <= i <= n) && items == [Item(t, Single(i)), Item(t, Single(i))]
    ensures PrintedAll(items, n) == [OutOfRange(i), OutOfRange(i)]
  {
    PrintedOfOutOfRange(t, i, n);
    PrintedAllOfTwo(items[0], items[1], n);
  }

  /** A selection whose only token is an out-of-range index falls back to
      every file, after printing that index's line. */
  lemma FallbackOfSingle(sel: Option<string>, arquivos: seq<string>, t: string, i: int)
    requires !Blank(sel) && !(1 <= i <= |arquivos|)
    requires Classified(Tokens(sel.value)) == [Item(t, Single(i))]
    ensures ParseSelecao(sel, arquivos).files == arquivos
    ensures ParseSelecao(sel, arquivos).diagnostics == [OutOfRange(i), NoValidIndex]
  {
    ResolveSingle(Classified(Tokens(sel.value)), arquivos, t, i);
  }

  /** The same out-of-range index given twice prints its line twice, then
      the fallback notice. */
  lemma FallbackOfRepeated(sel: Option<string>, arquivos: seq<string>, t: string, i: int)
    requires !Blank(sel) && !(1 <= i <= |arquivos|)
    requires Classified(Tokens(sel.value)) == [Item(t, Single(i)), Item(t, Single(i))]
    ensures ParseSelecao(sel, arquivos).diagnostics == [OutOfRange(i), OutOfRange(i), NoValidIndex]
  {
    ResolveRepeated(Classified(Tokens(sel.value)), arquivos, t, i);
  }

  /** "9" over three files names no file, so every file is processed; the
      out-of-range line is printed, then the fallback notice. */
  lemma FallbackExample(s: string, arquivos: seq<string>)
    requires s == "9" && |arquivos| == 3
    ensures ParseSelecao(Some(s), arquivos).files == arquivos
    ensures ParseSelecao(Some(s), arquivos).diagnostics == [OutOfRange(9), NoValidIndex]
  {
    ItemsOfNine(s);
    assert !IsWhiteSpace(s[0]);
    FallbackOfSingle(Some(s), arquivos, s, 9);
  }

  lemma ItemsOfNineTwice(s: string)
    requires s == "9,9"
    ensures Classified(Tokens(s)) == [Item("9", Single(9)), Item("9", Single(9))]
  {
    var p := "9";
    assert s == p + [','] + p;
    TwoTokens(p, p);
    ClassifyNine(p);
    ItemsOfTwo(p, p);
  }

  /** "9,9" over three files prints the out-of-range line once per
      occurrence, then the fallback notice. */
  lemma RepeatedIndexExample(s: string, arquivos: seq<string>)
    requires s == "9,9" && |arquivos| == 3
    ensures ParseSelecao(Some(s), arquivos).diagnostics == [OutOfRange(9), OutOfRange(9), NoValidIndex]
  {
    ItemsOfNineTwice(s);
    assert !IsWhiteSpace(s[0]);
    FallbackOfRepeated(Some(s), arquivos, "9", 9);
  }
}
