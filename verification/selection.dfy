/** `ParseSelecao` and its local `TryAddIndex`: turns a selection such as
    "1,3-5" into an ascending, duplicate-free subset of the file list, with
    the diagnostics the program prints along the way. */
module Selection {
  import opened Wrappers
  import opened Text
  import opened IntParse

  /** The messages printed while resolving a selection. */
  datatype Diagnostic =
    | InvalidRange(token: string)   // a token with '-' whose two sides are not both integers
    | InvalidIndex(token: string)   // a token without '-' that is not an integer
    | OutOfRange(index: int)        // an index outside 1..N given to TryAddIndex
    | NoValidIndex                  // nothing valid was selected, so every file is taken

  /** How one token is read: one index, an inclusive range with its bounds
      already put in order, or a token that is ignored. */
  datatype Token = Single(index: int) | Span(lo: int, hi: int) | BadRange | BadIndex

  /** A token together with its classification. */
  datatype Item = Item(text: string, kind: Token)

  /** The outcome of a resolution: the chosen 1-based indices, the files at
      those positions, and the diagnostics in the order they are printed. */
  datatype Resolved = Resolved(indices: seq<int>, files: seq<string>, diagnostics: seq<Diagnostic>)

  /** What the loop has gathered so far: the `SortedSet` of indices and the
      diagnostics printed. */
  datatype Acc = Acc(chosen: set<int>, diagnostics: seq<Diagnostic>)

  predicate StrictlyIncreasing(s: seq<int>) {
    forall a, b :: 0 <= a < b < |s| ==> s[a] < s[b]
  }

  /** A non-empty text with no white space at either end: what trimming
      a piece leaves when it keeps it. */
  predicate IsToken(t: string) {
    t != [] && !IsWhiteSpace(t[0]) && !IsWhiteSpace(t[|t| - 1])
  }

  /** The pieces trimmed, with those left empty dropped. */
  function TrimmedNonEmpty(parts: seq<string>): (ts: seq<string>)
    ensures |ts| <= |parts|
    ensures forall j :: 0 <= j < |ts| ==> IsToken(ts[j])
  {
    if |parts| == 0 then []
    else
      var t := Trim(parts[0]);
      var head := if t == [] then [] else [t];
      var rest := TrimmedNonEmpty(parts[1..]);
      AllTokens(head, rest);
      head + rest
  }

  lemma AllTokens(a: seq<string>, b: seq<string>)
    requires forall j :: 0 <= j < |a| ==> IsToken(a[j])
    requires forall j :: 0 <= j < |b| ==> IsToken(b[j])
    ensures forall j :: 0 <= j < |a + b| ==> IsToken((a + b)[j])
  {
  }

  /** `selecao.Split(',', RemoveEmptyEntries | TrimEntries)`: every token
      is non-empty and trimmed. `TokensWithoutComma` and `TokensAtComma`
      determine the tokens of every text. */
  function Tokens(selecao: string): (toks: seq<string>)
    ensures forall j :: 0 <= j < |toks| ==> IsToken(toks[j])
  {
    TrimmedNonEmpty(Split(selecao, ','))
  }

  /** Every token is non-empty and already trimmed. */
  lemma TokensTrimmed(selecao: string)
    ensures forall j :: 0 <= j < |Tokens(selecao)| ==>
      Tokens(selecao)[j] != [] && Trim(Tokens(selecao)[j]) == Tokens(selecao)[j]
  {
    TokensKeptByTrim(Tokens(selecao));
  }

  lemma TokensKeptByTrim(toks: seq<string>)
    requires forall j :: 0 <= j < |toks| ==> IsToken(toks[j])
    ensures forall j :: 0 <= j < |toks| ==> toks[j] != [] && Trim(toks[j]) == toks[j]
  {
    forall j | 0 <= j < |toks| ensures Trim(toks[j]) == toks[j] {
      assert IsToken(toks[j]);
      TrimKeeps(toks[j]);
    }
  }

  /** A text without a comma is one token, its trimmed self, unless it is
      blank, in which case it is dropped. */
  lemma TokensWithoutComma(p: string)
    requires ',' !in p
    ensures Tokens(p) == if AllWhiteSpace(p) then [] else [Trim(p)]
  {
    SplitNoSep(p, ',');
    TrimmedCons(p, []);
  }

  /** At a comma the text before it gives its trimmed self as a token,
      unless it is blank, and the rest is split on. */
  lemma TokensAtComma(p: string, q: string)
    requires ',' !in p
    ensures Tokens(p + [','] + q) == (if AllWhiteSpace(p) then [] else [Trim(p)]) + Tokens(q)
  {
    SplitAtFirst(p, ',', q);
    TrimmedCons(p, Split(q, ','));
  }

  lemma TrimmedCons(p: string, rest: seq<string>)
    ensures TrimmedNonEmpty([p] + rest) == (if AllWhiteSpace(p) then [] else [Trim(p)]) + TrimmedNonEmpty(rest)
  {
    assert ([p] + rest)[0] == p;
    assert ([p] + rest)[1..] == rest;
  }

  /** A range token whose two sides parsed as `a` and `b`: the bounds in
      order, or an invalid range when either side is not an integer. */
  function RangeOf(a: Option<int>, b: Option<int>): (k: Token)
    ensures k.Span? || k.BadRange?
  {
    match (a, b)
    case (Some(x), Some(y)) => if x > y then Span(y, x) else Span(x, y)
    case _ => BadRange
  }

  /** The classification of one token. A token holding '-' is split at its
      first '-' (`Split('-', 2, TrimEntries)` always yields two parts here)
      and is a range when both trimmed sides parse as integers, the bounds
      being swapped when given in decreasing order. Note that the second
      side may itself start with '-': "1--3" is the range -3..1. */
  function Classify(token: string): (k: Token)
    ensures k.Span? ==> k.lo <= k.hi
    ensures '-' in token <==> k.Span? || k.BadRange?
    ensures '-' !in token ==> (k.Single? <==> TryParseInt(token).Some?)
    ensures k.Single? ==> TryParseInt(token) == Some(k.index)
  {
    if '-' in token then
      var d := FirstIndex(token, '-');
      RangeOf(TryParseInt(Trim(token[..d])), TryParseInt(Trim(token[d + 1..])))
    else
      match TryParseInt(token)
      case Some(i) => Single(i)
      case None => BadIndex
  }

  /** The indices a token names. */
  predicate Covers(k: Token, i: int) {
    match k
    case Single(j) => i == j
    case Span(lo, hi) => lo <= i <= hi
    case _ => false
  }

  /** The consecutive integers lo, lo + 1, ..., hi (empty when lo > hi). */
  function Interval(lo: int, hi: int): (r: seq<int>)
    ensures forall i :: i in r <==> lo <= i <= hi
    ensures forall k :: 0 <= k < |r| ==> r[k] == lo + k
    ensures |r| == if lo <= hi then hi - lo + 1 else 0
    ensures StrictlyIncreasing(r)
    decreases hi - lo
  {
    if lo > hi then []
    else
      var rest := Interval(lo + 1, hi);
      assert forall k :: 0 <= k < |rest| ==> lo < rest[k] by {
        forall k | 0 <= k < |rest| ensures lo < rest[k] {
          assert rest[k] in rest;
        }
      }
      [lo] + rest
  }

  /** The indices `TryAddIndex` is called with for a token, in call order. */
  function Candidates(k: Token): (r: seq<int>)
    ensures forall i :: i in r <==> Covers(k, i)
  {
    match k
    case Single(i) => [i]
    case Span(lo, hi) => Interval(lo, hi)
    case _ => []
  }

  /** The lines `TryAddIndex` prints for a run of indices, in call order:
      `OutOfRange(i)` for each entry `i` outside 1..n, as often as it occurs,
      and nothing for an entry it accepts. */
  function Rejected(idxs: seq<int>, n: nat): (ds: seq<Diagnostic>)
    ensures forall d :: d in ds <==> d.OutOfRange? && d.index in idxs && !(1 <= d.index <= n)
    ensures forall i :: !(1 <= i <= n) ==> multiset(ds)[OutOfRange(i)] == multiset(idxs)[i]
    decreases |idxs|
  {
    if |idxs| == 0 then []
    else
      var rest := Rejected(idxs[1..], n);
      assert idxs == [idxs[0]] + idxs[1..];
      assert forall i :: i in idxs <==> i == idxs[0] || i in idxs[1..];
      (if 1 <= idxs[0] <= n then [] else [OutOfRange(idxs[0])]) + rest
  }

  /** `TryAddIndex`: an index in 1..n joins the set, any other is reported. */
  function TryAddIndex(acc: Acc, idx: int, n: nat): (r: Acc)
    ensures forall i :: i in r.chosen <==> i in acc.chosen || (i == idx && 1 <= idx <= n)
    ensures r.diagnostics == acc.diagnostics + Rejected([idx], n)
  {
    assert [idx][1..] == [];
    if 1 <= idx <= n then Acc(acc.chosen + {idx}, acc.diagnostics)
    else Acc(acc.chosen, acc.diagnostics + [OutOfRange(idx)])
  }

  /** `TryAddIndex` applied to each index in turn: the in-range ones join the
      set, and the out-of-range ones are reported, one line per occurrence
      and in call order, after what was printed before. */
  function AddAll(acc: Acc, idxs: seq<int>, n: nat): (r: Acc)
    ensures forall i :: i in r.chosen <==> i in acc.chosen || (1 <= i <= n && i in idxs)
    ensures r.diagnostics == acc.diagnostics + Rejected(idxs, n)
    decreases |idxs|
  {
    if |idxs| == 0 then acc
    else
      var mid := TryAddIndex(acc, idxs[0], n);
      var r := AddAll(mid, idxs[1..], n);
      var here: seq<Diagnostic> := if 1 <= idxs[0] <= n then [] else [OutOfRange(idxs[0])];
      assert forall i :: i in idxs <==> i == idxs[0] || i in idxs[1..];
      calc {
        r.diagnostics;
        mid.diagnostics + Rejected(idxs[1..], n);
        { assert mid.diagnostics == acc.diagnostics + here; }
        (acc.diagnostics + here) + Rejected(idxs[1..], n);
        { AppendAssoc(acc.diagnostics, here, Rejected(idxs[1..], n)); }
        acc.diagnostics + (here + Rejected(idxs[1..], n));
        { assert Rejected(idxs, n) == here + Rejected(idxs[1..], n); }
        acc.diagnostics + Rejected(idxs, n);
      }
      r
  }

  /** Whether reading a token prints diagnostic `d`. */
  predicate Reports(it: Item, d: Diagnostic, n: nat) {
    match d
    case InvalidRange(u) => u == it.text && it.kind.BadRange?
    case InvalidIndex(u) => u == it.text && it.kind.BadIndex?
    case OutOfRange(i) => Covers(it.kind, i) && !(1 <= i <= n)
    case NoValidIndex => false
  }

  /** The lines printed while reading one token, in printing order: the
      notice for an ignored token, or `TryAddIndex`'s for each index it
      names. */
  function Printed(it: Item, n: nat): (ds: seq<Diagnostic>)
    ensures forall d :: d in ds <==> Reports(it, d, n)
  {
    match it.kind
    case BadRange => [InvalidRange(it.text)]
    case BadIndex => [InvalidIndex(it.text)]
    case _ => Rejected(Candidates(it.kind), n)
  }

  /** One pass of the `foreach`: an ignored token is reported, any other
      feeds its indices to `TryAddIndex`. */
  function Step(acc: Acc, it: Item, n: nat): (r: Acc)
    ensures forall i :: i in r.chosen <==> i in acc.chosen || (1 <= i <= n && Covers(it.kind, i))
    ensures r.diagnostics == acc.diagnostics + Printed(it, n)
    ensures forall d :: d in r.diagnostics <==> d in acc.diagnostics || Reports(it, d, n)
  {
    match it.kind
    case BadRange => Acc(acc.chosen, acc.diagnostics + [InvalidRange(it.text)])
    case BadIndex => Acc(acc.chosen, acc.diagnostics + [InvalidIndex(it.text)])
    case _ => AddAll(acc, Candidates(it.kind), n)
  }

  /** Each token paired with its classification. */
  function Classified(toks: seq<string>): (items: seq<Item>)
    ensures |items| == |toks|
  {
    seq(|toks|, j requires 0 <= j < |toks| => Item(toks[j], Classify(toks[j])))
  }

  /** Some token of the selection names index `i`. */
  ghost predicate Requested(items: seq<Item>, i: int) {
    exists it :: it in items && Covers(it.kind, i)
  }

  /** Some token of the selection prints diagnostic `d`. */
  ghost predicate Reported(items: seq<Item>, d: Diagnostic, n: nat) {
    exists it :: it in items && Reports(it, d, n)
  }

  lemma RequestedCons(items: seq<Item>, i: int)
    requires |items| > 0
    ensures Requested(items, i) <==> Covers(items[0].kind, i) || Requested(items[1..], i)
  {
    if Requested(items, i) {
      var it :| it in items && Covers(it.kind, i);
      if it != items[0] {
        assert it in items[1..];
      }
    }
    if Covers(items[0].kind, i) {
      assert items[0] in items;
    }
    if Requested(items[1..], i) {
      var it :| it in items[1..] && Covers(it.kind, i);
      assert it in items;
    }
  }

  lemma ReportedCons(items: seq<Item>, d: Diagnostic, n: nat)
    requires |items| > 0
    ensures Reported(items, d, n) <==> Reports(items[0], d, n) || Reported(items[1..], d, n)
  {
    if Reported(items, d, n) {
      var it :| it in items && Reports(it, d, n);
      if it != items[0] {
        assert it in items[1..];
      }
    }
    if Reports(items[0], d, n) {
      assert items[0] in items;
    }
    if Reported(items[1..], d, n) {
      var it :| it in items[1..] && Reports(it, d, n);
      assert it in items;
    }
  }

  /** The lines printed by the whole `foreach`, token after token. Each is
      one some token calls for; the fallback notice is never among them. */
  function PrintedAll(items: seq<Item>, n: nat): (ds: seq<Diagnostic>)
    ensures forall d :: d in ds <==> Reported(items, d, n)
    decreases |items|
  {
    if |items| == 0 then []
    else
      var rest := PrintedAll(items[1..], n);
      assert forall d :: Reported(items, d, n) <==> Reports(items[0], d, n) || Reported(items[1..], d, n) by {
        forall d ensures Reported(items, d, n) <==> Reports(items[0], d, n) || Reported(items[1..], d, n) {
          ReportedCons(items, d, n);
        }
      }
      Printed(items[0], n) + rest
  }

  /** The whole `foreach`: a bad token or an out-of-range index is reported
      and skipped, and the loop goes on. The set ends up holding exactly the
      in-range indices some token names, and the lines printed are those of
      each token in turn, after the ones printed before. */
  function Fold(acc: Acc, items: seq<Item>, n: nat): (r: Acc)
    ensures forall i :: i in r.chosen <==> i in acc.chosen || (1 <= i <= n && Requested(items, i))
    ensures r.diagnostics == acc.diagnostics + PrintedAll(items, n)
    decreases |items|
  {
    if |items| == 0 then acc
    else
      var mid := Step(acc, items[0], n);
      var r := Fold(mid, items[1..], n);
      assert forall i :: Requested(items, i) <==> Covers(items[0].kind, i) || Requested(items[1..], i) by {
        forall i ensures Requested(items, i) <==> Covers(items[0].kind, i) || Requested(items[1..], i) {
          RequestedCons(items, i);
        }
      }
      calc {
        r.diagnostics;
        mid.diagnostics + PrintedAll(items[1..], n);
        (acc.diagnostics + Printed(items[0], n)) + PrintedAll(items[1..], n);
        { AppendAssoc(acc.diagnostics, Printed(items[0], n), PrintedAll(items[1..], n)); }
        acc.diagnostics + (Printed(items[0], n) + PrintedAll(items[1..], n));
        { assert PrintedAll(items, n) == Printed(items[0], n) + PrintedAll(items[1..], n); }
        acc.diagnostics + PrintedAll(items, n);
      }
      r
  }

  /** The members of `S` between `lo` and `hi`, in ascending order: the
      enumeration order of a `SortedSet`. */
  function Ascending(S: set<int>, lo: int, hi: int): (r: seq<int>)
    ensures forall i :: i in r <==> lo <= i <= hi && i in S
    ensures StrictlyIncreasing(r)
    decreases hi - lo
  {
    if lo > hi then []
    else
      var rest := Ascending(S, lo + 1, hi);
      assert forall k :: 0 <= k < |rest| ==> lo < rest[k] by {
        forall k | 0 <= k < |rest| ensures lo < rest[k] {
          assert rest[k] in rest;
        }
      }
      (if lo in S then [lo] else []) + rest
  }

  /** No index in 1..n is named by any token. */
  ghost predicate NoneRequested(items: seq<Item>, n: nat) {
    forall i :: 1 <= i <= n ==> !Requested(items, i)
  }

  /** `r` lists 1-based positions of `arquivos` in strictly ascending
      order (hence without repetition), each with the file at that
      position. */
  predicate Picks(r: Resolved, arquivos: seq<string>) {
    && |r.files| == |r.indices|
    && (forall k :: 0 <= k < |r.indices| ==>
          1 <= r.indices[k] <= |arquivos| && r.files[k] == arquivos[r.indices[k] - 1])
    && StrictlyIncreasing(r.indices)
  }

  /** The files at the given 1-based positions, in that order. */
  function Pick(arquivos: seq<string>, idxs: seq<int>): (r: seq<string>)
    requires forall k :: 0 <= k < |idxs| ==> 1 <= idxs[k] <= |arquivos|
    ensures |r| == |idxs|
    ensures forall k :: 0 <= k < |idxs| ==> r[k] == arquivos[idxs[k] - 1]
  {
    seq(|idxs|, k requires 0 <= k < |idxs| => arquivos[idxs[k] - 1])
  }

  /** Resolution of a non-blank selection already split into tokens: the
      positions gathered by the loop, ascending, or every file when there
      is none. */
  function Resolve(items: seq<Item>, arquivos: seq<string>): (r: Resolved)
    ensures Picks(r, arquivos)
  {
    var n := |arquivos|;
    var acc := Fold(Acc({}, []), items, n);
    // Every member of the set lies in 1..n, so enumerating 1..n lists all
    // of it, and the list is empty exactly when the set is.
    var idxs := Ascending(acc.chosen, 1, n);
    if |idxs| == 0 then
      PicksAll(arquivos, Interval(1, n), acc.diagnostics + [NoValidIndex]);
      Resolved(Interval(1, n), arquivos, acc.diagnostics + [NoValidIndex])
    else
      PicksThese(arquivos, idxs, acc.diagnostics);
      Resolved(idxs, Pick(arquivos, idxs), acc.diagnostics)
  }

  /** Every file, in its original order. */
  lemma PicksAll(arquivos: seq<string>, all: seq<int>, d: seq<Diagnostic>)
    requires |all| == |arquivos|
    requires forall k :: 0 <= k < |all| ==> all[k] == k + 1
    ensures Picks(Resolved(all, arquivos, d), arquivos)
  {
  }

  /** The files at the ascending positions `idxs`. */
  lemma PicksThese(arquivos: seq<string>, idxs: seq<int>, d: seq<Diagnostic>)
    requires StrictlyIncreasing(idxs)
    requires forall i :: i in idxs ==> 1 <= i <= |arquivos|
    ensures forall k :: 0 <= k < |idxs| ==> 1 <= idxs[k] <= |arquivos|
    ensures Picks(Resolved(idxs, Pick(arquivos, idxs), d), arquivos)
  {
    forall k | 0 <= k < |idxs| ensures 1 <= idxs[k] <= |arquivos| {
      assert idxs[k] in idxs;
    }
  }

  /** The loop's set is empty exactly when no token names an in-range
      index. */
  lemma FallbackIffNoneRequested(items: seq<Item>, n: nat)
    ensures var acc := Fold(Acc({}, []), items, n);
      |Ascending(acc.chosen, 1, n)| == 0 <==> NoneRequested(items, n)
  {
    var acc := Fold(Acc({}, []), items, n);
    var idxs := Ascending(acc.chosen, 1, n);
    if |idxs| == 0 {
      forall i | 1 <= i <= n ensures !Requested(items, i) {
        assert i !in idxs;
      }
    } else {
      assert idxs[0] in idxs;
      assert Requested(items, idxs[0]);
    }
  }

  /** The positions resolved are exactly the in-range indices the tokens
      name, or every position when they name none. */
  lemma ResolveChoice(items: seq<Item>, arquivos: seq<string>)
    ensures var r := Resolve(items, arquivos);
      && (forall i :: i in r.indices <==>
            1 <= i <= |arquivos| && (NoneRequested(items, |arquivos|) || Requested(items, i)))
      && (NoneRequested(items, |arquivos|) ==> r.files == arquivos)
  {
    FallbackIffNoneRequested(items, |arquivos|);
  }

  /** The lines printed are those of the tokens in turn, followed by the
      fallback notice exactly when no token names an in-range index. */
  lemma ResolveDiagnostics(items: seq<Item>, arquivos: seq<string>)
    ensures Resolve(items, arquivos).diagnostics ==
              PrintedAll(items, |arquivos|) + (if NoneRequested(items, |arquivos|) then [NoValidIndex] else [])
  {
    FallbackIffNoneRequested(items, |arquivos|);
  }

  /** `string.IsNullOrWhiteSpace`: a selection that is missing (`null`),
      empty, or all white space. */
  predicate Blank(selecao: Option<string>): (b: bool)
    ensures b <==> selecao.None? || Trim(selecao.value) == []
  {
    selecao.None? || AllWhiteSpace(selecao.value)
  }

  /** A blank text has no tokens: it holds no comma, being all white
      space, and so is one piece that trims to nothing. */
  lemma BlankHasNoTokens(s: string)
    requires AllWhiteSpace(s)
    ensures Tokens(s) == []
  {
    forall i | 0 <= i < |s| ensures s[i] != ',' {
      assert IsWhiteSpace(s[i]);
    }
    TokensWithoutComma(s);
  }

  /** Index `i` is asked for by a selection that is not blank. */
  ghost predicate Chosen(selecao: Option<string>, i: int) {
    !Blank(selecao) && Requested(Classified(Tokens(selecao.value)), i)
  }

  /** No index in 1..n is asked for: the selection is missing, blank, or
      names nothing valid. */
  ghost predicate NothingChosen(selecao: Option<string>, n: nat) {
    forall i :: 1 <= i <= n ==> !Chosen(selecao, i)
  }

  /** `ParseSelecao`: the chosen positions in strictly ascending order
      (hence without repetition), each in 1..N and mapped to its file. A
      missing or blank selection takes every file in its original order and
      prints nothing. */
  function ParseSelecao(selecao: Option<string>, arquivos: seq<string>): (r: Resolved)
    ensures Picks(r, arquivos)
    ensures Blank(selecao) ==> r.files == arquivos && r.diagnostics == []
  {
    if Blank(selecao) then
      PicksAll(arquivos, Interval(1, |arquivos|), []);
      Resolved(Interval(1, |arquivos|), arquivos, [])
    else
      Resolve(Classified(Tokens(selecao.value)), arquivos)
  }

  /** Which files are selected: exactly the in-range indices the selection
      asks for, or, when it asks for none of them, every file in its
      original order. */
  lemma ParseSelecaoChoice(selecao: Option<string>, arquivos: seq<string>)
    ensures var r := ParseSelecao(selecao, arquivos);
      && (forall i :: i in r.indices <==>
            1 <= i <= |arquivos| && (NothingChosen(selecao, |arquivos|) || Chosen(selecao, i)))
      && (NothingChosen(selecao, |arquivos|) ==> r.files == arquivos)
  {
    if !Blank(selecao) {
      var items := Classified(Tokens(selecao.value));
      assert forall i :: Chosen(selecao, i) <==> Requested(items, i);
      ResolveChoice(items, arquivos);
    }
  }

  /** What is printed, in order: the lines of each token in turn (one
      notice per ignored token, one line per out-of-range index each time it
      is named), then the fallback notice, exactly once and last, when
      nothing valid was chosen; and nothing else. */
  lemma ParseSelecaoDiagnostics(selecao: Option<string>, arquivos: seq<string>)
    requires !Blank(selecao)
    ensures var items := Classified(Tokens(selecao.value));
      ParseSelecao(selecao, arquivos).diagnostics ==
        PrintedAll(items, |arquivos|) + (if NothingChosen(selecao, |arquivos|) then [NoValidIndex] else [])
    ensures NoValidIndex !in PrintedAll(Classified(Tokens(selecao.value)), |arquivos|)
    ensures forall d :: d in ParseSelecao(selecao, arquivos).diagnostics <==>
              (d == NoValidIndex && NothingChosen(selecao, |arquivos|))
              || Reported(Classified(Tokens(selecao.value)), d, |arquivos|)
  {
    var items := Classified(Tokens(selecao.value));
    var n := |arquivos|;
    assert forall i :: Chosen(selecao, i) <==> Requested(items, i);
    assert NothingChosen(selecao, n) == NoneRequested(items, n);
    ResolveDiagnostics(items, arquivos);
    var printed := PrintedAll(items, n);
    assert ParseSelecao(selecao, arquivos).diagnostics == printed + (if NoneRequested(items, n) then [NoValidIndex] else []);
    NeverPrintsFallback(items, n);
  }

  /** No token prints the fallback notice. */
  lemma NeverPrintsFallback(items: seq<Item>, n: nat)
    ensures NoValidIndex !in PrintedAll(items, n)
  {
    assert forall it :: it in items ==> !Reports(it, NoValidIndex, n);
  }

  lemma HeadIsMember(s: seq<int>)
    requires |s| > 0
    ensures s[0] in s
  {
  }

  /** Two strictly increasing sequences with the same members are equal. */
  lemma {:induction false} AscendingUnique(a: seq<int>, b: seq<int>)
    requires StrictlyIncreasing(a) && StrictlyIncreasing(b)
    requires forall i :: i in a <==> i in b
    ensures a == b
  {
    if |a| > 0 && |b| > 0 {
      AscendingHeads(a, b);
      AscendingTails(a, b);
      AscendingUnique(a[1..], b[1..]);
      assert a == [a[0]] + a[1..] && b == [b[0]] + b[1..];
    } else {
      if |a| > 0 {
        HeadIsMember(a);
        assert false;
      }
      if |b| > 0 {
        HeadIsMember(b);
        assert false;
      }
    }
  }

  /** The least members agree. */
  lemma AscendingHeads(a: seq<int>, b: seq<int>)
    requires StrictlyIncreasing(a) && StrictlyIncreasing(b) && |a| > 0 && |b| > 0
    requires forall i :: i in a <==> i in b
    ensures a[0] == b[0]
  {
    assert a[0] in b && b[0] in a;
    var ka :| 0 <= ka < |a| && a[ka] == b[0];
    var kb :| 0 <= kb < |b| && b[kb] == a[0];
    assert a[0] <= a[ka] && b[0] <= b[kb];
  }

  /** Once the common least member is dropped, the rest agree too. */
  lemma AscendingTails(a: seq<int>, b: seq<int>)
    requires StrictlyIncreasing(a) && StrictlyIncreasing(b) && |a| > 0 && |b| > 0
    requires forall i :: i in a <==> i in b
    requires a[0] == b[0]
    ensures StrictlyIncreasing(a[1..]) && StrictlyIncreasing(b[1..])
    ensures forall i :: i in a[1..] <==> i in b[1..]
  {
    forall i ensures i in a[1..] <==> i in b[1..] {
      if i in a[1..] {
        var k :| 0 <= k < |a[1..]| && a[1..][k] == i;
        assert a[k + 1] == i && a[0] < i;
        assert i in b;
      }
      if i in b[1..] {
        var k :| 0 <= k < |b[1..]| && b[1..][k] == i;
        assert b[k + 1] == i && b[0] < i;
        assert i in a;
      }
    }
  }

  /** The result depends only on which indices are asked for, not on how:
      "5,1", "1,5,5" and "1-1,5" select the same files, in the same order. */
  lemma SameChoiceSameFiles(s1: Option<string>, s2: Option<string>, arquivos: seq<string>)
    requires forall i :: 1 <= i <= |arquivos| ==> (Chosen(s1, i) <==> Chosen(s2, i))
    ensures ParseSelecao(s1, arquivos).indices == ParseSelecao(s2, arquivos).indices
    ensures ParseSelecao(s1, arquivos).files == ParseSelecao(s2, arquivos).files
  {
    SameChoiceSamePositions(s1, s2, arquivos);
    SameResolution(ParseSelecao(s1, arquivos), ParseSelecao(s2, arquivos), arquivos);
  }

  /** Two resolutions listing the same indices in ascending order, each
      index mapped to its file, are the same. */
  lemma SameResolution(r1: Resolved, r2: Resolved, arquivos: seq<string>)
    requires Picks(r1, arquivos) && Picks(r2, arquivos)
    requires forall i :: i in r1.indices <==> i in r2.indices
    ensures r1.indices == r2.indices && r1.files == r2.files
  {
    AscendingUnique(r1.indices, r2.indices);
  }

  lemma SameChoiceSamePositions(s1: Option<string>, s2: Option<string>, arquivos: seq<string>)
    requires forall i :: 1 <= i <= |arquivos| ==> (Chosen(s1, i) <==> Chosen(s2, i))
    ensures forall i :: i in ParseSelecao(s1, arquivos).indices <==> i in ParseSelecao(s2, arquivos).indices
  {
    var n := |arquivos|;
    var r1, r2 := ParseSelecao(s1, arquivos), ParseSelecao(s2, arquivos);
    ParseSelecaoChoice(s1, arquivos);
    ParseSelecaoChoice(s2, arquivos);
    SameNothingChosen(s1, s2, n);
    SameByChoice(r1.indices, r2.indices, n, NothingChosen(s1, n), NothingChosen(s2, n),
      i => Chosen(s1, i), i => Chosen(s2, i));
  }

  /** The membership argument behind `SameChoiceSamePositions`, stated over
      an arbitrary choice so that it is checked once, away from the parser. */
  lemma SameByChoice(x1: seq<int>, x2: seq<int>, n: nat, none1: bool, none2: bool,
                     c1: int -> bool, c2: int -> bool)
    requires forall i :: i in x1 <==> 1 <= i <= n && (none1 || c1(i))
    requires forall i :: i in x2 <==> 1 <= i <= n && (none2 || c2(i))
    requires forall i :: 1 <= i <= n ==> (c1(i) <==> c2(i))
    requires none1 <==> none2
    ensures forall i :: i in x1 <==> i in x2
  {
  }

  /** Selections asking for the same indices in 1..n agree on whether they
      ask for none of them. */
  lemma SameNothingChosen(s1: Option<string>, s2: Option<string>, n: nat)
    requires forall i :: 1 <= i <= n ==> (Chosen(s1, i) <==> Chosen(s2, i))
    ensures NothingChosen(s1, n) <==> NothingChosen(s2, n)
  {
  }

  /** A token "p-q" whose left side has no '-' is read as the range
      between the integers its two trimmed sides denote. */
  lemma ClassifyRange(p: string, q: string)
    requires '-' !in p
    ensures Classify(p + "-" + q) == RangeOf(TryParseInt(Trim(p)), TryParseInt(Trim(q)))
  {
    FirstDashAt(p, q);
  }

  /** A range may be written either way round: "a-b" and "b-a" are read
      as the same token. */
  lemma RangeIsSymmetric(p: string, q: string)
    requires '-' !in p && '-' !in q
    ensures Classify(p + "-" + q) == Classify(q + "-" + p)
  {
    var a := TryParseInt(Trim(p));
    var b := TryParseInt(Trim(q));
    ClassifyRange(p, q);
    ClassifyRange(q, p);
    RangeOfSymmetric(a, b);
  }

  /** A token without '-' is the index it parses to, and an invalid index
      when it does not parse. */
  lemma ClassifySingle(token: string)
    requires '-' !in token
    ensures forall v :: Classify(token) == Single(v) <==> TryParseInt(token) == Some(v)
    ensures Classify(token) == BadIndex <==> TryParseInt(token).None?
  {
  }

  /** A token starting with '-' has an empty left side, which is not an
      integer: it is an invalid range, whatever follows ("-3", "-3-1"). */
  lemma LeadingDashIsBadRange(q: string)
    ensures Classify("-" + q) == BadRange
  {
    var t := "-" + q;
    assert t[0] == '-';
    assert FirstIndex(t, '-') == 0;
    assert t[..0] == [];
    assert TryParseInt(Trim([])) == None;
  }

  /** With a negative bound the two ways round differ: "a--b" is the range
      -b..a, while "-b-a" is an invalid range. */
  lemma NegativeBoundNotSymmetric(a: int, b: int)
    requires 0 <= a <= MaxInt32 && MinInt32 <= b < 0
    ensures Classify(ShowInt(a) + "-" + ShowInt(b)) == Span(b, a)
    ensures Classify(ShowInt(b) + "-" + ShowInt(a)) == BadRange
  {
    var p, q := ShowInt(a), ShowInt(b);
    NumeralShape(a);
    NumeralShape(b);
    ParseShowInt(a);
    ParseShowInt(b);
    SpanOfParsed(p, q, a, b);
    LeadingDashFirst(q, p);
  }

  /** The numeral of an integer is untouched by `Trim`, holds '-' only when
      the integer is negative, and then only in front. */
  lemma NumeralShape(k: int)
    ensures Trim(ShowInt(k)) == ShowInt(k)
    ensures k >= 0 ==> '-' !in ShowInt(k)
    ensures k < 0 ==> |ShowInt(k)| > 0 && ShowInt(k)[0] == '-'
  {
    var d := ShowNat(if k < 0 then -k else k);
    var t := ShowInt(k);
    assert IsDigit(d[|d| - 1]);
    if k < 0 {
      assert t == "-" + d;
      assert t[|t| - 1] == d[|d| - 1];
    } else {
      assert t == d;
      assert IsDigit(d[0]);
      forall i | 0 <= i < |t| ensures t[i] != '-' {
        assert IsDigit(d[i]);
      }
    }
    TrimKeeps(t);
  }

  /** Two untrimmed-already sides that parse as `x` and `y`, with `y < x`,
      make the range y..x. */
  lemma SpanOfParsed(p: string, q: string, x: int, y: int)
    requires '-' !in p && Trim(p) == p && Trim(q) == q && y < x
    requires TryParseInt(p) == Some(x) && TryParseInt(q) == Some(y)
    ensures Classify(p + "-" + q) == Span(y, x)
  {
    ClassifyRange(p, q);
  }

  /** A left side starting with '-' makes the token start with '-'. */
  lemma LeadingDashFirst(q: string, p: string)
    requires |q| > 0 && q[0] == '-'
    ensures Classify(q + "-" + p) == BadRange
  {
    assert q + "-" + p == "-" + (q[1..] + "-" + p);
    LeadingDashIsBadRange(q[1..] + "-" + p);
  }

  lemma RangeOfSymmetric(a: Option<int>, b: Option<int>)
    ensures RangeOf(a, b) == RangeOf(b, a)
  {
  }

  lemma FirstDashAt(p: string, q: string)
    requires '-' !in p
    ensures var t := p + "-" + q;
      '-' in t && FirstIndex(t, '-') == |p| && t[..|p|] == p && t[|p| + 1..] == q
  {
    var t := p + "-" + q;
    assert t[|p|] == '-';
    assert t[..|p|] == p;
    assert t[|p| + 1..] == q;
  }
}
