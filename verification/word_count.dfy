/** The per-line word counter. A word is a maximal run of non-white
    characters; the count is specified by the word STARTS of a line, while
    the counting loop, like the program's, counts word ENDS. */
module WordScanner {
  import opened Text

  /** Position `i` begins a word: a non-white character at the start of the
      line or right after a white one. */
  predicate WordStartAt(s: string, i: nat)
    requires i < |s|
  {
    !IsWhiteSpace(s[i]) && (i == 0 || IsWhiteSpace(s[i - 1]))
  }

  /** Number of word starts among the first `n` positions of `s`. */
  function WordsBefore(s: string, n: nat): nat
    requires n <= |s|
  {
    if n == 0 then 0
    else WordsBefore(s, n - 1) + (if WordStartAt(s, n - 1) then 1 else 0)
  }

  /** Number of words of a line: one per maximal non-white run. */
  function WordCount(s: string): nat {
    WordsBefore(s, |s|)
  }

  /** `CountWords`: one forward pass with an `inWord` flag. A word is counted
      when white space ends it, and once more if the line ends inside one. */
  method CountWords(s: string) returns (count: nat)
    ensures count == WordCount(s)
  {
    var inWord := false;
    count := 0;
    var i := 0;
    while i < |s|
      invariant i <= |s|
      invariant inWord <==> 0 < i && !IsWhiteSpace(s[i - 1])
      invariant count + (if inWord then 1 else 0) == WordsBefore(s, i)
    {
      if IsWhiteSpace(s[i]) {
        if inWord {
          count := count + 1;
          inWord := false;
        }
      } else {
        inWord := true;
      }
      i := i + 1;
    }
    if inWord {
      count := count + 1;
    }
  }

  /** The count over a prefix depends on that prefix only. */
  lemma {:induction false} WordsBeforePrefix(s: string, t: string, n: nat)
    requires n <= |s| && n <= |t| && s[..n] == t[..n]
    ensures WordsBefore(s, n) == WordsBefore(t, n)
  {
    if n > 0 {
      assert s[..n - 1] == s[..n][..n - 1] && t[..n - 1] == t[..n][..n - 1];
      WordsBeforePrefix(s, t, n - 1);
      assert s[n - 1] == s[..n][n - 1] && t[n - 1] == t[..n][n - 1];
      if n >= 2 {
        assert s[n - 2] == s[..n][n - 2] && t[n - 2] == t[..n][n - 2];
      }
    }
  }

  /** 1 when the last character of `a` and the first of `b` are both
      non-white, so that concatenating the two fuses a word of each. */
  function Glue(a: string, b: string): nat {
    if |a| > 0 && |b| > 0 && !IsWhiteSpace(a[|a| - 1]) && !IsWhiteSpace(b[0]) then 1 else 0
  }

  lemma {:induction false} WordsBeforeConcat(a: string, b: string, j: nat)
    requires j <= |b|
    ensures WordsBefore(a + b, |a| + j) + (if j > 0 then Glue(a, b) else 0)
            == WordCount(a) + WordsBefore(b, j)
  {
    if j == 0 {
      assert (a + b)[..|a|] == a[..|a|];
      WordsBeforePrefix(a + b, a, |a|);
    } else {
      WordsBeforeConcat(a, b, j - 1);
      assert (a + b)[|a| + j - 1] == b[j - 1];
      if j >= 2 {
        assert (a + b)[|a| + j - 2] == b[j - 2];
      } else if |a| > 0 {
        assert (a + b)[|a| - 1] == a[|a| - 1];
      }
    }
  }

  /** Word count of a concatenation: the counts add up, less the one word
      fused across the seam. */
  lemma WordCountConcat(a: string, b: string)
    ensures WordCount(a + b) + Glue(a, b) == WordCount(a) + WordCount(b)
  {
    WordsBeforeConcat(a, b, |b|);
    if |b| == 0 {
      assert a + b == a;
    }
  }

  lemma {:induction false} RunWordsBefore(s: string, n: nat)
    requires 1 <= n <= |s| && NoWhiteSpace(s)
    ensures WordsBefore(s, n) == 1
  {
    if n > 1 {
      RunWordsBefore(s, n - 1);
    }
  }

  /** A non-empty line without white space is one word. */
  lemma RunIsOneWord(s: string)
    requires |s| > 0 && NoWhiteSpace(s)
    ensures WordCount(s) == 1
  {
    RunWordsBefore(s, |s|);
  }

  /** Length of the non-white run at the start of `s`. */
  function RunLength(s: string): (k: nat)
    ensures k <= |s|
    ensures NoWhiteSpace(s[..k])
    ensures k < |s| ==> IsWhiteSpace(s[k])
  {
    if |s| == 0 || IsWhiteSpace(s[0]) then 0
    else
      var k := 1 + RunLength(s[1..]);
      assert s[..k] == [s[0]] + s[1..][..k - 1];
      k
  }

  /** The words of a line, left to right: its maximal non-white runs. */
  function Words(s: string): (ws: seq<string>)
    ensures forall j :: 0 <= j < |ws| ==> |ws[j]| > 0 && NoWhiteSpace(ws[j])
    decreases |s|
  {
    if |s| == 0 then []
    else if IsWhiteSpace(s[0]) then Words(s[1..])
    else
      var k := RunLength(s);
      [s[..k]] + Words(s[k..])
  }

  /** The counter counts exactly the maximal runs listed by `Words`. */
  lemma {:induction false} WordCountIsRuns(s: string)
    ensures WordCount(s) == |Words(s)|
    decreases |s|
  {
    if |s| > 0 {
      if IsWhiteSpace(s[0]) {
        WordCountIsRuns(s[1..]);
        WordCountAfterWhite(s);
      } else {
        var k := RunLength(s);
        WordCountIsRuns(s[k..]);
        WordCountAfterRun(s);
      }
    }
  }

  lemma WordCountAfterWhite(s: string)
    requires |s| > 0 && IsWhiteSpace(s[0])
    ensures WordCount(s) == WordCount(s[1..])
  {
    WordCountConcat([s[0]], s[1..]);
    assert WordsBefore([s[0]], 1) == 0;
    assert [s[0]] + s[1..] == s;
  }

  lemma WordCountAfterRun(s: string)
    requires |s| > 0 && !IsWhiteSpace(s[0])
    ensures WordCount(s) == 1 + WordCount(s[RunLength(s)..])
  {
    RunSplit(s, RunLength(s));
  }

  /** Cutting after the leading run: the run is one word. */
  lemma RunSplit(s: string, k: nat)
    requires |s| > 0 && !IsWhiteSpace(s[0])
    requires k <= |s| && NoWhiteSpace(s[..k]) && (k < |s| ==> IsWhiteSpace(s[k]))
    ensures WordCount(s) == 1 + WordCount(s[k..])
  {
    var a, b := s[..k], s[k..];
    assert a + b == s;
    if k < |s| {
      assert b[0] == s[k];
    }
    RunThenRest(s, a, b);
  }

  /** A non-empty run followed by white space (or nothing) adds one word. */
  lemma RunThenRest(s: string, a: string, b: string)
    requires s == a + b && |a| > 0 && NoWhiteSpace(a)
    requires |b| > 0 ==> IsWhiteSpace(b[0])
    ensures WordCount(s) == 1 + WordCount(b)
  {
    RunIsOneWord(a);
    WordCountConcat(a, b);
    assert Glue(a, b) == 0;
  }

  /** White space separates words: the words around a white character are
      the words of the text before it followed by those of the text after. */
  lemma {:induction false} WordsAtWhiteSpace(a: string, c: char, b: string)
    requires IsWhiteSpace(c)
    ensures Words(a + [c] + b) == Words(a) + Words(b)
    decreases |a|
  {
    var s := a + [c] + b;
    if |a| == 0 {
      CutInside(a, c, b, 0);
      assert Words(s) == Words(b);
    } else if IsWhiteSpace(a[0]) {
      CutInside(a, c, b, 1);
      WordsAtWhiteSpace(a[1..], c, b);
    } else {
      var ka := RunLength(a);
      WordRunBeforeWhiteSpace(a, c, b);
      CutInside(a, c, b, ka);
      assert s[0] == a[0];
      calc {
        Words(s);
        { WordsOfRun(s); }
        [s[..ka]] + Words(s[ka..]);
        [a[..ka]] + Words(a[ka..] + [c] + b);
        { WordsAtWhiteSpace(a[ka..], c, b); }
        [a[..ka]] + (Words(a[ka..]) + Words(b));
        { WordsOfRun(a); }
        Words(a) + Words(b);
      }
    }
  }

  /** A line that starts inside a word: that word, then the rest's words. */
  lemma WordsOfRun(s: string)
    requires |s| > 0 && !IsWhiteSpace(s[0])
    ensures Words(s) == [s[..RunLength(s)]] + Words(s[RunLength(s)..])
  {
  }

  /** Cutting `a + [c] + b` at a position inside `a`. */
  lemma CutInside(a: string, c: char, b: string, k: nat)
    requires k <= |a|
    ensures (a + [c] + b)[..k] == a[..k]
    ensures (a + [c] + b)[k..] == a[k..] + [c] + b
    ensures k == |a| ==> (a + [c] + b)[k] == c && (a + [c] + b)[k + 1..] == b
  {
  }

  /** A run starting inside `a` ends inside `a` or at the white `c`. */
  lemma WordRunBeforeWhiteSpace(a: string, c: char, b: string)
    requires IsWhiteSpace(c)
    ensures var ka := RunLength(a);
      RunLength(a + [c] + b) == ka && (a + [c] + b)[..ka] == a[..ka]
  {
    var s := a + [c] + b;
    var ka := RunLength(a);
    CutInside(a, c, b, ka);
    assert s[ka] == if ka < |a| then a[ka] else c;
    RunLengthUnique(s, ka);
  }

  /** The run length is the one position where the white-free prefix
      stops. */
  lemma {:induction false} RunLengthUnique(s: string, k: nat)
    requires k <= |s| && NoWhiteSpace(s[..k])
    requires k < |s| ==> IsWhiteSpace(s[k])
    ensures RunLength(s) == k
  {
    if k > 0 {
      assert s[0] == s[..k][0];
      assert s[1..][..k - 1] == s[..k][1..];
      RunLengthUnique(s[1..], k - 1);
    }
  }

  /** Doubling a white space changes nothing: "a  b" and "a b" have the
      same words and so the same count. */
  lemma WhiteSpaceRunCollapses(a: string, c1: char, c2: char, b: string)
    requires IsWhiteSpace(c1) && IsWhiteSpace(c2)
    ensures Words(a + [c1, c2] + b) == Words(a + [c1] + b)
    ensures WordCount(a + [c1, c2] + b) == WordCount(a + [c1] + b)
  {
    var long, short := a + [c1, c2] + b, a + [c1] + b;
    calc {
      Words(long);
      { assert long == a + [c1] + ([c2] + b); WordsAtWhiteSpace(a, c1, [c2] + b); }
      Words(a) + Words([c2] + b);
      { assert [c2] + b == [] + [c2] + b; WordsAtWhiteSpace([], c2, b); }
      Words(a) + Words(b);
      { WordsAtWhiteSpace(a, c1, b); }
      Words(short);
    }
    WordCountIsRuns(long);
    WordCountIsRuns(short);
  }

  lemma {:induction false} NoWordsBeforeIffBlank(s: string, n: nat)
    requires n <= |s|
    ensures WordsBefore(s, n) == 0 <==> AllWhiteSpace(s[..n])
  {
    if n > 0 {
      NoWordsBeforeIffBlank(s, n - 1);
      assert s[..n] == s[..n - 1] + [s[n - 1]];
      assert s[..n][n - 1] == s[n - 1];
      if n >= 2 && AllWhiteSpace(s[..n - 1]) {
        assert s[..n - 1][n - 2] == s[n - 2];
      }
    }
  }

  /** A line has no words exactly when it is empty or all white space. */
  lemma NoWordsIffBlank(s: string)
    ensures WordCount(s) == 0 <==> AllWhiteSpace(s)
  {
    NoWordsBeforeIffBlank(s, |s|);
    assert s[..|s|] == s;
  }

  lemma {:induction false} WordsBeforeBound(s: string, n: nat)
    requires n <= |s|
    ensures 2 * WordsBefore(s, n) <= n + 1
    ensures 0 < n && IsWhiteSpace(s[n - 1]) ==> 2 * WordsBefore(s, n) <= n
  {
    if n > 0 {
      WordsBeforeBound(s, n - 1);
    }
  }

  /** Words are separated by at least one white character, so a line of
      length L has at most (L + 1) / 2 words, and never more than L. */
  lemma WordCountBound(s: string)
    ensures 2 * WordCount(s) <= |s| + 1
    ensures WordCount(s) <= |s|
  {
    WordsBeforeBound(s, |s|);
  }

  /** "a  b" and "a b" both count two words. */
  lemma DoubledSpaceExample()
    ensures WordCount("a  b") == 2 && WordCount("a b") == 2
  {
    RunIsOneWord("a");
    RunIsOneWord("b");
    WordCountConcat("a", " b");
    WordCountConcat(" ", "b");
    WordCountConcat("a ", " b");
    assert "a" + " b" == "a b";
    assert " " + "b" == " b";
    assert "a " == "a" + " ";
    assert "a " + " b" == "a  b";
  }
}
