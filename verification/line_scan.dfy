/** The per-file scan: read the file line by line, polling the cancellation
    token before every read, counting one line per read and adding up each
    line's word count. The reader itself (byte-order-mark detection and
    splitting at CR, LF or CRLF) is abstracted into the lines it yields. */
module LineScan {
  import opened Wrappers
  import opened WordScanner

  /** Lines and words of one file. */
  datatype Counts = Counts(lines: nat, words: nat)

  /** What the reader yields for one file: its lines with the terminators
      removed, then either end of file (`failure == None`) or an I/O
      exception carrying its message. A file that cannot be opened at all
      is `Stream([], Some(m))` with `cancelAt == None`: opening comes before
      the first check-point, so its failure is reported even when the token
      is already set. */
  datatype Stream = Stream(lines: seq<string>, failure: Option<string>)

  /** Outcome of one scan: the counts, the cancellation exception, or the
      reader's exception. */
  datatype ScanResult = Scanned(counts: Counts) | Cancelled | ReadFailed(message: string)

  /** Sum of the word counts of the lines. */
  function TotalWords(lines: seq<string>): nat {
    if |lines| == 0 then 0 else WordCount(lines[0]) + TotalWords(lines[1..])
  }

  /** The read loop from check-point `i` on (i.e. after `i` lines were read),
      with `acc` counted so far. `cancelAt` is the check-point at which the
      token is first seen cancelled, if any: a check-point happens before
      every read, including the final one that meets end of file. */
  function ScanFrom(st: Stream, cancelAt: Option<nat>, i: nat, acc: Counts): (r: ScanResult)
    requires i <= |st.lines|
    ensures r.Cancelled? <==> cancelAt.Some? && i <= cancelAt.value <= |st.lines|
    ensures r.ReadFailed? <==> !r.Cancelled? && st.failure.Some?
    ensures r.ReadFailed? ==> r.message == st.failure.value
    ensures r.Scanned? ==>
              r.counts == Counts(acc.lines + (|st.lines| - i), acc.words + TotalWords(st.lines[i..]))
    decreases |st.lines| - i
  {
    if cancelAt == Some(i) then Cancelled
    else if i == |st.lines| then
      match st.failure
      case Some(m) => ReadFailed(m)
      case None => Scanned(acc)
    else
      assert st.lines[i..][1..] == st.lines[i + 1..];
      ScanFrom(st, cancelAt, i + 1, Counts(acc.lines + 1, acc.words + WordCount(st.lines[i])))
  }

  /** `ContarLinhasEPalavrasAsync`: a file that is read to its end without
      cancellation yields its number of lines and the sum of their word
      counts; cancellation observed at any check-point wins over a read
      error, which can only surface at the read after the last line. A
      failure to open the file precedes every check-point and is modelled
      as an empty stream that fails, with no cancellation. */
  function Scan(st: Stream, cancelAt: Option<nat>): (r: ScanResult)
    ensures r.Cancelled? <==> cancelAt.Some? && cancelAt.value <= |st.lines|
    ensures r.ReadFailed? <==> !r.Cancelled? && st.failure.Some?
    ensures r.ReadFailed? ==> r.message == st.failure.value
    ensures r.Scanned? ==> r.counts == Counts(|st.lines|, TotalWords(st.lines))
  {
    assert st.lines[0..] == st.lines;
    ScanFrom(st, cancelAt, 0, Counts(0, 0))
  }

  /** Word totals add up over consecutive stretches of lines, so the total
      of a file is independent of how its lines are grouped. */
  lemma {:induction false} TotalWordsAppend(a: seq<string>, b: seq<string>)
    ensures TotalWords(a + b) == TotalWords(a) + TotalWords(b)
  {
    if |a| > 0 {
      TotalWordsAppend(a[1..], b);
      assert (a + b)[1..] == a[1..] + b;
    } else {
      assert a + b == b;
    }
  }

  /** A file has no words exactly when every line is blank. */
  lemma {:induction false} NoWordsIffBlankLines(lines: seq<string>)
    ensures TotalWords(lines) == 0 <==> forall j :: 0 <= j < |lines| ==> Text.AllWhiteSpace(lines[j])
  {
    if |lines| > 0 {
      NoWordsIffBlankLines(lines[1..]);
      NoWordsIffBlank(lines[0]);
      if TotalWords(lines) == 0 {
        forall j | 0 <= j < |lines| ensures Text.AllWhiteSpace(lines[j]) {
          if j > 0 {
            assert lines[j] == lines[1..][j - 1];
          }
        }
      }
    }
  }

  /** The file "hello world\nfoo", read as two lines, counts 2 lines and
      3 words; an empty file counts nothing. */
  lemma ScanExamples()
    ensures Scan(Stream(["hello world", "foo"], None), None) == Scanned(Counts(2, 3))
    ensures Scan(Stream([], None), None) == Scanned(Counts(0, 0))
  {
    RunIsOneWord("hello");
    RunIsOneWord("world");
    RunIsOneWord("foo");
    WordCountConcat("hello", " world");
    WordCountConcat(" ", "world");
    assert " " + "world" == " world";
    assert "hello" + " world" == "hello world";
    var lines := ["hello world", "foo"];
    assert lines[1..] == ["foo"];
    assert lines[1..][1..] == [];
  }
}
