# Text-file processor: word counting, file selection, consolidation

A Dafny model of the logic in `Program.cs`, a .NET 8 console program. The
program asks for a directory and lists its `.txt` files. It reads a
selection such as `1,3-5`, counts the lines and words of each selected
file in parallel, and writes a report. The report holds the results ordered
by file name, the line and word totals, and a `;`-separated CSV version.

The model covers the parts of the program that compute something:

- **Word counting** (`WordScanner`, `word_count.dfy`). `CountWords` is a
  method with the program's single forward pass and `inWord` flag. It is
  proved equal to the number of maximal runs of non-white characters.
- **Per-file scan** (`LineScan`, `line_scan.dfy`). `ContarLinhasEPalavrasAsync`
  reads a file line by line and polls the cancellation token before every
  read. The reader is given as its sequence of lines, followed by end of
  file or an I/O error. Cancellation is given as the check-point at which
  the token is first seen set.
- **Selection** (`Selection`, `selection.dfy`; worked cases in
  `SelectionExamples`, `selection_examples.dfy`). `ParseSelecao` and its
  local `TryAddIndex` work as follows:
  - the selection is split on `,` and the pieces are trimmed;
  - empty pieces are dropped;
  - each token is read as an index, a range, or an invalid token;
  - in-range indices are gathered in a `SortedSet`;
  - the files at those positions are returned in ascending order;
  - if nothing valid was chosen, every file is returned.

  The diagnostics printed along the way are part of the result, in
  printing order.
- **Support** (`Text`, `IntParse`). These model the .NET pieces that
  `ParseSelecao` relies on: `char.IsWhiteSpace` (its code-point list),
  `Trim`, `Split` and `int.TryParse`.
- **CSV escaping** (`Csv`, `csv.dfy`). `EscapeCsv` is modelled, together
  with the reading of a field back. Escaping is proved to be inverted by
  that reading, and to be a bijection onto well-formed fields.
- **Consolidation** (`Consolidation`, `consolidation.dfy`). The body run for
  each file leaves a result or an error line. The outcomes are collected
  into two bags. `OrderBy(r => r.FileName)` is a stable sort by name, and
  the two `Sum`s follow it. The bags of results arrive in no particular
  order, so the model takes any order and proves two things. The totals
  depend only on which results arrived; so does the ordered list when the
  names are distinct. The totals are the sums over the results.
- **Range loop** (`RangeLoop`, `range_loop.dfy`). The range loop is modelled
  as written, with 32-bit wrap-around. See Findings.

Integers are unbounded except where the 32-bit width is the point: the
range of `int.TryParse` and the `RangeLoop` module. Strings are sequences of
Unicode code points (`seq<char>`), not of UTF-16 code units, so a name holding
a lone surrogate has no counterpart in the model.

## Model

| member | source | states |
|---|---|---|
| WordScanner.CountWords | Program.cs:166-184 | The one-pass scanner that counts a word when white space or the end of the line closes it returns the number of word starts of the line. |
| WordScanner.WordCountIsRuns | Program.cs:165-184 | That count equals the number of maximal non-white runs of the line, listed left to right by `Words`. |
| WordScanner.WordCountConcat | Program.cs:171-182 | The count of a concatenation is the sum of the counts, less one when a word is fused across the seam. |
| WordScanner.WordsAtWhiteSpace | Program.cs:173-176 | A white character separates words: the words of `a + [c] + b` are those of `a` followed by those of `b`. |
| WordScanner.WhiteSpaceRunCollapses | Program.cs:171-181 | Doubling a white character changes neither the words nor the count ("a  b" and "a b" agree). |
| WordScanner.NoWordsIffBlank | Program.cs:166-184 | A line has no words exactly when it is empty or all white space. |
| WordScanner.WordCountBound | Program.cs:166-184 | A line of length L has at most (L + 1) / 2 words, and so never more than L. |
| WordScanner.DoubledSpaceExample | Program.cs:166-184 | "a  b" and "a b" both count two words. |
| LineScan.ScanFrom | Program.cs:153-162 | From any check-point the loop ends cancelled iff the token is seen at a remaining check-point. Otherwise it fails iff the reader fails, carrying the reader's message. Otherwise it adds the remaining lines and their words to the counts so far. |
| LineScan.Scan | Program.cs:145-162 | A file read to its end without cancellation yields (number of lines, sum of the lines' word counts). Cancellation wins over a read error. A read error surfaces with its message. |
| LineScan.TotalWordsAppend | Program.cs:158-159 | The word total of consecutive stretches of lines is the sum of their totals. |
| LineScan.NoWordsIffBlankLines | Program.cs:153-162 | A file has no words exactly when each of its lines is blank. |
| LineScan.ScanExamples | Program.cs:147-162 | "hello world" / "foo" counts 2 lines and 3 words; an empty file counts (0, 0). |
| Text.Trim | Program.cs:191 | The trimmed text neither starts nor ends with white space, and it is empty exactly when the text is all white space. |
| Text.TrimIsSlice | Program.cs:191 | What `Trim` keeps is a slice of the text with only white space before and after it. |
| Text.JoinSplit | Program.cs:191 | Joining the pieces of `Split` with the separator gives back the text: splitting loses and invents nothing. |
| Text.SplitAtFirst | Program.cs:191 | Splitting cuts at the first separator, then splits the rest. |
| IntParse.TryParseInt | Program.cs:196 | A parsed value lies in the 32-bit range and comes from an optional sign followed by decimal digits, and its sign agrees with the text's. |
| IntParse.ParsedIsNumeral | Program.cs:196 | Every accepted text is an optional sign, leading zeros, then the numeral of the value's magnitude; '-' only before a value that is not positive, and always before a negative one. |
| IntParse.ParseNumeral | Program.cs:196 | Every optional sign, then zeros, then a numeral is accepted with its signed value when that value fits 32 bits ("+7", "007", "-0"). |
| IntParse.ParseShowInt | Program.cs:196 | The decimal numeral of every 32-bit integer parses back to that integer. |
| IntParse.ParseRefusesOverflow | Program.cs:196 | The numeral of a value outside the 32-bit range is refused. |
| Selection.Blank | Program.cs:188 | `string.IsNullOrWhiteSpace`: blank exactly when missing or trimmed to nothing. |
| Selection.BlankHasNoTokens | Program.cs:188-191 | A blank text has no tokens, so the early return at line 188 agrees with what the loop would find. |
| Selection.Tokens | Program.cs:191 | Every token is non-empty and has no white space at either end. |
| Selection.TokensTrimmed | Program.cs:191 | Every token is non-empty and trimming it again leaves it unchanged. |
| Selection.TokensWithoutComma | Program.cs:191 | A text without a comma is one token, its trimmed self, or none when it is blank. |
| Selection.TokensAtComma | Program.cs:191 | At the first comma, the text before it gives its trimmed self as a token unless blank, and the rest is split on. |
| Selection.Classify | Program.cs:193-210 | A token is a range or an invalid range exactly when it holds '-'; a range has its bounds in order; a token without '-' is an index exactly when it parses, and then it is the parsed value. |
| Selection.ClassifySingle | Program.cs:206-209 | A token without '-' is `Single(v)` exactly when it parses to `v`, and an invalid index exactly when it does not parse. |
| Selection.ClassifyRange | Program.cs:193-199 | "p-q" with no '-' in `p` is read from the integers of its two trimmed sides. |
| Selection.RangeIsSymmetric | Program.cs:195-199 | For sides without '-', "a-b" and "b-a" are read as the same token. |
| Selection.LeadingDashIsBadRange | Program.cs:193-203 | A token starting with '-' ("-3", "-3-1") is an invalid range: its empty left side is not an integer. |
| Selection.NegativeBoundNotSymmetric | Program.cs:193-203 | With a negative bound the two ways round differ: "a--b" is the range -b..a, "-b-a" an invalid range. |
| Selection.Interval | Program.cs:199 | The range expansion visits exactly lo..hi, once each, in increasing order. |
| Selection.TryAddIndex | Program.cs:221-225 | An index in 1..N joins the set and prints nothing; any other leaves the set unchanged and prints its out-of-range line. |
| Selection.Candidates | Program.cs:193-210 | The indices a token feeds to `TryAddIndex` are exactly those it names. |
| Selection.Rejected | Program.cs:221-225 | The lines `TryAddIndex` prints for a run of indices are out-of-range notices only, one per occurrence of each index outside 1..N (counted as multisets). |
| Selection.AddAll | Program.cs:221-225 | After `TryAddIndex` on each index, the set holds the old members plus the in-range indices. The printed lines are the old ones followed by those `Rejected` lists, in call order. |
| Selection.Printed | Program.cs:200-224 | The lines one token prints are exactly those it calls for. |
| Selection.Step | Program.cs:191-210 | One pass of the `foreach`: the in-range indices the token names join the set, and the token's lines are appended to those printed before. |
| Selection.PrintedAll | Program.cs:190-211 | The lines the loop prints are exactly those some token calls for; the fallback notice is never among them. |
| Selection.Fold | Program.cs:190-211 | The whole loop: the set ends up with exactly the in-range indices some token names. The lines printed are those printed before, followed by each token's lines in turn. |
| Selection.Ascending | Program.cs:219 | The `SortedSet` enumeration lists the members in the given bounds, strictly increasing. |
| Selection.Resolve | Program.cs:213-219 | The result lists 1-based positions in 1..N, strictly increasing, each paired with the file at that position. |
| Selection.FallbackIffNoneRequested | Program.cs:213-217 | The fallback to all files happens exactly when no token names an in-range index. |
| Selection.ParseSelecao | Program.cs:186-226 | Positions are in 1..N, strictly ascending and so without repeats, each mapped to `arquivos[i-1]`. A missing or blank selection returns every file in order and prints nothing. |
| Selection.ParseSelecaoChoice | Program.cs:186-226 | The positions kept are exactly the in-range indices the selection asks for, or every position (with the original list) when it asks for none. |
| Selection.ParseSelecaoDiagnostics | Program.cs:200-224 | The lines printed are, in order, each token's lines (one per invalid token, one per occurrence of an out-of-range index), then the fallback notice, once and last, exactly when nothing valid was chosen. |
| Selection.AscendingUnique | Program.cs:190 | Two strictly increasing lists with the same members are equal: the `SortedSet` order is determined by its contents. |
| Selection.SameChoiceSameFiles | Program.cs:186-226 | Selections asking for the same indices ("5,1", "1,5,5", "1-1,5") return the same files in the same order. |
| SelectionExamples.SelectionExample | Program.cs:186-219 | "1,3-5" over six files returns the first, third, fourth and fifth file. |
| SelectionExamples.FallbackExample | Program.cs:213-224 | "9" over three files returns all three and prints exactly `OutOfRange(9)` and then `NoValidIndex`. |
| SelectionExamples.RepeatedIndexExample | Program.cs:213-224 | "9,9" over three files prints the out-of-range line twice, then the fallback notice. |
| RangeLoop.LoopValues | Program.cs:199 | The 32-bit loop as written: it starts at `a`, every value is at most `b`, each next value is `i++` of the previous, and when it stops early the next value exceeds `b`. |
| RangeLoop.NeverExitsAtMaxInt | Program.cs:199 | With `b == int.MaxValue` the 32-bit loop runs its body as often as allowed: it never exits. |
| RangeLoop.WrapsPastMaxInt | Program.cs:199 | After visiting `int.MaxValue` the 32-bit loop goes on with `int.MinValue`. |
| RangeLoop.LoopMatchesIntervalBelowMax | Program.cs:199 | Below `int.MaxValue` the 32-bit loop visits exactly a..b, as `Interval` does. |
| Csv.DoubleQuotes | Program.cs:232 | `Replace("\"", "\"\"")` never shortens the text and leaves a text without quotes unchanged. |
| Csv.EscapeCsv | Program.cs:228-234 | A field without `;`, `"`, LF or CR is unchanged; any other is at least two longer and wrapped in quotes. |
| Csv.EscapeRoundTrip | Program.cs:228-234 | Stripping the outer quotes and un-doubling recovers the original field. |
| Csv.EscapeIffUnescape | Program.cs:228-234 | A field reads back as `s` exactly when it is the escape of `s`, so escaping is injective. |
| Csv.SeparatorExample | Program.cs:231-232 | "a;b" is written as "\"a;b\"". |
| Csv.QuoteExample | Program.cs:231-232 | `x"y` is written as `"x""y"`. |
| Consolidation.ProcessFile | Program.cs:69-85 | A file gives a result iff it was neither cancelled nor failed, with the scanned counts under its name. A cancelled file gives "name: operação cancelada.". A failed one gives "name: message". |
| Consolidation.Collect | Program.cs:76-84 | The two bags together hold as many entries as there are outcomes. |
| Consolidation.CollectCounts | Program.cs:76-84 | Every outcome lands in its bag as often as it occurs: each result once per `Done` outcome, each error line once per `Failed` outcome. |
| Consolidation.CollectMembers | Program.cs:76-84 | The results bag holds exactly the results of the outcomes, and the error bag exactly their error lines. |
| Consolidation.CollectAppend | Program.cs:69-86 | Collecting two runs of outcomes yields the concatenation of their bags. |
| Consolidation.NameLeTotal | Program.cs:100 | Any two names are comparable in the code-point order that stands in for `OrderBy`'s. |
| Consolidation.NameLeTransitive | Program.cs:100 | The code-point order is transitive. |
| Consolidation.NameLeAntisymmetric | Program.cs:100 | Two names each ordered before the other are equal. |
| Consolidation.Insert | Program.cs:100 | Inserting into a sorted list yields a sorted list with the same records plus the new one. |
| Consolidation.WithNameInsert | Program.cs:100 | Insertion keeps every name's records in order and puts the new record after those sharing its name. |
| Consolidation.SortByName | Program.cs:100 | The ordered list is sorted by name and is a permutation of the input. |
| Consolidation.SortByNameStable | Program.cs:100 | The sort is stable: records sharing a name keep their relative order. |
| Consolidation.SortedUnique | Program.cs:100 | A sorted list is determined by the order it keeps among the records of each name. |
| Consolidation.SortByNameOrderIndependent | Program.cs:100 | Results of distinctly named files come out in the same order whatever order they arrived in. |
| Consolidation.SumsPermutation | Program.cs:101-102 | The line and word sums do not depend on the order of the records. |
| Consolidation.Consolidate | Program.cs:100-102 | The ordered list is sorted and a permutation of the collected results; the totals are the sums over the collected results. |
| Consolidation.ConsolidateOrderIndependent | Program.cs:100-102 | Two arrival orders of the same distinctly named results give the same report. |

## Where the code does something one might not expect

The prompt's own example, "ex.: 1,3-5" (Program.cs:47), and the swap of
reversed bounds at Program.cs:198 suggest that a range is any two indices
joined by `-`, in either order. The code reads ranges as follows.

- A token holding `-` is split at its first `-` into exactly two parts, so
  the `parts.Length == 2` test always holds. The second part may itself
  start with `-`, so "1--3" is read as the range -3..1, not as an invalid
  token.
- Ranges are not symmetric once a bound is negative. "1--3" is the range
  -3..1, but "-3-1" is cut at its first `-`, leaves an empty left side, and
  is an invalid range; so is "-3" alone. The reading is symmetric only when
  neither side holds `-` (`Selection.RangeIsSymmetric`); the other cases are
  `Selection.LeadingDashIsBadRange` and `Selection.NegativeBoundNotSymmetric`.

## Left out

- Console prompts, messages and `Console.ReadLine` (lines 20-51, 138-140):
  I/O. The selection text is a parameter (`None` for `null`). The lines
  `ParseSelecao` prints are modelled as its `diagnostics`.
- Directory checks, file enumeration, `Path.GetFileName`, the export
  directory and the timestamped names (lines 26-45, 94-98): filesystem I/O.
  The file list and the file names are parameters.
- `Parallel.ForEachAsync`, `ConcurrentBag`, `CancellationTokenSource` and
  Ctrl+C (lines 53-91): concurrency. The model takes the finished outcomes
  in any order. A file never started because of cancellation simply has no
  outcome. The cancellation of each file is a parameter (`cancelAt`), the
  check-point at which the token is first seen set.
- `StreamReader` byte-order-mark detection and its CR/LF/CRLF line splitting
  (lines 150-156): library code. A file is given as its lines and an
  optional terminal read error.
- The text report, the CSV layout and `File.WriteAllTextAsync`
  (lines 104-136): formatting and I/O. Only `EscapeCsv` is modelled.
- Consolidation.SortByName: `OrderBy` uses the current culture's string
  comparison. The model compares names code point by code point, because
  culture collation tables are outside the model. This is not even .NET's
  ordinal order, which compares UTF-16 code units: a character above U+FFFF
  (a surrogate pair starting at 0xD800..0xDBFF) sorts after one in
  U+E000..U+FFFF here but before it there.
- IntParse.TryParseInt: the culture's sign symbols, its own skipping of
  surrounding white space, and trailing NUL characters are not modelled.
  Every text handed to it has already been trimmed by `Trim`.
- Consolidation.Consolidate: the totals are unbounded. The checked overflow
  of `Enumerable.Sum` on `int`, which would throw outside any handler, is
  not modelled. Neither is a wrap-around of the per-file counters of
  `ContarLinhasEPalavrasAsync` (beyond 2^31 lines or words).
- Consolidation.SortByNameOrderIndependent: stated for results with distinct
  names only. With repeated names, a stable sort keeps arrival order among
  them, so the list genuinely depends on arrival order. Names from one
  directory listing, selected at distinct positions, are distinct.
- Selection.Interval: expands a range with unbounded integers. The 32-bit
  loop as written is `RangeLoop.LoopValues`, covered under Findings.

## Findings

| source | as written | input that shows it | evidently intended | confidence | as-written member | corrected member |
|---|---|---|---|---|---|---|
| Program.cs:199 | `for (int i = a; i <= b; i++)` in unchecked 32-bit arithmetic: when `b` is `int.MaxValue`, `i++` wraps to `int.MinValue` and `i <= b` never fails | selection "2147483646-2147483647" (or any range ending at 2147483647) | visit a..b once each and stop | high (not executed) | RangeLoop.NeverExitsAtMaxInt | Selection.Interval |
