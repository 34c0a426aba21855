/** `EscapeCsv`: quoting of one field of the ';'-separated report, and the
    reading of such a field back, which `EscapeCsv` is proved to invert. */
module Csv {
  import opened Wrappers

  /** The characters that force a field to be quoted. */
  predicate IsSpecial(c: char) {
    c == ';' || c == '"' || c == '\n' || c == '\r'
  }

  /** `s.IndexOfAny(new[] { ';', '"', '\n', '\r' }) >= 0` */
  predicate NeedsQuoting(s: string) {
    exists i :: 0 <= i < |s| && IsSpecial(s[i])
  }

  /** `s.Replace("\"", "\"\"")`: every quote doubled, all else kept. */
  function DoubleQuotes(s: string): (r: string)
    ensures |r| >= |s|
    ensures '"' !in s ==> r == s
  {
    if |s| == 0 then []
    else (if s[0] == '"' then "\"\"" else [s[0]]) + DoubleQuotes(s[1..])
  }

  /** `EscapeCsv`: a field with no special character is written as is;
      any other is wrapped in quotes with its own quotes doubled. */
  function EscapeCsv(s: string): (r: string)
    ensures !NeedsQuoting(s) ==> r == s
    ensures NeedsQuoting(s) ==> |r| >= |s| + 2 && r[0] == '"' && r[|r| - 1] == '"'
  {
    if NeedsQuoting(s) then "\"" + DoubleQuotes(s) + "\"" else s
  }

  /** Reads the inside of a quoted field: `""` stands for one quote, and a
      lone quote is malformed. */
  function Undouble(t: string): Option<string>
  {
    if |t| == 0 then Some([])
    else if t[0] == '"' then
      if |t| >= 2 && t[1] == '"' then
        match Undouble(t[2..])
        case Some(u) => Some("\"" + u)
        case None => None
      else None
    else
      match Undouble(t[1..])
      case Some(u) => Some([t[0]] + u)
      case None => None
  }

  /** Reads one field as written by `EscapeCsv`: a quoted field must be
      closed and hold a text that needed quoting; an unquoted one must not
      hold a special character. */
  function UnescapeCsv(f: string): Option<string>
  {
    if |f| > 0 && f[0] == '"' then
      if |f| >= 2 && f[|f| - 1] == '"' then
        match Undouble(f[1..|f| - 1])
        case Some(s) => if NeedsQuoting(s) then Some(s) else None
        case None => None
      else None
    else if NeedsQuoting(f) then None
    else Some(f)
  }

  lemma {:induction false} UndoubleDoubleQuotes(s: string)
    ensures Undouble(DoubleQuotes(s)) == Some(s)
  {
    if |s| > 0 {
      UndoubleDoubleQuotes(s[1..]);
      var t := DoubleQuotes(s);
      if s[0] == '"' {
        assert t[2..] == DoubleQuotes(s[1..]);
        assert "\"" + s[1..] == s;
      } else {
        assert t[1..] == DoubleQuotes(s[1..]);
        assert [s[0]] + s[1..] == s;
      }
    }
  }

  lemma {:induction false} DoubleQuotesUndouble(t: string, s: string)
    requires Undouble(t) == Some(s)
    ensures DoubleQuotes(s) == t
    decreases |t|
  {
    if |t| > 0 {
      if t[0] == '"' {
        var u := Undouble(t[2..]).value;
        DoubleQuotesUndouble(t[2..], u);
        assert s == "\"" + u;
        assert s[1..] == u;
        assert t == "\"\"" + t[2..];
      } else {
        var u := Undouble(t[1..]).value;
        DoubleQuotesUndouble(t[1..], u);
        assert s == [t[0]] + u;
        assert s[1..] == u;
        assert t == [t[0]] + t[1..];
      }
    }
  }

  /** Reading back an escaped field gives the original text. */
  lemma EscapeRoundTrip(s: string)
    ensures UnescapeCsv(EscapeCsv(s)) == Some(s)
  {
    if NeedsQuoting(s) {
      var f := EscapeCsv(s);
      assert f[1..|f| - 1] == DoubleQuotes(s);
      UndoubleDoubleQuotes(s);
    } else if |s| > 0 && s[0] == '"' {
      assert IsSpecial(s[0]);
    }
  }

  /** `EscapeCsv` is a bijection onto the well-formed fields: a field reads
      back as `s` exactly when it is the escape of `s`. In particular two
      different texts never escape to the same field. */
  lemma EscapeIffUnescape(f: string, s: string)
    ensures UnescapeCsv(f) == Some(s) <==> EscapeCsv(s) == f
  {
    if EscapeCsv(s) == f {
      EscapeRoundTrip(s);
    }
    if UnescapeCsv(f) == Some(s) {
      UnescapeThenEscape(f, s);
    }
  }

  /** Only the escape of `s` reads back as `s`. */
  lemma UnescapeThenEscape(f: string, s: string)
    requires UnescapeCsv(f) == Some(s)
    ensures EscapeCsv(s) == f
  {
    if |f| > 0 && f[0] == '"' {
      var inner := f[1..|f| - 1];
      assert Undouble(inner) == Some(s) && NeedsQuoting(s);
      DoubleQuotesUndouble(inner, s);
      assert f == "\"" + inner + "\"";
    } else {
      assert !NeedsQuoting(f) && s == f;
    }
  }

  /** A name holding the separator is quoted as a whole. */
  lemma SeparatorExample()
    ensures EscapeCsv("a;b") == "\"a;b\""
  {
    assert IsSpecial("a;b"[1]);
    assert DoubleQuotes("a;b") == "a;b";
  }

  /** An embedded quote is doubled inside the enclosing quotes. */
  lemma QuoteExample()
    ensures EscapeCsv("x\"y") == "\"x\"\"y\""
  {
    assert IsSpecial("x\"y"[1]);
    assert DoubleQuotes("y") == "y";
    assert DoubleQuotes("\"y") == "\"\"y";
  }
}
