/** `int.TryParse(string, out int)` with the default integer style, as the
    selection parser uses it: an optional sign, decimal digits, and a value
    that fits the 32-bit `int` range. */
module IntParse {
  import opened Wrappers

  const MinInt32: int := -0x8000_0000
  const MaxInt32: int := 0x7FFF_FFFF

  predicate IsDigit(c: char) {
    '0' <= c <= '9'
  }

  predicate AllDigits(s: string) {
    forall i :: 0 <= i < |s| ==> IsDigit(s[i])
  }

  /** The value of a string of decimal digits, most significant first. */
  function DigitsValue(s: string): nat
    requires AllDigits(s)
  {
    if |s| == 0 then 0
    else DigitsValue(s[..|s| - 1]) * 10 + (s[|s| - 1] as int - '0' as int)
  }

  /** The text `s` with an optional leading sign stripped, and whether the
      sign was a minus. */
  function Unsigned(s: string): (string, bool)
  {
    if |s| > 0 && (s[0] == '-' || s[0] == '+') then (s[1..], s[0] == '-')
    else (s, false)
  }

  /** `int.TryParse`: `Some(v)` for a signed decimal numeral whose value fits
      in 32 bits, `None` for anything else (the empty text, a bare sign, a
      stray character, an overflow). Leading zeros are accepted. The texts
      handed to it are already trimmed, so the white space `TryParse` would
      itself skip never occurs. */
  function TryParseInt(s: string): (r: Option<int>)
    ensures r.Some? ==> MinInt32 <= r.value <= MaxInt32
    ensures r.Some? ==> |s| > 0 && IsDigit(s[|s| - 1])
    ensures r.Some? ==> (IsDigit(s[0]) || s[0] == '+' || s[0] == '-')
                        && forall i :: 0 < i < |s| ==> IsDigit(s[i])
    ensures r.Some? && 0 < |s| && IsDigit(s[0]) ==> r.value >= 0
    ensures r.Some? && 0 < |s| && s[0] == '-' ==> r.value <= 0
  {
    var (digits, negative) := Unsigned(s);
    if |digits| == 0 || !AllDigits(digits) then None
    else
      var magnitude: int := DigitsValue(digits);
      var v: int := if negative then -magnitude else magnitude;
      if MinInt32 <= v <= MaxInt32 then Some(v) else None
  }

  /** Decimal numeral of a natural number, without leading zeros. */
  function ShowNat(n: nat): (s: string)
    ensures |s| > 0 && AllDigits(s)
  {
    var d := ['0' + (n % 10) as char];
    if n < 10 then d else ShowNat(n / 10) + d
  }

  /** Decimal numeral of an integer, with a leading '-' when negative: the
      text `int.ToString()` produces. */
  function ShowInt(k: int): string {
    if k < 0 then "-" + ShowNat(-k) else ShowNat(k)
  }

  lemma {:induction false} DigitsOfShowNat(n: nat)
    ensures DigitsValue(ShowNat(n)) == n
  {
    var s := ShowNat(n);
    if n >= 10 {
      DigitsOfShowNat(n / 10);
      assert s[..|s| - 1] == ShowNat(n / 10);
    }
  }

  /** Parsing the numeral of any 32-bit integer gives that integer back. */
  lemma ParseShowInt(k: int)
    requires MinInt32 <= k <= MaxInt32
    ensures TryParseInt(ShowInt(k)) == Some(k)
  {
    ShownValue(k);
  }

  /** A string of digits is a run of leading zeros followed by the numeral
      of its value. */
  lemma {:induction false} DigitsShape(d: string)
    requires |d| > 0 && AllDigits(d)
    ensures |ShowNat(DigitsValue(d))| <= |d|
    ensures d[|d| - |ShowNat(DigitsValue(d))|..] == ShowNat(DigitsValue(d))
    ensures forall i :: 0 <= i < |d| - |ShowNat(DigitsValue(d))| ==> d[i] == '0'
    decreases |d|
  {
    var m := DigitsValue(d);
    var c := d[|d| - 1];
    var e := d[..|d| - 1];
    assert AllDigits(e);
    var w := DigitsValue(e);
    assert m == w * 10 + (c as int - '0' as int);
    assert '0' + ((c as int - '0' as int) as char) == c;
    if w == 0 {
      assert m < 10 && ShowNat(m) == [c];
      if |d| > 1 {
        DigitsShape(e);
        assert ShowNat(0) == "0";
        forall i | 0 <= i < |d| - 1 ensures d[i] == '0' {
          if i < |e| - 1 {
            assert d[i] == e[i];
          } else {
            assert e[|e| - 1..] == "0";
            assert d[i] == e[|e| - 1];
          }
        }
      }
    } else {
      DigitsShape(e);
      var tail := ShowNat(w);
      assert m >= 10 && m / 10 == w && m % 10 == c as int - '0' as int;
      assert ShowNat(m) == tail + [c];
      var z := |e| - |tail|;
      assert d[z..] == e[z..] + [c];
      forall i | 0 <= i < z ensures d[i] == '0' {
        assert d[i] == e[i];
      }
    }
  }

  /** The texts `TryParseInt` accepts, read back: an optional sign, then
      leading zeros, then the numeral of the magnitude of the value, with
      '-' only in front of a value that is not positive and always in front
      of a negative one. With `ParseNumeral`, the converse, this pins the
      parser down: it accepts exactly the signed decimal numerals of 32-bit
      values, leading zeros allowed. */
  lemma ParsedIsNumeral(s: string)
    requires TryParseInt(s).Some?
    ensures var v := TryParseInt(s).value;
      var shown := ShowNat(if v < 0 then -v else v);
      && |shown| <= |s|
      && s[|s| - |shown|..] == shown
      && (forall i :: 0 < i < |s| - |shown| ==> s[i] == '0')
      && (|shown| < |s| ==> s[0] == '+' || s[0] == '-' || s[0] == '0')
      && (s[0] == '-' ==> v <= 0)
      && (v < 0 ==> s[0] == '-')
  {
    var (digits, negative) := Unsigned(s);
    var v := TryParseInt(s).value;
    var m: int := DigitsValue(digits);
    assert v == if negative then -m else m;
    assert (if v < 0 then -v else v) == m;
    DigitsShape(digits);
    var shown := ShowNat(m);
    if |digits| < |s| {
      assert digits == s[1..];
      assert s[|s| - |shown|..] == digits[|digits| - |shown|..];
      forall i | 0 < i < |s| - |shown| ensures s[i] == '0' {
        assert s[i] == digits[i - 1];
      }
    } else {
      assert digits == s;
      if |shown| < |s| {
        assert s[0] == digits[0];
      }
      assert IsDigit(s[0]);
    }
  }

  /** Every signed numeral with leading zeros is accepted when its value is
      a 32-bit integer: "+7", "007" and "-0" parse as 7, 7 and 0. */
  lemma ParseNumeral(sign: string, z: string, k: nat)
    requires sign == "" || sign == "+" || sign == "-"
    requires forall i :: 0 <= i < |z| ==> z[i] == '0'
    requires MinInt32 <= (if sign == "-" then -(k as int) else k) <= MaxInt32
    ensures TryParseInt(sign + z + ShowNat(k)) == Some(if sign == "-" then -(k as int) else k)
  {
    DigitsOfShowNat(k);
    ParseZerosThenDigits(sign, z, ShowNat(k), k);
  }

  /** `ParseNumeral` for any digit string `d` worth `k`. */
  lemma ParseZerosThenDigits(sign: string, z: string, d: string, k: nat)
    requires sign == "" || sign == "+" || sign == "-"
    requires forall i :: 0 <= i < |z| ==> z[i] == '0'
    requires |d| > 0 && AllDigits(d) && DigitsValue(d) == k
    requires MinInt32 <= (if sign == "-" then -(k as int) else k) <= MaxInt32
    ensures TryParseInt(sign + z + d) == Some(if sign == "-" then -(k as int) else k)
  {
    var digits := z + d;
    LeadingZerosValue(z, d);
    SignThenDigits(sign, digits);
    AppendAssoc(sign, z, d);
    ParseOfDigits(sign + digits, digits, sign == "-", k);
  }

  /** A text whose sign and digits are known parses to their value. */
  lemma ParseOfDigits(t: string, digits: string, negative: bool, m: nat)
    requires Unsigned(t) == (digits, negative)
    requires |digits| > 0 && AllDigits(digits) && DigitsValue(digits) == m
    requires MinInt32 <= (if negative then -(m as int) else m) <= MaxInt32
    ensures TryParseInt(t) == Some(if negative then -(m as int) else m)
  {
  }

  /** A sign in front of a digit string is read as that sign. */
  lemma SignThenDigits(sign: string, digits: string)
    requires sign == "" || sign == "+" || sign == "-"
    requires |digits| > 0 && AllDigits(digits)
    ensures Unsigned(sign + digits) == (digits, sign == "-")
  {
    var t := sign + digits;
    if sign == "" {
      assert t == digits;
      assert IsDigit(t[0]);
    } else {
      assert t[0] == sign[0];
      assert t[1..] == digits;
    }
  }

  /** Leading zeros do not change the value of a digit string. */
  lemma {:induction false} LeadingZerosValue(z: string, d: string)
    requires forall i :: 0 <= i < |z| ==> z[i] == '0'
    requires AllDigits(d)
    ensures AllDigits(z + d) && DigitsValue(z + d) == DigitsValue(d)
    decreases |d|
  {
    var t := z + d;
    assert AllDigits(t) by {
      forall i | 0 <= i < |t| ensures IsDigit(t[i]) {
        if i >= |z| {
          assert t[i] == d[i - |z|];
        }
      }
    }
    if |d| == 0 {
      assert t == z;
      ZerosValue(z);
    } else {
      var e := d[..|d| - 1];
      assert AllDigits(e);
      LeadingZerosValue(z, e);
      assert t[..|t| - 1] == z + e;
      assert t[|t| - 1] == d[|d| - 1];
    }
  }

  /** A string of zeros is worth nothing. */
  lemma {:induction false} ZerosValue(z: string)
    requires forall i :: 0 <= i < |z| ==> z[i] == '0'
    ensures AllDigits(z) && DigitsValue(z) == 0
    decreases |z|
  {
    if |z| > 0 {
      ZerosValue(z[..|z| - 1]);
    }
  }

  /** Values outside the 32-bit range are refused, as `TryParse` refuses an
      overflowing numeral. */
  lemma ParseRefusesOverflow(k: int)
    requires k < MinInt32 || MaxInt32 < k
    ensures TryParseInt(ShowInt(k)) == None
  {
    ShownValue(k);
  }

  /** The numeral of `k` splits into the digits of `|k|` and the sign of
      `k`. */
  lemma ShownValue(k: int)
    ensures var (digits, negative) := Unsigned(ShowInt(k));
      && |digits| > 0 && AllDigits(digits)
      && var magnitude: int := DigitsValue(digits);
         (if negative then -magnitude else magnitude) == k
  {
    if k < 0 {
      var d := ShowNat(-k);
      DigitsOfShowNat(-k);
      assert ("-" + d)[1..] == d;
      assert Unsigned("-" + d) == (d, true);
    } else {
      var d := ShowNat(k);
      DigitsOfShowNat(k);
      assert IsDigit(d[0]);
      assert Unsigned(d) == (d, false);
    }
  }
}
