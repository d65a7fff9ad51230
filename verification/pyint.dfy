/**
 * Python's `int(str)` in base 10 and `str(int)`, as Django uses them to
 * turn a URL or form value into an integer key and as the filters use
 * them to read a status value. Only ASCII digits and whitespace are
 * modelled.
 */
module PyInt {
  import opened Wrappers
  import opened Chars

  function DigitValue(c: char): (r: nat)
    ensures r < 10
  {
    if IsDigit(c) then c as int - '0' as int else 0
  }

  function DigitChar(d: nat): (c: char)
    requires d < 10
    ensures IsDigit(c) && DigitValue(c) == d
  {
    ('0' as int + d) as char
  }

  /** The digit part of a Python integer literal: digits, where a single
      underscore may stand between two digits. */
  predicate IsDigitBody(d: string) {
    && |d| > 0
    && IsDigit(d[0])
    && IsDigit(d[|d| - 1])
    && forall i :: 0 <= i < |d| ==> DigitBodyAt(d, i)
  }

  /** Position `i` of a digit body: a digit, or an underscore between two digits. */
  predicate DigitBodyAt(d: string, i: int)
    requires 0 <= i < |d|
  {
    IsDigit(d[i]) || (d[i] == '_' && 0 < i < |d| - 1 && IsDigit(d[i - 1]) && IsDigit(d[i + 1]))
  }

  /** The decimal value of the digits of `d`, underscores skipped. */
  function DigitsValue(d: string): nat
    decreases |d|
  {
    if |d| == 0 then 0
    else if d[|d| - 1] == '_' then DigitsValue(d[..|d| - 1])
    else DigitsValue(d[..|d| - 1]) * 10 + DigitValue(d[|d| - 1])
  }

  /** A numeral `int()` accepts once its padding is stripped: one optional
      sign, then a digit body. */
  predicate IsNumeral(t: string) {
    if |t| > 0 && (t[0] == '-' || t[0] == '+') then IsDigitBody(t[1..]) else IsDigitBody(t)
  }

  /** The default of `sys.set_int_max_str_digits`: `int()` and `str()`
      refuse a decimal numeral of more digits than this. */
  const MaxStrDigits: nat := 4300

  /** The number of digits in `t`; signs and underscores are no digits,
      leading zeros are. */
  function DigitCount(t: string): (r: nat)
    ensures r <= |t|
    decreases |t|
  {
    if |t| == 0 then 0 else (if IsDigit(t[0]) then 1 else 0) + DigitCount(t[1..])
  }

  /** The value of a stripped numeral, `None` when it is no numeral or has
      more digits than the limit allows. */
  function ReadNumeral(t: string): (r: Option<int>)
    ensures r.Some? <==> IsNumeral(t) && DigitCount(t) <= MaxStrDigits
    ensures r.Some? ==> IsDigit(t[|t| - 1])
  {
    if DigitCount(t) > MaxStrDigits then None
    else if |t| > 0 && (t[0] == '-' || t[0] == '+') then
      if IsDigitBody(t[1..]) then
        assert t[1..][|t[1..]| - 1] == t[|t| - 1];
        var n: int := DigitsValue(t[1..]);
        Some(if t[0] == '-' then -n else n)
      else None
    else if IsDigitBody(t) then
      Some(DigitsValue(t))
    else None
  }

  /** `int(s)`: surrounding C whitespace (`IsCSpace`) is ignored, one
      optional sign, then a digit body of at most 4300 digits; anything else
      is a `ValueError`, here `None`. */
  function ParseInt(s: string): (r: Option<int>)
    ensures r.Some? <==> IsNumeral(StripOf(s, IsCSpace)) && DigitCount(StripOf(s, IsCSpace)) <= MaxStrDigits
  {
    ReadNumeral(StripOf(s, IsCSpace))
  }

  /** A value `int()` accepts holds only digits, the padding it skips, a
      sign and underscores, and at least one digit. */
  lemma ParseIntChars(s: string)
    requires ParseInt(s).Some?
    ensures forall i :: 0 <= i < |s| ==> NumeralChar(s[i])
    ensures exists i :: 0 <= i < |s| && IsDigit(s[i])
  {
    StrippedNumeral(s);
  }

  /** What may appear in a value `int()` accepts: digits, the padding it
      skips, a sign and the underscore between digits. */
  predicate NumeralChar(c: char) {
    IsDigit(c) || IsCSpace(c) || c == '+' || c == '-' || c == '_'
  }

  lemma NumeralCharsOf(t: string)
    requires IsNumeral(t)
    ensures forall i :: 0 <= i < |t| ==> NumeralChar(t[i])
    ensures IsDigit(t[|t| - 1])
  {
    if |t| > 0 && (t[0] == '-' || t[0] == '+') {
      var d := t[1..];
      assert IsDigitBody(d);
      forall i | 1 <= i < |t| ensures NumeralChar(t[i]) {
        assert t[i] == d[i - 1] && DigitBodyAt(d, i - 1);
      }
      assert t[|t| - 1] == d[|d| - 1];
    } else {
      assert IsDigitBody(t);
      forall i | 0 <= i < |t| ensures NumeralChar(t[i]) {
        assert DigitBodyAt(t, i);
      }
    }
  }

  /** A value whose strip is a numeral holds only numeral characters and
      at least one digit. */
  lemma StrippedNumeral(s: string)
    requires IsNumeral(StripOf(s, IsCSpace))
    ensures forall i :: 0 <= i < |s| ==> NumeralChar(s[i])
    ensures exists i :: 0 <= i < |s| && IsDigit(s[i])
  {
    var a := TrimStart(s, IsCSpace);
    var t := TrimEnd(a, IsCSpace);
    NumeralCharsOf(t);
    forall i | 0 <= i < |s| && !IsCSpace(s[i])
      ensures NumeralChar(s[i])
    {
      var j := i - (|s| - |a|);
      assert 0 <= j < |t| && a[j] == s[i];
      assert t[j] == a[j];
    }
    var k := |s| - |a| + |t| - 1;
    assert s[k] == t[|t| - 1];
  }

  /** `str(n)` for a natural number: decimal digits, no leading zero. */
  function NatToString(n: nat): (r: string)
    ensures |r| > 0
    ensures forall i :: 0 <= i < |r| ==> IsDigit(r[i])
    ensures |r| > 1 ==> r[0] != '0'
    decreases n
  {
    if n < 10 then [DigitChar(n)] else NatToString(n / 10) + [DigitChar(n % 10)]
  }

  /** `str(n)`: a minus sign before the digits of a negative number. */
  function IntToString(n: int): (r: string)
    ensures |r| > 0
  {
    if n < 0 then "-" + NatToString(-n) else NatToString(n)
  }

  lemma {:induction false} NatToStringValue(n: nat)
    ensures DigitsValue(NatToString(n)) == n
    decreases n
  {
    var r := NatToString(n);
    if n >= 10 {
      NatToStringValue(n / 10);
      assert r[..|r| - 1] == NatToString(n / 10);
    }
  }

  /** The digits `str(n)` writes; `str()` raises beyond `MaxStrDigits` of them. */
  function Magnitude(n: int): string {
    NatToString(if n < 0 then -n else n)
  }

  lemma {:induction false} AllDigitsCount(d: string)
    requires forall i :: 0 <= i < |d| ==> IsDigit(d[i])
    ensures DigitCount(d) == |d|
    decreases |d|
  {
    if |d| > 0 {
      AllDigitsCount(d[1..]);
    }
  }

  /** The digits of a natural number form a digit body of that value. */
  lemma NatDigits(m: nat)
    ensures var d := NatToString(m);
            IsDigitBody(d) && DigitsValue(d) == m && DigitCount(d) == |d|
  {
    var d := NatToString(m);
    AllDigitsCount(d);
    NatToStringValue(m);
    forall i | 0 <= i < |d|
      ensures DigitBodyAt(d, i)
    {
    }
  }

  /** An unsigned digit body reads as its value, within the digit limit. */
  lemma ReadBody(d: string)
    requires IsDigitBody(d)
    ensures ReadNumeral(d) == if DigitCount(d) <= MaxStrDigits then Some(DigitsValue(d)) else None
  {
    assert d[0] != '-' && d[0] != '+';
  }

  /** A minus sign before a digit body negates its value, and counts no digit. */
  lemma ReadNegated(d: string)
    requires IsDigitBody(d)
    ensures ReadNumeral("-" + d) == if DigitCount(d) <= MaxStrDigits then Some(-(DigitsValue(d) as int)) else None
  {
    var t := "-" + d;
    assert t[1..] == d;
    assert DigitCount(t) == DigitCount(d);
  }

  /** Printing an integer and reading it back gives the same integer, as
      long as it has at most 4300 digits; a longer one is no integer. */
  lemma ParseIntRoundTrip(n: int)
    ensures |Magnitude(n)| <= MaxStrDigits ==> ParseInt(IntToString(n)) == Some(n)
    ensures |Magnitude(n)| > MaxStrDigits ==> ParseInt(IntToString(n)) == None
  {
    PrintedIsStripped(n);
    if n < 0 {
      NegativeReads(n);
    } else {
      NonNegativeReads(n);
    }
  }

  /** `str(n)` has no padding for `int()` to strip. */
  lemma PrintedIsStripped(n: int)
    ensures ParseInt(IntToString(n)) == ReadNumeral(IntToString(n))
  {
    StripUnchanged(IntToString(n), IsCSpace);
  }

  lemma NonNegativeReads(n: int)
    requires n >= 0
    ensures ReadNumeral(IntToString(n)) == if |Magnitude(n)| <= MaxStrDigits then Some(n) else None
  {
    NatDigits(n);
    ReadBody(IntToString(n));
  }

  lemma NegativeReads(n: int)
    requires n < 0
    ensures ReadNumeral(IntToString(n)) == if |Magnitude(n)| <= MaxStrDigits then Some(n) else None
  {
    var d := NatToString(-n);
    NatDigits(-n);
    assert IntToString(n) == "-" + d;
    ReadNegated(d);
  }

  /** A single digit reads as its value. */
  lemma DigitReads(k: nat)
    requires k < 10
    ensures ParseInt([DigitChar(k)]) == Some(k)
  {
    ParseIntRoundTrip(k);
    assert IntToString(k) == Magnitude(k) == [DigitChar(k)];
  }

  /** More than 4300 digits are no integer, however many of them are leading zeros. */
  lemma TooManyDigitsNoInt(s: string)
    requires forall i :: 0 <= i < |s| ==> IsDigit(s[i])
    requires |s| > MaxStrDigits
    ensures ParseInt(s) == None
  {
    assert IsDigit(s[0]) && IsDigit(s[|s| - 1]);
    StripUnchanged(s, IsCSpace);
    assert StripOf(s, IsCSpace) == s;
    AllDigitsCount(s);
    assert ReadNumeral(s) == None;
  }

  /** A value holding no digit at all never parses. */
  lemma NoDigitNoInt(s: string)
    requires forall i :: 0 <= i < |s| ==> !IsDigit(s[i])
    ensures ParseInt(s) == None
  {
    if ParseInt(s).Some? {
      StrippedNumeral(s);
    }
  }

  /** Whitespace around a value does not change what `int()` reads. */
  lemma ParseIntIgnoresPadding(pre: string, s: string, post: string)
    requires AllOf(pre, IsCSpace) && AllOf(post, IsCSpace)
    ensures ParseInt(pre + s + post) == ParseInt(s)
  {
    StripIgnoresPadding(pre, s, post, IsCSpace);
  }

  /** `int()` skips tab, newline and space around a numeral. */
  lemma PaddedDigitReads()
    ensures ParseInt(" \t5\n") == Some(5)
  {
    var pre, post := [' ', '\t'], ['\n'];
    assert ParseInt("5") == Some(5) by {
      DigitReads(5);
      assert [DigitChar(5)] == "5";
    }
    assert AllOf(pre, IsCSpace) && AllOf(post, IsCSpace);
    assert " \t5\n" == pre + "5" + post;
    ParseIntIgnoresPadding(pre, "5", post);
  }

  /** An information separator such as 0x1C is no padding for `int()`. */
  lemma SeparatorIsNoPadding()
    ensures ParseInt([28 as char, '5']) == None
  {
    StripUnchanged([28 as char, '5'], IsCSpace);
  }
}
