/**
 * The pieces of Python's `str` behaviour that the analysis scripts rely on:
 * `strip`, `startswith`, substring `in`, `split`, `readlines`, `int(...)`,
 * `int(float(...))` and `str(int)`, over strings as sequences of characters.
 */
module Text {
  import opened Results

  /** Python's `str.isspace` for one character. */
  predicate IsSpace(c: char) {
    || c == ' ' || c == '\t' || c == '\n' || c == '\r' || c == '\U{B}' || c == '\U{C}'
    || ('\U{1C}' <= c <= '\U{1F}') || c == '\U{85}' || c == '\U{A0}' || c == '\U{1680}'
    || ('\U{2000}' <= c <= '\U{200A}') || c == '\U{2028}' || c == '\U{2029}'
    || c == '\U{202F}' || c == '\U{205F}' || c == '\U{3000}'
  }

  predicate IsDigit(c: char) {
    '0' <= c <= '9'
  }

  predicate AllDigits(s: string) {
    forall k :: 0 <= k < |s| ==> IsDigit(s[k])
  }

  // ---------------------------------------------------------------- strip

  function StripLeft(s: string): (r: string)
    ensures |r| <= |s| && r == s[|s| - |r|..]
    ensures r == [] || !IsSpace(r[0])
    ensures forall k :: 0 <= k < |s| - |r| ==> IsSpace(s[k])
  {
    if |s| > 0 && IsSpace(s[0]) then StripLeft(s[1..]) else s
  }

  function StripRight(s: string): (r: string)
    ensures |r| <= |s| && r == s[..|r|]
    ensures r == [] || !IsSpace(r[|r| - 1])
    ensures forall k :: |r| <= k < |s| ==> IsSpace(s[k])
  {
    if |s| > 0 && IsSpace(s[|s| - 1]) then StripRight(s[..|s| - 1]) else s
  }

  /** `s.strip()`: `s` without its leading and trailing whitespace. */
  function Strip(s: string): (r: string)
    ensures |r| <= |s|
    ensures r == [] || (!IsSpace(r[0]) && !IsSpace(r[|r| - 1]))
  {
    StripRight(StripLeft(s))
  }

  /** A string whose ends are not whitespace is its own strip. */
  lemma StripFixed(s: string)
    requires s == [] || (!IsSpace(s[0]) && !IsSpace(s[|s| - 1]))
    ensures Strip(s) == s
  {
  }

  /** `strip` only removes whitespace: every other character of `s` survives it. */
  lemma StripKeeps(s: string, c: char)
    requires c in s && !IsSpace(c)
    ensures c in Strip(s)
  {
    var l := StripLeft(s);
    var k :| 0 <= k < |s| && s[k] == c;
    var m := k - (|s| - |l|);
    assert 0 <= m && l[m] == c;
    var r := StripRight(l);
    assert m < |r| && r[m] == c;
  }

  /** A trailing line break is removed by `strip`. */
  lemma {:induction false} StripLineBreak(s: string)
    requires s == [] || (!IsSpace(s[0]) && !IsSpace(s[|s| - 1]))
    ensures Strip(s + "\n") == s
  {
    if s == [] {
      assert StripLeft("\n") == StripLeft("");
    } else {
      assert StripLeft(s + "\n") == s + "\n";
      assert (s + "\n")[..|s + "\n"| - 1] == s;
    }
  }

  // ---------------------------------------------------------- substrings

  /** `s.startswith(p)`. */
  predicate StartsWith(s: string, p: string) {
    |p| <= |s| && s[..|p|] == p
  }

  /** `p in s` for a string `p`. */
  predicate Contains(s: string, p: string)
    decreases |s|
  {
    StartsWith(s, p) || (|s| > 0 && Contains(s[1..], p))
  }

  /** A pattern holding a character that `s` lacks does not occur in `s`. */
  lemma {:induction false} NotContainsMissingChar(s: string, p: string, c: char)
    requires c in p && c !in s
    ensures !Contains(s, p)
    decreases |s|
  {
    if |p| <= |s| {
      var k :| 0 <= k < |p| && p[k] == c;
      assert s[..|p|][k] != p[k];
    }
    if |s| > 0 {
      assert forall x :: x in s[1..] ==> x in s;
      NotContainsMissingChar(s[1..], p, c);
    }
  }

  /** A string contains every string it starts with. */
  lemma ContainsPrefix(s: string, p: string)
    requires StartsWith(s, p)
    ensures Contains(s, p)
  {
  }

  /** The position of the first `c` in `s`. */
  function IndexOf(s: string, c: char): (k: nat)
    requires c in s
    ensures k < |s| && s[k] == c && c !in s[..k]
  {
    if s[0] == c then 0 else IndexOf(s[1..], c) + 1
  }

  /** The part of `s` before its first `c` (all of `s` when there is none). */
  function UpTo(s: string, c: char): (r: string)
    ensures |r| <= |s| && r == s[..|r|] && c !in r
    ensures |r| < |s| ==> s[|r|] == c
  {
    if c in s then s[..IndexOf(s, c)] else s
  }

  /** `s.split(sep)[1]` for a one-character separator: the text between the first
      and the second `sep`; `None` where Python raises `IndexError`. */
  function FieldAfter(s: string, sep: char): (r: Option<string>)
    ensures r.None? <==> sep !in s
    ensures r.Some? ==> sep !in r.value
  {
    if sep in s then Some(UpTo(s[IndexOf(s, sep) + 1..], sep)) else None
  }

  // ------------------------------------------------------------- numbers

  function DigitValue(c: char): (d: nat)
    requires IsDigit(c)
    ensures d < 10
  {
    c as int - '0' as int
  }

  function DigitChar(d: nat): (c: char)
    requires d < 10
    ensures IsDigit(c) && DigitValue(c) == d
  {
    ('0' as int + d) as char
  }

  /** The value of a string of decimal digits, most significant first. */
  function DigitsValue(s: string): nat
    requires AllDigits(s)
  {
    if |s| == 0 then 0 else DigitsValue(s[..|s| - 1]) * 10 + DigitValue(s[|s| - 1])
  }

  /** Decimal rendering of a natural number, without leading zeros. */
  function NatToString(n: nat): (r: string)
    ensures |r| >= 1 && AllDigits(r)
    ensures |r| > 1 ==> r[0] != '0'
  {
    if n < 10 then [DigitChar(n)] else NatToString(n / 10) + [DigitChar(n % 10)]
  }

  /** `str(i)` for an integer. */
  function IntToString(i: int): string {
    if i < 0 then "-" + NatToString(-i) else NatToString(i)
  }

  /** `str(i)` is a non-empty run of digits, after a minus sign for a negative `i`. */
  lemma IntToStringShape(i: int)
    ensures |IntToString(i)| >= 1
    ensures forall k :: 0 <= k < |IntToString(i)| ==>
      IsDigit(IntToString(i)[k]) || (k == 0 && i < 0 && IntToString(i)[k] == '-')
    ensures !IsSpace(IntToString(i)[0]) && !IsSpace(IntToString(i)[|IntToString(i)| - 1])
  {
  }

  lemma {:induction false} NatToStringValue(n: nat)
    ensures DigitsValue(NatToString(n)) == n
    decreases n
  {
    if n >= 10 {
      var r := NatToString(n);
      NatToStringValue(n / 10);
      assert r[..|r| - 1] == NatToString(n / 10);
    }
  }

  /** Python's `int(t)` on text: optional surrounding whitespace, an optional sign
      and at least one decimal digit; `None` where Python raises `ValueError`. */
  function ParseInt(t: string): Option<int> {
    ParseSignedDigits(Strip(t))
  }

  /** An optional sign followed by at least one decimal digit. */
  function ParseSignedDigits(u: string): Option<int> {
    if |u| > 0 && (u[0] == '-' || u[0] == '+') then
      if |u| > 1 && AllDigits(u[1..]) then
        var v: int := DigitsValue(u[1..]);
        Some(if u[0] == '-' then -v else v)
      else None
    else if |u| > 0 && AllDigits(u) then Some(DigitsValue(u))
    else None
  }

  /** Python's `int(float(t))` for decimal text without an exponent: an optional sign,
      digits with at most one decimal point, at least one digit; the fraction is
      truncated toward zero. */
  function ParseFloatAsInt(t: string): Option<int> {
    ParseDecimalAsInt(Strip(t))
  }

  /** An optional sign, then digits with at most one decimal point and at least one
      digit, truncated to its whole part. */
  function ParseDecimalAsInt(u: string): Option<int> {
    var body := if |u| > 0 && (u[0] == '-' || u[0] == '+') then u[1..] else u;
    var whole := UpTo(body, '.');
    var frac := if |whole| < |body| then body[|whole| + 1..] else "";
    if AllDigits(whole) && AllDigits(frac) && |whole| + |frac| > 0 then
      var v: int := DigitsValue(whole);
      Some(if |u| > 0 && u[0] == '-' then -v else v)
    else None
  }

  /** A digit string, with or without a minus sign, is its own strip. */
  lemma StripDigits(d: string)
    requires |d| >= 1 && AllDigits(d)
    ensures Strip(d) == d && Strip("-" + d) == "-" + d
  {
    assert IsDigit(d[0]) && IsDigit(d[|d| - 1]);
    StripFixed(d);
    assert ("-" + d)[|"-" + d| - 1] == d[|d| - 1];
    StripFixed("-" + d);
  }

  /** `int` reads a digit string, with and without a minus sign. */
  lemma SignedDigits(d: string)
    requires |d| >= 1 && AllDigits(d)
    ensures ParseSignedDigits(d) == Some(DigitsValue(d))
    ensures ParseSignedDigits("-" + d) == Some(-(DigitsValue(d) as int))
  {
    assert d[0] != '-' && d[0] != '+';
    assert ("-" + d)[1..] == d;
  }

  /** `int(float(...))` reads an optional minus sign and a digit string. */
  lemma WholeNumber(u: string)
    requires |u| >= 1
    requires var body := if u[0] == '-' then u[1..] else u; |body| >= 1 && AllDigits(body)
    ensures var body := if u[0] == '-' then u[1..] else u;
      ParseDecimalAsInt(u) == Some(if u[0] == '-' then -(DigitsValue(body) as int) else DigitsValue(body))
  {
    var body := if u[0] == '-' then u[1..] else u;
    assert u[0] != '+';
    assert '.' !in body;
    assert UpTo(body, '.') == body;
  }

  /** `int(str(i)) == i`. */
  lemma ParseIntRoundTrip(i: int)
    ensures ParseInt(IntToString(i)) == Some(i)
  {
    var n: nat := if i < 0 then -i else i;
    NatToStringValue(n);
    StripDigits(NatToString(n));
    SignedDigits(NatToString(n));
  }

  /** `int(float(str(i))) == i`. */
  lemma ParseFloatAsIntRoundTrip(i: int)
    ensures ParseFloatAsInt(IntToString(i)) == Some(i)
  {
    var n: nat := if i < 0 then -i else i;
    var d := NatToString(n);
    NatToStringValue(n);
    StripDigits(d);
    var u := IntToString(i);
    if i < 0 {
      assert u[0] == '-' && u[1..] == d;
    } else {
      assert u == d && u[0] != '-';
    }
    WholeNumber(u);
  }

  // --------------------------------------------------------------- words

  /** The leading run of non-whitespace characters of `s`. */
  function WordPrefix(s: string): (w: string)
    ensures |w| <= |s| && w == s[..|w|]
    ensures forall k :: 0 <= k < |w| ==> !IsSpace(w[k])
    ensures |w| < |s| ==> IsSpace(s[|w|])
  {
    if |s| == 0 || IsSpace(s[0]) then "" else [s[0]] + WordPrefix(s[1..])
  }

  /** `s.split()`: the maximal runs of non-whitespace characters, in order. */
  function Words(s: string): (r: seq<string>)
    ensures forall k :: 0 <= k < |r| ==> |r[k]| > 0
    decreases |s|
  {
    if |s| == 0 then []
    else if IsSpace(s[0]) then Words(s[1..])
    else
      var w := WordPrefix(s);
      [w] + Words(s[|w|..])
  }

  // --------------------------------------------------------------- lines

  /** The first line of `text`, with its line break when it has one. */
  function FirstLine(text: string): (l: string)
    requires |text| > 0
    ensures 0 < |l| <= |text| && l == text[..|l|]
  {
    if '\n' in text then text[..IndexOf(text, '\n') + 1] else text
  }

  /** `readlines()` on a file holding `text`: the lines, each with its line break. */
  function ReadLines(text: string): seq<string>
    decreases |text|
  {
    if |text| == 0 then [] else
      var l := FirstLine(text);
      [l] + ReadLines(text[|l|..])
  }

  /** A line ending in a line break is read back as one line. */
  lemma ReadLinesCons(l: string, rest: string)
    requires '\n' !in l
    ensures ReadLines(l + "\n" + rest) == [l + "\n"] + ReadLines(rest)
  {
    var text := l + "\n" + rest;
    assert text[|l|] == '\n';
    assert text[..|l|] == l;
    assert IndexOf(text, '\n') == |l|;
    assert text[|l| + 1..] == rest;
  }

  /** `template.format(*args)` for a template whose literal pieces, around its
      `{}` slots, are `pieces` (with `{{` and `}}` already read as braces). */
  function Format(pieces: seq<string>, args: seq<string>): string
    requires |pieces| == |args| + 1
  {
    if |args| == 0 then pieces[0]
    else Format(pieces[..|args|], args[..|args| - 1]) + args[|args| - 1] + pieces[|args|]
  }

  /** `writelines(ls)`: the strings written one after the other. */
  function Concat(ls: seq<string>): (r: string)
  {
    if |ls| == 0 then "" else ls[0] + Concat(ls[1..])
  }

  lemma {:induction false} ConcatAppend(a: seq<string>, b: seq<string>)
    ensures Concat(a + b) == Concat(a) + Concat(b)
  {
    if |a| > 0 {
      assert (a + b)[1..] == a[1..] + b;
      ConcatAppend(a[1..], b);
    } else {
      assert a + b == b;
    }
  }
}
