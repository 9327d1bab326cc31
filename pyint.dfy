/** Python's `int(s)` for a string `s` in base 10: surrounding whitespace is
    ignored, an optional `+` or `-` sign is followed by decimal digits, and a
    single underscore may separate two digits; more digits than the default
    conversion limit of 4300 are refused. Anything else is a `ValueError`,
    modelled as `None`. */
module PyInt {
  import opened Wrappers

  predicate IsDigit(c: char)
  {
    '0' <= c <= '9'
  }

  /** The whitespace `int()` strips: the ASCII blanks space, tab, line feed,
      vertical tab, form feed and carriage return, and the non-ASCII characters
      for which `str.isspace()` holds (which `int()` first turns into spaces).
      The ASCII separators U+001C to U+001F are not stripped. */
  predicate IsSpace(c: char)
  {
    || c == ' ' || '\t' <= c <= '\r'
    || c == '\U{85}' || c == '\U{A0}' || c == '\U{1680}'
    || '\U{2000}' <= c <= '\U{200A}' || c == '\U{2028}' || c == '\U{2029}'
    || c == '\U{202F}' || c == '\U{205F}' || c == '\U{3000}'
  }

  /** Leading whitespace removed: what is left is a suffix of `s`. */
  function LStrip(s: string): (r: string)
    ensures |r| <= |s| && r == s[|s| - |r|..]
    ensures r == [] || !IsSpace(r[0])
  {
    if |s| > 0 && IsSpace(s[0]) then LStrip(s[1..]) else s
  }

  /** Trailing whitespace removed: what is left is a prefix of `s`. */
  function RStrip(s: string): (r: string)
    ensures |r| <= |s| && r == s[..|r|]
    ensures r == [] || !IsSpace(r[|r| - 1])
  {
    if |s| > 0 && IsSpace(s[|s| - 1]) then RStrip(s[..|s| - 1]) else s
  }

  function Strip(s: string): string
  {
    RStrip(LStrip(s))
  }

  /** The digit part of an integer literal: digits, each underscore between two digits. */
  predicate DigitBody(d: string)
  {
    && |d| > 0 && IsDigit(d[0]) && IsDigit(d[|d| - 1])
    && (forall i :: 0 <= i < |d| ==> IsDigit(d[i]) || d[i] == '_')
    && (forall i :: 0 <= i < |d| - 1 ==> d[i] == '_' ==> d[i + 1] != '_')
  }

  /** The decimal value of the digits of `d`, underscores skipped. */
  function DigitsValue(d: string): nat
  {
    if d == [] then 0
    else
      var c := d[|d| - 1];
      if IsDigit(c) then DigitsValue(d[..|d| - 1]) * 10 + (c as int - '0' as int)
      else DigitsValue(d[..|d| - 1])
  }

  /** The default of `sys.get_int_max_str_digits()`. */
  const MaxStrDigits: nat := 4300

  /** The number of decimal digits in `s`. */
  function DigitCount(s: string): nat
  {
    if s == [] then 0
    else DigitCount(s[..|s| - 1]) + (if IsDigit(s[|s| - 1]) then 1 else 0)
  }

  /** `int(t)` for a `t` without surrounding whitespace: an accepted `t` is
      not empty, has at most 4300 digits, and its value is negative only after
      a `-` sign and positive only without one. */
  function ParseStripped(t: string): (r: Option<int>)
    ensures r.Some? ==> |t| > 0 && DigitCount(t) <= MaxStrDigits
    ensures r.Some? && r.value < 0 ==> t[0] == '-'
    ensures r.Some? && r.value > 0 ==> t[0] != '-'
  {
    if DigitCount(t) > MaxStrDigits then None
    else if |t| > 0 && (t[0] == '+' || t[0] == '-') then
      if DigitBody(t[1..]) then
        var v: int := DigitsValue(t[1..]);
        Some(if t[0] == '-' then -v else v)
      else None
    else if DigitBody(t) then Some(DigitsValue(t))
    else None
  }

  /** `int(s)`: surrounding whitespace is ignored. */
  function ParseInt(s: string): Option<int>
  {
    ParseStripped(Strip(s))
  }

  function DigitChar(k: nat): (c: char)
    requires k < 10
    ensures IsDigit(c) && c as int - '0' as int == k
  {
    ('0' as int + k) as char
  }

  /** The decimal text of a non-negative `n`. */
  function NatToString(n: nat): (r: string)
    ensures |r| > 0
    ensures forall i :: 0 <= i < |r| ==> IsDigit(r[i])
  {
    if n < 10 then [DigitChar(n)] else NatToString(n / 10) + [DigitChar(n % 10)]
  }

  /** The decimal text of `n`, with a `-` sign when it is negative. */
  function IntToString(n: int): (r: string)
    ensures |r| > 0 && IsDigit(r[|r| - 1])
    ensures r[0] == '-' || IsDigit(r[0])
  {
    if n < 0 then "-" + NatToString(-n) else NatToString(n)
  }

  lemma {:induction false} NatToStringValue(n: nat)
    ensures DigitsValue(NatToString(n)) == n
  {
    var r := NatToString(n);
    if n >= 10 {
      NatToStringValue(n / 10);
      assert r[..|r| - 1] == NatToString(n / 10);
    }
  }

  lemma StripUnpadded(s: string)
    requires |s| > 0 && !IsSpace(s[0]) && !IsSpace(s[|s| - 1])
    ensures Strip(s) == s
  {
  }

  /** A string of digits counts one digit per character, and a leading
      non-digit does not count. */
  lemma {:induction false} DigitCountOf(pre: string, d: string)
    requires forall i :: 0 <= i < |pre| ==> !IsDigit(pre[i])
    requires forall i :: 0 <= i < |d| ==> IsDigit(d[i])
    ensures DigitCount(pre + d) == |d|
    decreases |pre| + |d|
  {
    var s := pre + d;
    if s != [] {
      assert s[..|s| - 1] == if d == [] then pre[..|pre| - 1] else pre + d[..|d| - 1];
      if d == [] {
        assert s == pre && s[..|s| - 1] == pre[..|pre| - 1] + d;
        DigitCountOf(pre[..|pre| - 1], d);
      } else {
        DigitCountOf(pre, d[..|d| - 1]);
      }
    }
  }

  /** The number of digits in the decimal text of `n`. */
  function Width(n: int): nat
  {
    |NatToString(if n < 0 then -n else n)|
  }

  lemma IntToStringDigits(n: int)
    ensures DigitCount(IntToString(n)) == Width(n)
  {
    if n < 0 {
      DigitCountOf("-", NatToString(-n));
    } else {
      DigitCountOf("", NatToString(n));
      assert "" + NatToString(n) == NatToString(n);
    }
  }

  /** Parsing the decimal text of `n` gives back `n`, for up to 4300 digits. */
  lemma ParseIntRoundTrip(n: int)
    requires Width(n) <= MaxStrDigits
    ensures ParseInt(IntToString(n)) == Some(n)
  {
    var r := IntToString(n);
    StripUnpadded(r);
    assert ParseInt(r) == ParseStripped(r);
    IntToStringDigits(n);
    if n < 0 {
      assert r[1..] == NatToString(-n);
      NatToStringValue(-n);
    } else {
      NatToStringValue(n);
    }
  }

  /** Whatever `int()` accepts holds at least one decimal digit. */
  lemma ParseIntNeedsDigit(s: string)
    requires ParseInt(s).Some?
    ensures exists i :: 0 <= i < |s| && IsDigit(s[i])
  {
    var l := LStrip(s);
    var t := RStrip(l);
    assert t == s[|s| - |l|..][..|t|];
    var j := if |t| > 0 && (t[0] == '+' || t[0] == '-') then |t| - 1 else 0;
    assert IsDigit(t[j]);
    assert s[|s| - |l| + j] == t[j];
  }

  /** The decimal text of an integer wider than 4300 digits is refused by `int()`. */
  lemma ParseIntTooWide(n: int)
    requires Width(n) > MaxStrDigits
    ensures ParseInt(IntToString(n)) == None
  {
    StripUnpadded(IntToString(n));
    IntToStringDigits(n);
  }

  /** A string that starts with one of the ASCII separators U+001C to U+001F
      is refused: `int()` does not strip them. */
  lemma SeparatorNotStripped(s: string)
    requires |s| > 0 && '\U{1C}' <= s[0] <= '\U{1F}'
    ensures ParseInt(s) == None
  {
    assert !IsSpace(s[0]);
    assert LStrip(s) == s;
    var t := RStrip(s);
    if t != [] {
      assert t[0] == s[0];
      RefusedStart(t);
    }
  }

  lemma RefusedStart(t: string)
    requires |t| > 0 && !IsDigit(t[0]) && t[0] != '+' && t[0] != '-'
    ensures ParseStripped(t) == None
  {
  }
}
