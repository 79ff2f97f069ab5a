/**
 * The handful of Python string operations the import relies on: substring
 * tests, case mapping, `strip()`, `int()` on a string, `str()` on an integer
 * and `re.search(r'(\d{4})', s)`.
 */
module Text {
  import opened Wrappers

  /** `pat in text`: `pat` occurs as a contiguous slice of `text`. */
  predicate Contains(text: string, pat: string)
    decreases |text|
  {
    pat <= text || (text != [] && Contains(text[1..], pat))
  }

  /** `any(p in text for p in pats)`. */
  predicate ContainsAny(text: string, pats: seq<string>)
    decreases |pats|
  {
    pats != [] && (Contains(text, pats[0]) || ContainsAny(text, pats[1..]))
  }

  /** `str.upper()` on ASCII and Latin-1 letters. */
  function UpperChar(c: char): char
  {
    if 'a' <= c <= 'z' || ('\U{E0}' <= c <= '\U{FE}' && c != '\U{F7}') then (c as int - 32) as char else c
  }

  /** `str.lower()` on ASCII and Latin-1 letters. */
  function LowerChar(c: char): char
  {
    if 'A' <= c <= 'Z' || ('\U{C0}' <= c <= '\U{DE}' && c != '\U{D7}') then (c as int + 32) as char else c
  }

  function Upper(s: string): (r: string)
    ensures |r| == |s| && forall i :: 0 <= i < |s| ==> r[i] == UpperChar(s[i])
  {
    seq(|s|, i requires 0 <= i < |s| => UpperChar(s[i]))
  }

  function Lower(s: string): (r: string)
    ensures |r| == |s| && forall i :: 0 <= i < |s| ==> r[i] == LowerChar(s[i])
  {
    seq(|s|, i requires 0 <= i < |s| => LowerChar(s[i]))
  }

  /** The characters `str.isspace()` accepts. */
  predicate IsSpace(c: char)
  {
    || '\t' <= c <= '\r' || '\U{1C}' <= c <= ' ' || c == '\U{85}' || c == '\U{A0}' || c == '\U{1680}'
    || '\U{2000}' <= c <= '\U{200A}' || c == '\U{2028}' || c == '\U{2029}' || c == '\U{202F}'
    || c == '\U{205F}' || c == '\U{3000}'
  }

  function TrimStart(s: string): (r: string)
    ensures |r| <= |s| && r == s[|s| - |r|..]
    ensures r != [] ==> !IsSpace(r[0])
    decreases |s|
  {
    if s != [] && IsSpace(s[0]) then TrimStart(s[1..]) else s
  }

  function TrimEnd(s: string): (r: string)
    ensures |r| <= |s| && r == s[..|r|]
    ensures r != [] ==> !IsSpace(r[|r| - 1])
    decreases |s|
  {
    if s != [] && IsSpace(s[|s| - 1]) then TrimEnd(s[..|s| - 1]) else s
  }

  /** `str.strip()`: leading and trailing white space removed. */
  function Strip(s: string): string
  {
    TrimEnd(TrimStart(s))
  }

  predicate IsDigit(c: char)
  {
    '0' <= c <= '9'
  }

  /** A non-empty run of decimal digits. */
  predicate IsDigits(s: string)
  {
    |s| > 0 && forall i :: 0 <= i < |s| ==> IsDigit(s[i])
  }

  function DigitValue(c: char): nat
    requires IsDigit(c)
  {
    c as int - '0' as int
  }

  /** The number a run of decimal digits denotes. */
  function DigitsValue(s: string): nat
    requires forall i :: 0 <= i < |s| ==> IsDigit(s[i])
    decreases |s|
  {
    if s == [] then 0 else DigitsValue(s[..|s| - 1]) * 10 + DigitValue(s[|s| - 1])
  }

  /** `int(s)` for a string: None where Python raises ValueError. */
  function ParseInt(s: string): Option<int>
  {
    var t := Strip(s);
    if |t| > 0 && (t[0] == '-' || t[0] == '+') then
      if IsDigits(t[1..]) then
        var v: int := DigitsValue(t[1..]);
        Some(if t[0] == '-' then -v else v)
      else None
    else if IsDigits(t) then Some(DigitsValue(t))
    else None
  }

  function DigitChar(d: nat): (c: char)
    requires d < 10
    ensures IsDigit(c) && DigitValue(c) == d
  {
    ('0' as int + d) as char
  }

  function NatToString(n: nat): string
    decreases n
  {
    if n < 10 then [DigitChar(n)] else NatToString(n / 10) + [DigitChar(n % 10)]
  }

  /** `str(n)` for an integer. */
  function IntToString(n: int): string
  {
    if n < 0 then "-" + NatToString(-n) else NatToString(n)
  }

  lemma {:induction false} NatToStringDigits(n: nat)
    ensures IsDigits(NatToString(n))
    ensures DigitsValue(NatToString(n)) == n
    decreases n
  {
    if n >= 10 {
      NatToStringDigits(n / 10);
      var s := NatToString(n);
      assert s[..|s| - 1] == NatToString(n / 10);
    }
  }

  lemma StripOfDigitsOrSign(s: string)
    requires |s| > 0 && !IsSpace(s[0]) && !IsSpace(s[|s| - 1])
    ensures Strip(s) == s
  {
  }

  /** `int(str(n)) == n` for `n >= 0`: the string is a run of digits. */
  lemma ParseNonNegative(n: int)
    requires n >= 0
    ensures ParseInt(IntToString(n)) == Some(n)
  {
    var d := IntToString(n);
    assert d == NatToString(n);
    NatToStringDigits(n);
    StripOfDigitsOrSign(d);
    assert d[0] != '-' && d[0] != '+';
  }

  /** `int(str(n)) == n` for `n < 0`: the string is a minus sign and a run of digits. */
  lemma ParseNegative(n: int)
    requires n < 0
    ensures ParseInt(IntToString(n)) == Some(n)
  {
    var d := NatToString(-n);
    NatToStringDigits(-n);
    var s := IntToString(n);
    assert s == "-" + d;
    assert s[0] == '-' && s[1..] == d && s[|s| - 1] == d[|d| - 1];
    StripOfDigitsOrSign(s);
  }

  /** `int(str(n)) == n`: printing an integer and parsing it back gives the integer. */
  lemma IntToStringRoundTrip(n: int)
    ensures ParseInt(IntToString(n)) == Some(n)
  {
    if n < 0 {
      ParseNegative(n);
    } else {
      ParseNonNegative(n);
    }
  }

  /** `s[i..i+4]` is four decimal digits. */
  predicate DigitWindow(s: string, i: int)
  {
    0 <= i && i + 4 <= |s| && IsDigits(s[i..i + 4])
  }

  /** Where `re.search(r'(\d{4})', s)` matches: the leftmost window of four digits. */
  function FirstDigitWindow(s: string): (r: Option<nat>)
    ensures r.Some? ==> DigitWindow(s, r.value)
    decreases |s|
  {
    if |s| < 4 then None
    else if IsDigits(s[..4]) then Some(0)
    else match FirstDigitWindow(s[1..])
      case None => None
      case Some(i) =>
        assert s[1..][i..i + 4] == s[i + 1..i + 5];
        Some(i + 1)
  }

  /** `int(m.group(1))` for the leftmost run of four digits in `s`, or None when `re.search` finds none. */
  function FourDigitYear(s: string): Option<int>
  {
    match FirstDigitWindow(s)
    case None => None
    case Some(i) => Some(DigitsValue(s[i..i + 4]))
  }

  /** FirstDigitWindow finds a window exactly when there is one, and never skips an earlier one. */
  lemma {:induction false} FirstDigitWindowIsLeftmost(s: string)
    ensures FirstDigitWindow(s).None? <==> forall i :: !DigitWindow(s, i)
    ensures FirstDigitWindow(s).Some? ==> forall j :: 0 <= j < FirstDigitWindow(s).value ==> !DigitWindow(s, j)
    decreases |s|
  {
    if |s| >= 4 && !IsDigits(s[..4]) {
      FirstDigitWindowIsLeftmost(s[1..]);
      forall j | DigitWindow(s, j)
        ensures j >= 1 && DigitWindow(s[1..], j - 1)
      {
        assert s[1..][j - 1..j + 3] == s[j..j + 4];
      }
      forall j | DigitWindow(s[1..], j)
        ensures DigitWindow(s, j + 1)
      {
        assert s[1..][j..j + 4] == s[j + 1..j + 5];
      }
    } else if |s| >= 4 {
      assert DigitWindow(s, 0) by { assert s[0..4] == s[..4]; }
    }
  }

  /** The year token of a file name is the value of its leftmost four-digit window. */
  lemma FourDigitYearSpec(s: string)
    ensures FourDigitYear(s).None? <==> forall i :: !DigitWindow(s, i)
    ensures FourDigitYear(s).Some? ==>
      exists i :: DigitWindow(s, i) && FourDigitYear(s).value == DigitsValue(s[i..i + 4])
              && (forall j :: 0 <= j < i ==> !DigitWindow(s, j))
  {
    FirstDigitWindowIsLeftmost(s);
  }
}
