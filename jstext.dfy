/** The parts of JavaScript's string and number semantics that the import and
    listing code leans on: white space as `\s` and `String.prototype.trim`
    see it, `parseInt(s, 10)`, `Number(s)` on integer literals, `String(n)`
    for integers, `toLowerCase` on ASCII letters and the date-separator
    split `s.split(/[\/-]/)`. */
module JsText {
  import opened Wrappers

  /** ECMAScript WhiteSpace and LineTerminator code points: the class `\s`
      and the characters `trim` removes. */
  predicate IsSpace(c: char) {
    c == '\t' || c == '\n' || c == '\U{000B}' || c == '\U{000C}' || c == '\r' || c == ' '
    || c == '\U{00A0}' || c == '\U{1680}' || ('\U{2000}' <= c <= '\U{200A}')
    || c == '\U{2028}' || c == '\U{2029}' || c == '\U{202F}' || c == '\U{205F}'
    || c == '\U{3000}' || c == '\U{FEFF}'
  }

  predicate AllSpaces(s: string) {
    forall i :: 0 <= i < |s| ==> IsSpace(s[i])
  }

  /** `s.trimStart()`: the suffix of `s` after its leading white space. */
  function TrimStart(s: string): (r: string)
    ensures s != [] && IsSpace(s[0]) ==> |r| < |s|
    ensures |r| <= |s| && r == s[|s| - |r|..]
    ensures AllSpaces(s[..|s| - |r|])
    ensures r == [] || !IsSpace(r[0])
  {
    if s != [] && IsSpace(s[0]) then
      var r := TrimStart(s[1..]);
      SpaceThenSuffix(s, r);
      r
    else s
  }

  /** A suffix of `s[1..]` after white space, when `s[0]` is white space too,
      is a suffix of `s` after white space. */
  lemma SpaceThenSuffix(s: string, r: string)
    requires s != [] && IsSpace(s[0])
    requires |r| <= |s| - 1 && r == s[1..][|s| - 1 - |r|..] && AllSpaces(s[1..][..|s| - 1 - |r|])
    ensures r == s[|s| - |r|..] && AllSpaces(s[..|s| - |r|])
  {
    var t, k := s[1..], |s| - |r|;
    forall i | 0 <= i < k
      ensures IsSpace(s[i])
    {
      if i > 0 {
        assert s[i] == t[..k - 1][i - 1];
      }
    }
  }

  /** `s.trimEnd()`: the prefix of `s` before its trailing white space. */
  function TrimEnd(s: string): (r: string)
    ensures |r| <= |s| && r == s[..|r|]
    ensures AllSpaces(s[|r|..])
    ensures r == [] || !IsSpace(r[|r| - 1])
  {
    if s != [] && IsSpace(s[|s| - 1]) then
      var r := TrimEnd(s[..|s| - 1]);
      PrefixThenSpace(s, r);
      r
    else s
  }

  /** A prefix of `s[..|s| - 1]` before white space, when the last character
      of `s` is white space too, is a prefix of `s` before white space. */
  lemma PrefixThenSpace(s: string, r: string)
    requires s != [] && IsSpace(s[|s| - 1])
    requires |r| <= |s| - 1 && r == s[..|s| - 1][..|r|] && AllSpaces(s[..|s| - 1][|r|..])
    ensures r == s[..|r|] && AllSpaces(s[|r|..])
  {
    var t := s[..|s| - 1];
    forall j | 0 <= j < |s| - |r|
      ensures IsSpace(s[|r|..][j])
    {
      if |r| + j < |s| - 1 {
        assert s[|r|..][j] == t[|r|..][j];
      }
    }
  }

  /** `r` is `s` less a prefix and a suffix of white space. */
  predicate Infix(s: string, r: string) {
    exists k :: 0 <= k <= |s| - |r| && r == s[k..k + |r|] && AllSpaces(s[..k]) && AllSpaces(s[k + |r|..])
  }

  /** `s.trim()`: `s` less its leading and trailing white space. The result
      is the part of `s` between a white-space prefix and a white-space
      suffix, and has no white space at either end, which fixes it. */
  function Trim(s: string): (r: string)
    ensures r == [] || (!IsSpace(r[0]) && !IsSpace(r[|r| - 1]))
    ensures |r| <= |s|
    ensures Infix(s, r)
  {
    var t := TrimStart(s);
    var r := TrimEnd(t);
    TrimInfix(s, t, r);
    r
  }

  /** The prefix `r` of a suffix `t` of `s`, with white space cut off on
      both sides, sits in `s` between those two runs of white space and has
      no white space at either end. */
  lemma TrimInfix(s: string, t: string, r: string)
    requires |t| <= |s| && t == s[|s| - |t|..] && AllSpaces(s[..|s| - |t|])
    requires t == [] || !IsSpace(t[0])
    requires |r| <= |t| && r == t[..|r|] && AllSpaces(t[|r|..])
    requires r == [] || !IsSpace(r[|r| - 1])
    ensures r == [] || (!IsSpace(r[0]) && !IsSpace(r[|r| - 1]))
    ensures Infix(s, r)
  {
    var k := |s| - |t|;
    if r != [] {
      assert r[0] == t[0];
    }
    assert t[|r|..] == s[k + |r|..];
    assert 0 <= k <= |s| - |r| && r == s[k..k + |r|] && AllSpaces(s[..k]) && AllSpaces(s[k + |r|..]);
  }

  /** Trimming a string that has no white space at either end changes nothing. */
  lemma TrimOfTrimmed(s: string)
    requires s == [] || (!IsSpace(s[0]) && !IsSpace(s[|s| - 1]))
    ensures Trim(s) == s
  {
  }

  /** Trimming leaves nothing exactly when the text is all white space. */
  lemma TrimEmptyIffSpaces(s: string)
    ensures Trim(s) == [] <==> AllSpaces(s)
  {
    var t := TrimStart(s);
    assert s[..|s|] == s;
    if t != [] {
      assert t[0] == s[|s| - |t|];
      assert AllSpaces(t[|TrimEnd(t)|..]);
    }
  }

  lemma TrimIdempotent(s: string)
    ensures Trim(Trim(s)) == Trim(s)
  {
    TrimOfTrimmed(Trim(s));
  }

  /** White space in front of any text is dropped by `trimStart`. */
  lemma {:induction false} TrimStartSpaces(sp: string, s: string)
    requires AllSpaces(sp)
    ensures TrimStart(sp + s) == TrimStart(s)
    decreases |sp|
  {
    if sp == [] {
      assert sp + s == s;
    } else {
      assert (sp + s)[0] == sp[0] && (sp + s)[1..] == sp[1..] + s;
      TrimStartSpaces(sp[1..], s);
    }
  }

  /** Text of white space only trims to nothing. */
  lemma TrimStartOfSpaces(x: string)
    requires AllSpaces(x)
    ensures TrimStart(x) == []
  {
  }

  /** `trimStart` of text that is not all white space stops inside it. */
  lemma {:induction false} TrimStartText(x: string, s: string)
    requires !AllSpaces(x)
    ensures TrimStart(x + s) == TrimStart(x) + s
    decreases |x|
  {
    assert (x + s)[0] == x[0];
    if IsSpace(x[0]) {
      assert (x + s)[1..] == x[1..] + s;
      assert !AllSpaces(x[1..]) by {
        var i :| 0 <= i < |x| && !IsSpace(x[i]);
        assert x[1..][i - 1] == x[i];
      }
      TrimStartText(x[1..], s);
    }
  }

  /** Text that is not all white space but ends in white space is not all
      white space without that last character. */
  lemma TextBeforeSpace(x: string)
    requires !AllSpaces(x) && x != [] && IsSpace(x[|x| - 1])
    ensures !AllSpaces(x[..|x| - 1])
  {
    var i :| 0 <= i < |x| && !IsSpace(x[i]);
    assert x[..|x| - 1][i] == x[i];
  }

  /** White space after any text is dropped by `trimEnd`. */
  lemma {:induction false} TrimEndSpaces(s: string, sp: string)
    requires AllSpaces(sp)
    ensures TrimEnd(s + sp) == TrimEnd(s)
    decreases |sp|
  {
    if sp == [] {
      assert s + sp == s;
    } else {
      var t := s + sp;
      assert t[|t| - 1] == sp[|sp| - 1];
      assert t[..|t| - 1] == s + sp[..|sp| - 1];
      TrimEndSpaces(s, sp[..|sp| - 1]);
    }
  }

  /** `trimEnd` of text that is not all white space stops inside it. */
  lemma {:induction false} TrimEndText(s: string, x: string)
    requires !AllSpaces(x)
    ensures TrimEnd(s + x) == s + TrimEnd(x)
    decreases |x|
  {
    var t := s + x;
    assert t[|t| - 1] == x[|x| - 1];
    if IsSpace(x[|x| - 1]) {
      assert t[..|t| - 1] == s + x[..|x| - 1];
      TextBeforeSpace(x);
      TrimEndText(s, x[..|x| - 1]);
    }
  }

  predicate IsDigit(c: char) {
    '0' <= c <= '9'
  }

  predicate AllDigits(s: string) {
    forall i :: 0 <= i < |s| ==> IsDigit(s[i])
  }

  function DigitValue(c: char): int
    requires IsDigit(c)
  {
    c as int - '0' as int
  }

  function DigitChar(d: int): (c: char)
    requires 0 <= d < 10
    ensures IsDigit(c) && DigitValue(c) == d
  {
    (d + '0' as int) as char
  }

  /** The value of a string of decimal digits, most significant first. */
  function DigitsValue(s: string): (n: nat)
    requires AllDigits(s)
  {
    if s == [] then 0 else DigitsValue(s[..|s| - 1]) * 10 + DigitValue(s[|s| - 1])
  }

  lemma DigitsValueOfTwo(s: string)
    requires |s| == 2 && AllDigits(s)
    ensures DigitsValue(s) == 10 * DigitValue(s[0]) + DigitValue(s[1])
  {
    var a := s[..1];
    assert a[..0] == [] && a[0] == s[0];
    assert DigitsValue(a) == DigitValue(s[0]);
  }

  lemma DigitsValueOfFour(s: string)
    requires |s| == 4 && AllDigits(s)
    ensures DigitsValue(s) == 1000 * DigitValue(s[0]) + 100 * DigitValue(s[1]) + 10 * DigitValue(s[2]) + DigitValue(s[3])
  {
    assert s[..3][..2] == s[..2];
    DigitsValueOfTwo(s[..2]);
  }

  /** The longest prefix of `s` made of decimal digits. */
  function DigitPrefix(s: string): (r: string)
    ensures AllDigits(r) && |r| <= |s| && r == s[..|r|]
    ensures |r| < |s| ==> !IsDigit(s[|r|])
  {
    if s != [] && IsDigit(s[0]) then [s[0]] + DigitPrefix(s[1..]) else []
  }

  lemma DigitPrefixOfDigits(s: string)
    ensures AllDigits(s) ==> DigitPrefix(s) == s
  {
  }

  /** `parseInt(s, 10)`: leading white space skipped, an optional sign, then the
      longest run of decimal digits; `None` stands for NaN (no digit follows).
      A nonempty run of digits parses to its value, and text without a digit
      is NaN. */
  function ParseInt(s: string): (r: Option<int>)
    ensures AllDigits(s) && s != [] ==> r == Some(DigitsValue(s))
    ensures (forall i :: 0 <= i < |s| ==> !IsDigit(s[i])) ==> r.None?
  {
    var t := TrimStart(s);
    var body := if t != [] && (t[0] == '-' || t[0] == '+') then t[1..] else t;
    var digits := DigitPrefix(body);
    assert AllDigits(s) && s != [] ==> t == s && digits == s by {
      if AllDigits(s) && s != [] {
        assert IsDigit(s[0]) && !IsSpace(s[0]);
        DigitPrefixOfDigits(s);
      }
    }
    if digits == [] then None
    else if t[0] == '-' then Some(-(DigitsValue(digits) as int))
    else Some(DigitsValue(digits))
  }

  /** The decimal digits of `n`, without leading zeros (`String(n)` for n >= 0). */
  function NatToString(n: nat): (s: string)
    ensures s != [] && AllDigits(s)
    ensures DigitsValue(s) == n
    ensures |s| > 1 ==> s[0] != '0'
    ensures n < 10 ==> |s| == 1
    ensures n < 100 ==> |s| <= 2
    ensures n < 10000 ==> |s| <= 4
    ensures n < 1000000 ==> |s| <= 6
  {
    if n < 10 then [DigitChar(n)]
    else
      var s := NatToString(n / 10) + [DigitChar(n % 10)];
      assert s[..|s| - 1] == NatToString(n / 10);
      s
  }

  /** `String(n)` for an integer `n` (decimal, with a leading '-' when negative). */
  function IntToString(n: int): (s: string)
    ensures s != [] && !IsSpace(s[0]) && !IsSpace(s[|s| - 1])
  {
    if n < 0 then "-" + NatToString(-n) else NatToString(n)
  }

  /** `Number(s)` for a string: after trimming, the empty string is 0 and an
      optionally signed run of decimal digits is its value; `None` stands for
      NaN. */
  function StringToNumber(s: string): (r: Option<int>)
    ensures Trim(s) == [] ==> r == Some(0)
    ensures AllDigits(Trim(s)) ==> r == Some(DigitsValue(Trim(s)))
  {
    var t := Trim(s);
    if t == [] then Some(0)
    else if |t| > 1 && t[0] == '-' && AllDigits(t[1..]) then Some(-(DigitsValue(t[1..]) as int))
    else if |t| > 1 && t[0] == '+' && AllDigits(t[1..]) then Some(DigitsValue(t[1..]))
    else if AllDigits(t) then Some(DigitsValue(t))
    else None
  }

  lemma NegativeLiteral(d: string)
    requires d != [] && AllDigits(d)
    ensures StringToNumber("-" + d) == Some(-(DigitsValue(d) as int))
  {
    var t := "-" + d;
    assert t[1..] == d && t[0] == '-' && t[|t| - 1] == d[|d| - 1];
    TrimOfTrimmed(t);
  }

  /** `Number(String(n)) == n`: the decimal rendering of an integer reads back as it. */
  lemma {:induction false} IntToStringRoundTrip(n: int)
    ensures StringToNumber(IntToString(n)) == Some(n)
  {
    if n < 0 {
      NegativeLiteral(NatToString(-n));
    } else {
      TrimOfTrimmed(NatToString(n));
    }
  }

  /** `s.padStart(width, "0")`. */
  function PadZeros(s: string, width: nat): (r: string)
    ensures |r| == if |s| < width then width else |s|
    ensures AllDigits(s) ==> AllDigits(r) && DigitsValue(r) == DigitsValue(s)
    decreases width - |s|
  {
    if |s| < width then
      var r := PadZeros("0" + s, width);
      LeadingZeroValue(s);
      r
    else s
  }

  lemma {:induction false} LeadingZeroValue(s: string)
    ensures AllDigits(s) ==> AllDigits("0" + s) && DigitsValue("0" + s) == DigitsValue(s)
    decreases |s|
  {
    var z := "0" + s;
    if s != [] && AllDigits(s) {
      assert z[..|z| - 1] == "0" + s[..|s| - 1];
      LeadingZeroValue(s[..|s| - 1]);
    }
  }

  /** `s.toLowerCase()` on the letters A-Z (other characters are kept). */
  function AsciiLower(s: string): (r: string)
    ensures |r| == |s|
    ensures forall i :: 0 <= i < |s| ==> r[i] == (if 'A' <= s[i] <= 'Z' then (s[i] as int + 32) as char else s[i])
  {
    if s == [] then [] else
      var c := s[0];
      [if 'A' <= c <= 'Z' then (c as int + 32) as char else c] + AsciiLower(s[1..])
  }

  predicate IsDateSeparator(c: char) {
    c == '/' || c == '-'
  }

  /** `s.split(/[\/-]/)`: the pieces between separators, empty ones included. */
  function SplitDate(s: string): (parts: seq<string>)
    ensures |parts| >= 1
    ensures (forall i :: 0 <= i < |s| ==> !IsDateSeparator(s[i])) ==> parts == [s]
  {
    if s == [] then [""]
    else
      var rest := SplitDate(s[1..]);
      if IsDateSeparator(s[0]) then [""] + rest
      else
        assert [s[0]] + s[1..] == s;
        [[s[0]] + rest[0]] + rest[1..]
  }

  /** Splitting pieces glued by separators yields the pieces back. */
  lemma {:induction false} SplitDateJoined(a: string, sep: char, b: string)
    requires IsDateSeparator(sep)
    requires forall i :: 0 <= i < |a| ==> !IsDateSeparator(a[i])
    ensures SplitDate(a + [sep] + b) == [a] + SplitDate(b)
    decreases |a|
  {
    if a == [] {
      assert a + [sep] + b == [sep] + b;
      assert ([sep] + b)[1..] == b;
    } else {
      assert (a + [sep] + b)[1..] == a[1..] + [sep] + b;
      SplitDateJoined(a[1..], sep, b);
      assert [a[0]] + a[1..] == a;
    }
  }
}
