/** The few primitives of Python's `str` that the model relies on: whitespace,
    ASCII digits, `strip()`, ASCII case mapping and zero-padded rendering. */
module Text {

  /** Python's `str.isspace()`; `\s` in a `str` regular expression matches the
      same characters. */
  predicate IsSpace(c: char)
  {
    if c <= ' ' then
      ('\t' <= c <= '\r') || ('\U{1C}' <= c <= '\U{1F}') || c == ' '
    else
      || c == '\U{85}'
      || c == '\U{A0}'
      || c == '\U{1680}'
      || ('\U{2000}' <= c <= '\U{200A}')
      || c == '\U{2028}'
      || c == '\U{2029}'
      || c == '\U{202F}'
      || c == '\U{205F}'
      || c == '\U{3000}'
  }

  /** Every character is whitespace (the empty string included). */
  predicate IsBlank(s: string)
  {
    forall i :: 0 <= i < |s| ==> IsSpace(s[i])
  }

  /** Which whitespace a strip removes. `str.strip()` removes every
      `str.isspace()` character. `float()` first turns non-ASCII whitespace
      into a space and then strips only the ASCII whitespace `\t \n \v \f \r`
      and the space, so it keeps the separators U+001C..U+001F. */
  datatype Blanks = StrBlanks | FloatBlanks

  predicate IsBlankChar(b: Blanks, c: char)
  {
    IsSpace(c) && (b == FloatBlanks ==> !('\U{1C}' <= c <= '\U{1F}'))
  }

  predicate AllBlank(b: Blanks, s: string)
  {
    forall i :: 0 <= i < |s| ==> IsBlankChar(b, s[i])
  }

  function StripLeading(b: Blanks, s: string): (r: string)
    ensures |r| <= |s| && r == s[|s| - |r|..]
    ensures r == [] <==> AllBlank(b, s)
    ensures r != [] ==> !IsBlankChar(b, r[0])
  {
    if |s| > 0 && IsBlankChar(b, s[0]) then
      var r := StripLeading(b, s[1..]);
      assert AllBlank(b, s[1..]) ==> AllBlank(b, s) by {
        if AllBlank(b, s[1..]) {
          forall i | 0 <= i < |s| ensures IsBlankChar(b, s[i]) {
            if i > 0 { assert s[i] == s[1..][i - 1]; }
          }
        }
      }
      r
    else
      s
  }

  function StripTrailing(b: Blanks, s: string): (r: string)
    ensures |r| <= |s| && r == s[..|r|]
    ensures r == [] <==> AllBlank(b, s)
  {
    if |s| > 0 && IsBlankChar(b, s[|s| - 1]) then
      var r := StripTrailing(b, s[..|s| - 1]);
      assert AllBlank(b, s[..|s| - 1]) ==> AllBlank(b, s) by {
        if AllBlank(b, s[..|s| - 1]) {
          forall i | 0 <= i < |s| ensures IsBlankChar(b, s[i]) {
            if i < |s| - 1 { assert s[i] == s[..|s| - 1][i]; }
          }
        }
      }
      r
    else
      s
  }

  /** Python's `str.strip()` with no argument. */
  function Strip(s: string): (r: string)
    ensures r == [] <==> IsBlank(s)
  {
    assert AllBlank(StrBlanks, s) <==> IsBlank(s);
    StripTrailing(StrBlanks, StripLeading(StrBlanks, s))
  }

  predicate IsDigit(c: char)
  {
    '0' <= c <= '9'
  }

  predicate AllDigits(s: string)
  {
    forall i :: 0 <= i < |s| ==> IsDigit(s[i])
  }

  function DigitValue(c: char): (d: nat)
    requires IsDigit(c)
    ensures d < 10
  {
    (c as int) - ('0' as int)
  }

  function DigitChar(d: nat): (c: char)
    requires d < 10
    ensures IsDigit(c) && DigitValue(c) == d
  {
    (('0' as int) + d) as char
  }

  function Pow10(k: nat): (p: nat)
    ensures p >= 1
  {
    if k == 0 then 1 else 10 * Pow10(k - 1)
  }

  /** The number a string of ASCII digits denotes in base ten. */
  function DigitsValue(s: string): (n: nat)
    requires AllDigits(s)
    ensures n < Pow10(|s|)
  {
    if |s| == 0 then 0 else DigitsValue(s[..|s| - 1]) * 10 + DigitValue(s[|s| - 1])
  }

  /** The last `width` decimal digits of `n`, zero-padded on the left: what the
      `%Y`, `%m`, `%d`, `%H` and `%M` directives of `strftime` render. */
  function ZeroPad(n: nat, width: nat): (r: string)
    ensures |r| == width && AllDigits(r)
    ensures n < Pow10(width) ==> DigitsValue(r) == n
  {
    if width == 0 then []
    else
      var r := ZeroPad(n / 10, width - 1) + [DigitChar(n % 10)];
      assert r[..|r| - 1] == ZeroPad(n / 10, width - 1);
      r
  }

  lemma DigitsValueOne(s: string)
    requires |s| == 1 && IsDigit(s[0])
    ensures AllDigits(s) && DigitsValue(s) == DigitValue(s[0])
  {
    assert s[..0] == [];
  }

  lemma DigitsValueTwo(s: string)
    requires |s| == 2 && IsDigit(s[0]) && IsDigit(s[1])
    ensures AllDigits(s) && DigitsValue(s) == DigitValue(s[0]) * 10 + DigitValue(s[1])
  {
    DigitsValueOne(s[..1]);
  }

  /** Rendering the value of a digit string at its own width gives the string back. */
  lemma {:induction false} ZeroPadOfDigits(s: string)
    requires AllDigits(s)
    ensures ZeroPad(DigitsValue(s), |s|) == s
  {
    if |s| > 0 {
      var init := s[..|s| - 1];
      ZeroPadOfDigits(init);
      var n := DigitsValue(s);
      assert n / 10 == DigitsValue(init);
      assert n % 10 == DigitValue(s[|s| - 1]);
      assert s == init + [s[|s| - 1]];
    }
  }

  /** ASCII case mapping; where the model compares with Python's `str.lower()`
      the comment at the use says why the two agree there. */
  function LowerChar(c: char): char
  {
    if 'A' <= c <= 'Z' then ((c as int) + 32) as char else c
  }

  function Lower(s: string): (r: string)
    ensures |r| == |s|
    ensures forall i :: 0 <= i < |s| ==> r[i] == LowerChar(s[i])
  {
    seq(|s|, i requires 0 <= i < |s| => LowerChar(s[i]))
  }

  function UpperChar(c: char): char
  {
    if 'a' <= c <= 'z' then ((c as int) - 32) as char else c
  }

  /** `str.capitalize()` on ASCII text: the first character in upper case and
      every other one in lower case. */
  function Capitalize(s: string): (r: string)
    ensures |r| == |s|
    ensures |s| > 0 ==> r[0] == UpperChar(s[0])
    ensures forall i :: 0 < i < |s| ==> r[i] == LowerChar(s[i])
  {
    if |s| == 0 then [] else [UpperChar(s[0])] + Lower(s[1..])
  }
}
