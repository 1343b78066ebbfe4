/** Python's `float()` applied to the text of a field, for the decimal
    literals it accepts; the constructors of models.py call it at
    models.py:58-61 and 162-169. `ParseFloat` reads a literal in stages:
    the leading digits, an optional fraction, an optional exponent.
    `DecimalLiteral` writes the same grammar down separately, and the
    lemmas below connect the two in both directions. */
module Floats {
  import opened Common
  import opened Text

  // The grammar

  /** The exponent of a decimal literal: `e` or `E`, an optional sign, digits. */
  datatype ExponentPart = ExponentPart(marker: char, sign: string, digits: string)

  /** A decimal literal cut into its parts: an optional sign, the digits
      before the point, the digits after it when there is a point, and an
      optional exponent. */
  datatype DecimalLiteral = DecimalLiteral(
    sign: string,
    whole: string,
    fraction: Option<string>,
    exponent: Option<ExponentPart>)

  predicate IsSign(s: string)
  {
    s == "" || s == "+" || s == "-"
  }

  predicate WellFormedExponent(x: ExponentPart)
  {
    && (x.marker == 'e' || x.marker == 'E')
    && IsSign(x.sign)
    && |x.digits| > 0 && AllDigits(x.digits)
  }

  function FractionDigits(l: DecimalLiteral): string
  {
    if l.fraction.Some? then l.fraction.value else ""
  }

  /** Signs and digits where the grammar wants them, and at least one digit
      on either side of the point. */
  predicate WellFormed(l: DecimalLiteral)
  {
    && IsSign(l.sign)
    && AllDigits(l.whole)
    && AllDigits(FractionDigits(l))
    && |l.whole| + |FractionDigits(l)| > 0
    && (l.exponent.Some? ==> WellFormedExponent(l.exponent.value))
  }

  function ExponentPartText(x: ExponentPart): string
  {
    [x.marker] + (x.sign + x.digits)
  }

  function FractionText(l: DecimalLiteral): string
  {
    if l.fraction.Some? then "." + l.fraction.value else ""
  }

  function ExponentTextOf(p: Option<ExponentPart>): string
  {
    if p.Some? then ExponentPartText(p.value) else ""
  }

  function ExponentText(l: DecimalLiteral): string
  {
    ExponentTextOf(l.exponent)
  }

  /** The text of a literal after its sign. */
  function UnsignedText(l: DecimalLiteral): string
  {
    l.whole + (FractionText(l) + ExponentText(l))
  }

  /** The text of a literal. */
  function LiteralText(l: DecimalLiteral): string
  {
    l.sign + UnsignedText(l)
  }

  /** `m` times ten to the power `e`. */
  function Scale(m: real, e: int): real
    decreases if e < 0 then -e else e
  {
    if e == 0 then m
    else if e > 0 then Scale(m, e - 1) * 10.0
    else Scale(m, e + 1) / 10.0
  }

  /** The power of ten the exponent denotes. */
  function ExponentValue(l: DecimalLiteral): int
    requires WellFormed(l)
  {
    if l.exponent.None? then 0
    else
      var x := l.exponent.value;
      if x.sign == "-" then -(DigitsValue(x.digits) as int) else DigitsValue(x.digits)
  }

  /** The number a literal denotes, before its sign. */
  function Magnitude(l: DecimalLiteral): real
    requires WellFormed(l)
  {
    var f := FractionDigits(l);
    Scale(DigitsValue(l.whole) as real + Scale(DigitsValue(f) as real, -(|f| as int)), ExponentValue(l))
  }

  /** The number a literal denotes. */
  function LiteralValue(l: DecimalLiteral): real
    requires WellFormed(l)
  {
    if l.sign == "-" then -Magnitude(l) else Magnitude(l)
  }

  // The parser

  /** The length of the run of ASCII digits that `s` starts with. */
  function LeadingDigits(s: string): (n: nat)
    ensures n <= |s|
    ensures n < |s| ==> !IsDigit(s[n])
  {
    if |s| > 0 && IsDigit(s[0]) then 1 + LeadingDigits(s[1..]) else 0
  }

  /** An optional exponent `e` or `E`, optionally signed, with at least one
      digit, filling all of `x`. No exponent means 0. */
  function Exponent(x: string): Option<int>
  {
    if x == [] then Some(0)
    else if x[0] == 'e' || x[0] == 'E' then SignedDigits(x[1..])
    else None
  }

  /** An optional sign and at least one digit, filling all of `y`. */
  function SignedDigits(y: string): Option<int>
  {
    if |y| > 0 && y[0] == '-' then
      match Digits(y[1..])
      case None => None
      case Some(n) => Some(-n)
    else if |y| > 0 && y[0] == '+' then Digits(y[1..])
    else Digits(y)
  }

  /** At least one digit, filling all of `d`. */
  function Digits(d: string): (r: Option<int>)
    ensures r.Some? <==> |d| > 0 && AllDigits(d)
  {
    if |d| > 0 && AllDigits(d) then Some(DigitsValue(d)) else None
  }

  /** `m` scaled by the exponent read, if one was read. */
  function Scaled(m: real, e: Option<int>): Option<real>
  {
    match e
    case None => None
    case Some(k) => Some(Scale(m, k))
  }

  /** An unsigned decimal literal filling all of `u`: digits, then either a
      point and the rest of the fraction, or an exponent. */
  function UnsignedDecimal(u: string): Option<real>
  {
    var w := LeadingDigits(u);
    LeadingDigitsRun(u);
    var whole := DigitsValue(u[..w]) as real;
    var rest := u[w..];
    if |rest| > 0 && rest[0] == '.' then Fraction(whole, w, rest[1..])
    else if w == 0 then None
    else Scaled(whole, Exponent(rest))
  }

  /** What follows the point, `v`, after `w` digits worth `whole`: the
      fraction digits, then an exponent. */
  function Fraction(whole: real, w: nat, v: string): Option<real>
  {
    var fd := LeadingDigits(v);
    LeadingDigitsRun(v);
    if w + fd == 0 then None
    else Scaled(whole + Scale(DigitsValue(v[..fd]) as real, -(fd as int)), Exponent(v[fd..]))
  }

  /** A decimal literal with an optional leading sign, filling all of `t`. */
  function SignedDecimal(t: string): Option<real>
  {
    if |t| > 0 && (t[0] == '+' || t[0] == '-') then
      match UnsignedDecimal(t[1..])
      case None => None
      case Some(v) => Some(if t[0] == '-' then -v else v)
    else
      UnsignedDecimal(t)
  }

  /** The strip `float()` applies before reading: the whitespace of
      `FloatBlanks` goes, and U+001C..U+001F, which `str.strip()` would
      remove, stay. */
  function FloatStrip(s: string): (r: string)
    ensures r == [] <==> AllBlank(FloatBlanks, s)
  {
    StripTrailing(FloatBlanks, StripLeading(FloatBlanks, s))
  }

  /** `float(s)` for a decimal literal: surrounding whitespace, an optional
      sign, digits with an optional fraction (at least one digit in all),
      and an optional exponent. Anything else raises `ValueError`, which
      is `None` here. The result is the value of the one literal of the
      grammar whose text is `s` stripped, and there is a result exactly
      when there is such a literal. */
  function ParseFloat(s: string): (r: Option<real>)
    ensures r.Some? ==> exists l :: WellFormed(l) && LiteralText(l) == FloatStrip(s) && LiteralValue(l) == r.value
    ensures forall l :: WellFormed(l) && LiteralText(l) == FloatStrip(s) ==> r == Some(LiteralValue(l))
  {
    var t := FloatStrip(s);
    assert SignedDecimal(t).Some? ==> exists l :: WellFormed(l) && LiteralText(l) == t && LiteralValue(l) == SignedDecimal(t).value by {
      if SignedDecimal(t).Some? {
        var l := LiteralOfSignedDecimal(t);
        SignedDecimalOfLiteral(l);
      }
    }
    assert forall l :: WellFormed(l) && LiteralText(l) == t ==> SignedDecimal(t) == Some(LiteralValue(l)) by {
      forall l | WellFormed(l) && LiteralText(l) == t ensures SignedDecimal(t) == Some(LiteralValue(l)) {
        SignedDecimalOfLiteral(l);
      }
    }
    SignedDecimal(t)
  }

  // Leading digits

  /** The run `LeadingDigits` measures is all digits. */
  lemma {:induction false} LeadingDigitsRun(s: string)
    ensures AllDigits(s[..LeadingDigits(s)])
  {
    if |s| > 0 && IsDigit(s[0]) {
      LeadingDigitsRun(s[1..]);
      var n := LeadingDigits(s[1..]);
      assert s[..1 + n] == [s[0]] + s[1..][..n];
    }
  }

  /** Digits followed by the end or by something other than a digit are
      exactly the leading run. */
  lemma {:induction false} LeadingDigitsExactly(digits: string, rest: string)
    requires AllDigits(digits)
    requires rest == [] || !IsDigit(rest[0])
    ensures LeadingDigits(digits + rest) == |digits|
  {
    if |digits| > 0 {
      assert (digits + rest)[1..] == digits[1..] + rest;
      LeadingDigitsExactly(digits[1..], rest);
    } else {
      assert digits + rest == rest;
    }
  }

  // Every literal of the grammar is parsed to its value

  /** The exponent stage reads the exponent of a literal. */
  lemma ExponentOfText(l: DecimalLiteral)
    requires WellFormed(l)
    ensures Exponent(ExponentText(l)) == Some(ExponentValue(l))
  {
    if l.exponent.Some? {
      var p := l.exponent.value;
      assert ExponentText(l)[1..] == p.sign + p.digits;
      SignedDigitsOf(p);
    }
  }

  lemma SignedDigitsOf(p: ExponentPart)
    requires WellFormedExponent(p)
    ensures SignedDigits(p.sign + p.digits)
         == Some(if p.sign == "-" then -(DigitsValue(p.digits) as int) else DigitsValue(p.digits))
  {
    var y := p.sign + p.digits;
    if p.sign == "" {
      assert y == p.digits;
      assert IsDigit(y[0]);
    } else {
      assert y[0] == p.sign[0];
      assert y[1..] == p.digits;
    }
  }

  /** An exponent never starts with a digit. */
  lemma ExponentStart(l: DecimalLiteral)
    requires WellFormed(l)
    ensures ExponentText(l) == [] || !IsDigit(ExponentText(l)[0])
  {
  }

  /** The fraction stage reads the fraction digits and the exponent of a
      literal with a point. */
  lemma FractionOfLiteral(l: DecimalLiteral)
    requires WellFormed(l) && l.fraction.Some?
    ensures Fraction(DigitsValue(l.whole) as real, |l.whole|, l.fraction.value + ExponentText(l)) == Some(Magnitude(l))
  {
    var f := l.fraction.value;
    var v := f + ExponentText(l);
    ExponentStart(l);
    LeadingDigitsExactly(f, ExponentText(l));
    assert v[..|f|] == f;
    assert v[|f|..] == ExponentText(l);
    ExponentOfText(l);
  }

  /** The unsigned stages read the text of a literal after its sign to its
      magnitude. */
  lemma UnsignedOfLiteral(l: DecimalLiteral)
    requires WellFormed(l)
    ensures UnsignedDecimal(UnsignedText(l)) == Some(Magnitude(l))
  {
    if l.fraction.Some? {
      UnsignedWithFraction(l);
    } else {
      UnsignedWithoutFraction(l);
    }
  }

  /** The leading digits of a literal's unsigned text are its whole part. */
  lemma WholeStage(l: DecimalLiteral)
    requires WellFormed(l)
    ensures LeadingDigits(UnsignedText(l)) == |l.whole|
    ensures UnsignedText(l)[..|l.whole|] == l.whole
    ensures UnsignedText(l)[|l.whole|..] == FractionText(l) + ExponentText(l)
  {
    ExponentStart(l);
    LeadingDigitsExactly(l.whole, FractionText(l) + ExponentText(l));
  }

  lemma UnsignedWithFraction(l: DecimalLiteral)
    requires WellFormed(l) && l.fraction.Some?
    ensures UnsignedDecimal(UnsignedText(l)) == Some(Magnitude(l))
  {
    var u := UnsignedText(l);
    var w := |l.whole|;
    WholeStage(l);
    var tail := FractionText(l) + ExponentText(l);
    assert u[w] == tail[0] == '.';
    assert u[w + 1..] == tail[1..] == l.fraction.value + ExponentText(l);
    UnsignedAtPoint(u, w);
    FractionOfLiteral(l);
  }

  lemma UnsignedWithoutFraction(l: DecimalLiteral)
    requires WellFormed(l) && l.fraction.None?
    ensures UnsignedDecimal(UnsignedText(l)) == Some(Magnitude(l))
  {
    var u := UnsignedText(l);
    var w := |l.whole|;
    WholeStage(l);
    assert u[w..] == ExponentText(l);
    UnsignedWithoutPoint(u, w);
    ExponentOfText(l);
    assert Scale(0.0, 0) == 0.0;
  }

  /** The unsigned stages hand what follows a point to the fraction stage. */
  lemma UnsignedAtPoint(u: string, w: nat)
    requires w == LeadingDigits(u) && AllDigits(u[..w]) && w < |u| && u[w] == '.'
    ensures UnsignedDecimal(u) == Fraction(DigitsValue(u[..w]) as real, w, u[w + 1..])
  {
    assert u[w..][1..] == u[w + 1..];
  }

  /** Without a point, the unsigned stages read an exponent after the digits. */
  lemma UnsignedWithoutPoint(u: string, w: nat)
    requires w == LeadingDigits(u) && AllDigits(u[..w]) && !(w < |u| && u[w] == '.') && w > 0
    ensures UnsignedDecimal(u) == Scaled(DigitsValue(u[..w]) as real, Exponent(u[w..]))
  {
  }

  /** The text after the sign starts with a digit or the point. */
  lemma UnsignedStart(l: DecimalLiteral)
    requires WellFormed(l)
    ensures |UnsignedText(l)| > 0 && (IsDigit(UnsignedText(l)[0]) || UnsignedText(l)[0] == '.')
  {
    if |l.whole| > 0 {
      assert UnsignedText(l)[0] == l.whole[0];
    }
  }

  /** Every literal of the grammar is read to its value. */
  lemma SignedDecimalOfLiteral(l: DecimalLiteral)
    requires WellFormed(l)
    ensures SignedDecimal(LiteralText(l)) == Some(LiteralValue(l))
  {
    if l.sign == "" {
      UnsignedLiteral(l);
    } else {
      SignedLiteral(l);
    }
  }

  lemma UnsignedLiteral(l: DecimalLiteral)
    requires WellFormed(l) && l.sign == ""
    ensures SignedDecimal(LiteralText(l)) == Some(Magnitude(l))
  {
    var t := LiteralText(l);
    UnsignedOfLiteral(l);
    UnsignedStart(l);
    assert t == UnsignedText(l);
    UnsignedWithoutSign(t, Magnitude(l));
  }

  lemma SignedLiteral(l: DecimalLiteral)
    requires WellFormed(l) && l.sign != ""
    ensures SignedDecimal(LiteralText(l)) == Some(if l.sign == "-" then -Magnitude(l) else Magnitude(l))
  {
    var t := LiteralText(l);
    assert t[0] == l.sign[0] && t[1..] == UnsignedText(l) by {
      assert |l.sign| == 1;
    }
    assert l.sign == "-" <==> t[0] == '-';
    UnsignedOfLiteral(l);
    UnsignedWithSign(t, Magnitude(l));
  }

  lemma UnsignedWithSign(t: string, m: real)
    requires |t| > 0 && (t[0] == '+' || t[0] == '-') && UnsignedDecimal(t[1..]) == Some(m)
    ensures SignedDecimal(t) == Some(if t[0] == '-' then -m else m)
  {
  }

  lemma UnsignedWithoutSign(t: string, m: real)
    requires |t| > 0 && (IsDigit(t[0]) || t[0] == '.') && UnsignedDecimal(t) == Some(m)
    ensures SignedDecimal(t) == Some(m)
  {
  }

  // Everything the parser reads is a literal of the grammar

  /** The exponent the exponent stage accepted, cut into its parts. */
  lemma ExponentPartOf(x: string) returns (p: Option<ExponentPart>)
    requires Exponent(x).Some?
    ensures p.Some? ==> WellFormedExponent(p.value)
    ensures ExponentTextOf(p) == x
  {
    if x == [] {
      p := None;
    } else {
      var sign, digits := SignedDigitsParts(x[1..]);
      p := Some(ExponentPart(x[0], sign, digits));
      assert x == [x[0]] + x[1..];
    }
  }

  lemma SignedDigitsParts(y: string) returns (sign: string, digits: string)
    requires SignedDigits(y).Some?
    ensures IsSign(sign) && |digits| > 0 && AllDigits(digits) && sign + digits == y
  {
    if |y| > 0 && (y[0] == '-' || y[0] == '+') {
      sign := [y[0]];
      digits := y[1..];
      assert y == [y[0]] + y[1..];
    } else {
      sign := "";
      digits := y;
      assert sign + digits == y;
    }
  }

  /** The text the unsigned stages accepted, cut into its parts. */
  lemma LiteralOfUnsigned(u: string) returns (l: DecimalLiteral)
    requires UnsignedDecimal(u).Some?
    ensures WellFormed(l) && l.sign == "" && UnsignedText(l) == u
  {
    var w := LeadingDigits(u);
    LeadingDigitsRun(u);
    if w < |u| && u[w] == '.' {
      assert u[w..][1..] == u[w + 1..];
      FractionAccepted(DigitsValue(u[..w]) as real, w, u[w + 1..]);
      l := LiteralWithPoint(u, w);
    } else {
      l := LiteralWithoutPoint(u, w);
    }
  }

  lemma LiteralWithPoint(u: string, w: nat) returns (l: DecimalLiteral)
    requires w == LeadingDigits(u) && AllDigits(u[..w]) && w < |u| && u[w] == '.'
    requires w + LeadingDigits(u[w + 1..]) > 0 && Exponent(u[w + 1..][LeadingDigits(u[w + 1..])..]).Some?
    ensures WellFormed(l) && l.sign == "" && UnsignedText(l) == u
  {
    var f, x := PartsAfterPoint(u[w + 1..]);
    l := DecimalLiteral("", u[..w], Some(f), x);
    JoinWithPoint(u, w, f, ExponentTextOf(x));
  }

  lemma LiteralWithoutPoint(u: string, w: nat) returns (l: DecimalLiteral)
    requires w == LeadingDigits(u) && AllDigits(u[..w]) && !(w < |u| && u[w] == '.')
    requires w > 0 && Exponent(u[w..]).Some?
    ensures WellFormed(l) && l.sign == "" && UnsignedText(l) == u
  {
    var x := ExponentPartOf(u[w..]);
    l := DecimalLiteral("", u[..w], None, x);
    assert FractionDigits(l) == "" && FractionText(l) == "";
    assert UnsignedText(l) == u[..w] + ExponentTextOf(x);
    JoinAt(u, w, ExponentTextOf(x));
  }

  lemma FractionAccepted(whole: real, w: nat, v: string)
    requires Fraction(whole, w, v).Some?
    ensures w + LeadingDigits(v) > 0 && Exponent(v[LeadingDigits(v)..]).Some?
  {
  }

  /** What the fraction stage accepted after the point, cut into the
      fraction digits and the exponent. */
  lemma PartsAfterPoint(v: string) returns (f: string, x: Option<ExponentPart>)
    requires Exponent(v[LeadingDigits(v)..]).Some?
    ensures |f| == LeadingDigits(v) && AllDigits(f)
    ensures x.Some? ==> WellFormedExponent(x.value)
    ensures f + ExponentTextOf(x) == v
  {
    var fd := LeadingDigits(v);
    LeadingDigitsRun(v);
    f := v[..fd];
    x := ExponentPartOf(v[fd..]);
    JoinAt(v, fd, ExponentTextOf(x));
  }

  lemma JoinAt(v: string, k: nat, y: string)
    requires k <= |v| && y == v[k..]
    ensures v[..k] + y == v
  {
  }

  lemma JoinWithPoint(u: string, w: nat, f: string, e: string)
    requires w < |u| && u[w] == '.' && f + e == u[w + 1..]
    ensures u[..w] + (("." + f) + e) == u
  {
    assert ("." + f) + e == u[w..];
  }

  /** The text the parser accepted, cut into its parts. */
  lemma LiteralOfSignedDecimal(t: string) returns (l: DecimalLiteral)
    requires SignedDecimal(t).Some?
    ensures WellFormed(l) && LiteralText(l) == t
  {
    if |t| > 0 && (t[0] == '+' || t[0] == '-') {
      var u := LiteralOfUnsigned(t[1..]);
      l := WithSign(u, t);
    } else {
      l := LiteralOfUnsigned(t);
      assert LiteralText(l) == UnsignedText(l);
    }
  }

  /** An unsigned literal with the sign `t` starts with put in front. */
  lemma WithSign(u: DecimalLiteral, t: string) returns (l: DecimalLiteral)
    requires WellFormed(u) && u.sign == ""
    requires |t| > 0 && (t[0] == '+' || t[0] == '-') && UnsignedText(u) == t[1..]
    ensures WellFormed(l) && LiteralText(l) == t
  {
    l := u.(sign := [t[0]]);
    assert UnsignedText(l) == UnsignedText(u);
    assert t == [t[0]] + t[1..];
  }

  // Consequences

  /** The value `float()` gives a literal of the grammar, surrounded by
      whitespace or not. */
  lemma ParseFloatOfLiteral(s: string, l: DecimalLiteral)
    requires WellFormed(l) && LiteralText(l) == FloatStrip(s)
    ensures ParseFloat(s) == Some(LiteralValue(l))
  {
  }

  /** A string of digits converts to the number it spells. */
  lemma ParseFloatOfDigits(s: string)
    requires |s| > 0 && AllDigits(s)
    ensures ParseFloat(s) == Some(DigitsValue(s) as real)
  {
    StripOfTrimmed(s);
    var l := DecimalLiteral("", s, None, None);
    WholeNumber(s);
    ParseFloatOfLiteral(s, l);
  }

  lemma WholeNumber(s: string)
    requires |s| > 0 && AllDigits(s)
    ensures WellFormed(DecimalLiteral("", s, None, None))
    ensures LiteralText(DecimalLiteral("", s, None, None)) == s
    ensures LiteralValue(DecimalLiteral("", s, None, None)) == DigitsValue(s) as real
  {
    assert Scale(0.0, 0) == 0.0;
  }

  /** A signed literal with a fraction, an exponent and surrounding blanks. */
  lemma ParseFloatOfScientific()
    ensures ParseFloat(" -1.5e1 ") == Some(-15.0)
  {
    var l := DecimalLiteral("-", "1", Some("5"), Some(ExponentPart('e', "", "1")));
    ScientificLiteral();
    ScientificStripped();
    ParseFloatOfLiteral(" -1.5e1 ", l);
  }

  lemma ScientificLiteral()
    ensures WellFormed(DecimalLiteral("-", "1", Some("5"), Some(ExponentPart('e', "", "1"))))
    ensures LiteralText(DecimalLiteral("-", "1", Some("5"), Some(ExponentPart('e', "", "1")))) == "-1.5e1"
    ensures LiteralValue(DecimalLiteral("-", "1", Some("5"), Some(ExponentPart('e', "", "1")))) == -15.0
  {
    var l := DecimalLiteral("-", "1", Some("5"), Some(ExponentPart('e', "", "1")));
    DigitsValueOne("1");
    DigitsValueOne("5");
    assert ExponentValue(l) == 1;
    assert Scale(5.0, -1) == 0.5 by {
      assert Scale(5.0, 0) == 5.0;
    }
    assert Scale(1.5, 1) == 15.0 by {
      assert Scale(1.5, 0) == 1.5;
    }
    assert Magnitude(l) == 15.0;
  }

  lemma ScientificStripped()
    ensures FloatStrip(" -1.5e1 ") == "-1.5e1"
  {
    assert " -1.5e1 " == " " + "-1.5e1" + " ";
    StripPadded("-1.5e1");
  }

  /** One blank on either side of a trimmed text is stripped. */
  lemma StripPadded(core: string)
    requires |core| > 0 && !IsBlankChar(FloatBlanks, core[0]) && !IsBlankChar(FloatBlanks, core[|core| - 1])
    ensures FloatStrip(" " + core + " ") == core
  {
    var s := " " + core + " ";
    assert s[1..] == core + " ";
    assert StripLeading(FloatBlanks, s) == core + " ";
    assert (core + " ")[..|core|] == core;
    StripOfTrimmed(core);
  }

  /** Text that neither starts nor ends with whitespace is left as it is. */
  lemma StripOfTrimmed(s: string)
    requires |s| > 0 && !IsBlankChar(FloatBlanks, s[0]) && !IsBlankChar(FloatBlanks, s[|s| - 1])
    ensures FloatStrip(s) == s
  {
    assert StripLeading(FloatBlanks, s) == s;
    assert StripTrailing(FloatBlanks, s) == s;
  }

  /** An information separator before the digits is not stripped, so the
      text is not a number, although `str.strip()` would remove it. */
  lemma ParseFloatKeepsSeparator()
    ensures Strip("\U{1C}1") == "1"
    ensures ParseFloat("\U{1C}1").None?
  {
    StrStripsSeparator();
    StripOfTrimmed("\U{1C}1");
    SeparatorRejected();
  }

  lemma StrStripsSeparator()
    ensures Strip("\U{1C}1") == "1"
  {
    var s := "\U{1C}1";
    assert IsBlankChar(StrBlanks, s[0]);
    assert s[1..] == "1";
    var one := "1";
    assert !IsBlankChar(StrBlanks, one[0]) by {
      assert one[0] == '1';
    }
    assert StripLeading(StrBlanks, one) == one;
    assert StripTrailing(StrBlanks, one) == one;
  }

  lemma SeparatorRejected()
    ensures SignedDecimal("\U{1C}1").None?
  {
    assert LeadingDigits("\U{1C}1") == 0;
  }

  /** Two points are not a decimal literal. */
  lemma ParseFloatRejectsTwoPoints()
    ensures ParseFloat("1.2.3").None?
  {
    StripOfTrimmed("1.2.3");
    TwoPointsRejected();
  }

  /** An exponent needs digits. */
  lemma ParseFloatRejectsBareExponent()
    ensures ParseFloat("1e").None?
  {
    StripOfTrimmed("1e");
    BareExponentRejected();
  }

  /** A point needs a digit on one side. */
  lemma ParseFloatRejectsBarePoint()
    ensures ParseFloat(".").None?
  {
    StripOfTrimmed(".");
    BarePointRejected();
  }

  lemma TwoPointsRejected()
    ensures SignedDecimal("1.2.3").None?
  {
    var t := "1.2.3";
    assert t[0] == '1';
    UnsignedTwoPoints(t);
  }

  lemma UnsignedTwoPoints(u: string)
    requires u == "1.2.3"
    ensures UnsignedDecimal(u).None?
  {
    assert u == "1" + ".2.3";
    LeadingDigitsExactly("1", ".2.3");
    assert u[1..][1..] == "2.3";
    SecondPointRejected(DigitsValue(u[..1]) as real, u[1..][1..]);
  }

  lemma SecondPointRejected(whole: real, v: string)
    requires v == "2.3"
    ensures Fraction(whole, 1, v).None?
  {
    assert v == "2" + ".3";
    LeadingDigitsExactly("2", ".3");
    assert Exponent(".3").None?;
  }

  lemma BareExponentRejected()
    ensures SignedDecimal("1e").None?
  {
    var t := "1e";
    assert t == "1" + "e";
    LeadingDigitsExactly("1", "e");
    assert Exponent("e").None?;
  }

  lemma BarePointRejected()
    ensures SignedDecimal(".").None?
  {
    assert LeadingDigits(".") == 0;
    assert LeadingDigits("") == 0;
  }

  /** Whatever `float()` accepts holds a digit: a value without a single
      digit is unknown. */
  lemma ParsedHasDigit(s: string)
    requires ParseFloat(s).Some?
    ensures exists i :: 0 <= i < |s| && IsDigit(s[i])
  {
    var l :| WellFormed(l) && LiteralText(l) == FloatStrip(s) && LiteralValue(l) == ParseFloat(s).value;
    var k := DigitOf(l);
    var a := StripOffset(s);
    assert FloatStrip(s)[k] == s[a + k];
  }

  /** Where a digit of a literal sits. */
  lemma DigitOf(l: DecimalLiteral) returns (k: nat)
    requires WellFormed(l)
    ensures k < |LiteralText(l)| && IsDigit(LiteralText(l)[k])
  {
    var t := LiteralText(l);
    if |l.whole| > 0 {
      k := |l.sign|;
      assert t[k] == l.whole[0];
    } else {
      k := |l.sign| + 1;
      assert t[k] == l.fraction.value[0];
    }
  }

  /** Where the stripped text sits in `s`. */
  lemma StripOffset(s: string) returns (a: nat)
    ensures a + |FloatStrip(s)| <= |s| && FloatStrip(s) == s[a..a + |FloatStrip(s)|]
  {
    var lead := StripLeading(FloatBlanks, s);
    var t := FloatStrip(s);
    a := |s| - |lead|;
    assert t == lead[..|t|];
    assert lead == s[a..];
    assert lead[..|t|] == s[a..a + |t|];
  }
}
