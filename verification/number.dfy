/**
 * `float(text)` (test.py:143) on the decimal literals a percentage is
 * written in: surrounding white space, an optional sign, digits with an
 * optional decimal point. The value is kept exact, as a `real`.
 */
module Number {
  import opened Wrappers
  import opened Chars

  predicate IsDigit(c: char) {
    '0' <= c <= '9'
  }

  predicate AllDigits(s: string) {
    forall i :: 0 <= i < |s| ==> IsDigit(s[i])
  }

  function DigitValue(c: char): (d: nat)
    requires IsDigit(c)
    ensures d < 10
  {
    c as int - '0' as int
  }

  function DigitChar(d: nat): (c: char)
    requires d < 10
    ensures IsDigit(c) && DigitValue(c) == d
  {
    ('0' as int + d) as char
  }

  function Pow10(k: nat): (p: nat)
    ensures p >= 1
  {
    if k == 0 then 1 else 10 * Pow10(k - 1)
  }

  /** The number a string of decimal digits denotes, most significant first. */
  function DigitsValue(ds: string): (n: nat)
    requires AllDigits(ds)
    ensures n < Pow10(|ds|)
  {
    if ds == [] then 0 else 10 * DigitsValue(ds[..|ds| - 1]) + DigitValue(ds[|ds| - 1])
  }

  /** `str(n)` for a natural number: its decimal digits without leading zeros. */
  function NatToDigits(n: nat): (ds: string)
    ensures ds != [] && AllDigits(ds)
  {
    if n < 10 then [DigitChar(n)] else NatToDigits(n / 10) + [DigitChar(n % 10)]
  }

  /** Reading back the digits written for `n` gives `n`. */
  lemma {:induction false} DigitsRoundTrip(n: nat)
    ensures DigitsValue(NatToDigits(n)) == n
  {
    if n >= 10 {
      var ds := NatToDigits(n);
      assert ds[..|ds| - 1] == NatToDigits(n / 10);
      DigitsRoundTrip(n / 10);
    }
  }

  /** The value of the digits `whole`, a decimal point and the digits `fraction`. */
  function DecimalValue(whole: string, fraction: string): (v: real)
    requires AllDigits(whole) && AllDigits(fraction)
    ensures 0.0 <= v
    ensures fraction == [] ==> v == DigitsValue(whole) as real
  {
    DigitsValue(whole) as real + DigitsValue(fraction) as real / Pow10(|fraction|) as real
  }

  /** Where the first `.` of `s` is, or `|s|` when there is none. */
  function DotIndex(s: string): (i: nat)
    ensures i <= |s|
    ensures forall k :: 0 <= k < i ==> s[k] != '.'
    ensures i < |s| ==> s[i] == '.'
  {
    if s == [] || s[0] == '.' then 0 else 1 + DotIndex(s[1..])
  }

  /**
   * An unsigned decimal literal: digits, then optionally `.` and more
   * digits, with at least one digit in all (`5`, `5.`, `.5`, `82.75`).
   */
  function ParseUnsigned(body: string): (r: Option<real>)
    ensures r.Some? ==> 0.0 <= r.value
    ensures r.Some? ==> body != []
  {
    var dot := DotIndex(body);
    var whole := body[..dot];
    var fraction := if dot < |body| then body[dot + 1..] else [];
    if AllDigits(whole) && AllDigits(fraction) && |whole| + |fraction| > 0 then
      Some(DecimalValue(whole, fraction))
    else
      None
  }

  /**
   * The information separators U+001C to U+001F. `str.isspace()` counts
   * them as white space, but `float` does not: it turns non-ASCII white
   * space into spaces and then strips only tab, line feed, vertical tab,
   * form feed, carriage return and space.
   */
  predicate IsInfoSeparator(c: char) {
    0x1C <= c as int <= 0x1F
  }

  predicate NoInfoSeparator(s: string) {
    forall c :: c in s ==> !IsInfoSeparator(c)
  }

  /** White space that `float` strips: `str.isspace()` without the information separators. */
  predicate FloatBlank(s: string) {
    IsBlank(s) && NoInfoSeparator(s)
  }

  /**
   * `float(text)`: white space around the literal is ignored and a leading
   * `-` negates it; anything else is a `ValueError` (`None`). Without an
   * information separator in `text`, `float` strips exactly what `Strip`
   * strips. With one, `float` leaves it in the text it reads, and no
   * literal holds one.
   */
  function ParseNumber(text: string): (r: Option<real>)
    ensures r.Some? ==> Strip(text) != []
    ensures r.Some? && r.value < 0.0 ==> Strip(text)[0] == '-'
  {
    if NoInfoSeparator(text) then ParseSigned(Strip(text)) else None
  }

  /** A literal without surrounding white space: an optional sign, then an unsigned literal. */
  function ParseSigned(t: string): (r: Option<real>)
    ensures r.Some? ==> t != []
    ensures r.Some? && r.value < 0.0 ==> t[0] == '-'
  {
    if t != [] && (t[0] == '+' || t[0] == '-') then
      match ParseUnsigned(t[1..])
      case None => None
      case Some(v) => Some(if t[0] == '-' then -v else v)
    else
      ParseUnsigned(t)
  }

  /** No sign, or one `+` or `-`. */
  predicate IsSign(sign: string) {
    sign == [] || (|sign| == 1 && (sign[0] == '+' || sign[0] == '-'))
  }

  /** The digits `w`, then `.` and the digits `f` when `dotted`. */
  function UnsignedText(w: string, dotted: bool, f: string): string {
    w + (if dotted then ['.'] + f else [])
  }

  /**
   * The decimal literals this model of `float` reads: an optional sign,
   * whole digits and, after an optional point, fraction digits, with at
   * least one digit in all.
   */
  predicate WellFormedLiteral(sign: string, w: string, dotted: bool, f: string) {
    && IsSign(sign)
    && AllDigits(w)
    && AllDigits(f)
    && |w| + |f| > 0
    && (dotted || f == [])
  }

  /** The exact value of the literal `sign w.f`. */
  function LiteralValue(sign: string, w: string, f: string): real
    requires AllDigits(w) && AllDigits(f)
  {
    var v := DecimalValue(w, f);
    if sign != [] && sign[0] == '-' then -v else v
  }

  lemma {:induction false} DotIndexAfterDigits(w: string, tail: string)
    requires AllDigits(w)
    requires tail == [] || tail[0] == '.'
    ensures DotIndex(w + tail) == |w|
  {
    if w != [] {
      assert IsDigit(w[0]);
      assert (w + tail)[0] == w[0];
      assert (w + tail)[1..] == w[1..] + tail;
      DotIndexAfterDigits(w[1..], tail);
    } else {
      assert w + tail == tail;
    }
  }

  /** An unsigned literal reads as its whole part plus its fraction. */
  lemma UnsignedOfLiteral(w: string, dotted: bool, f: string)
    requires WellFormedLiteral([], w, dotted, f)
    ensures ParseUnsigned(UnsignedText(w, dotted, f)) == Some(DecimalValue(w, f))
  {
    var tail := if dotted then ['.'] + f else [];
    var body := w + tail;
    DotIndexAfterDigits(w, tail);
    assert body[..|w|] == w;
    if dotted {
      assert body[|w| + 1..] == f;
    }
  }

  /** A well-formed literal neither starts nor ends with white space. */
  lemma LiteralEnds(sign: string, w: string, dotted: bool, f: string)
    requires WellFormedLiteral(sign, w, dotted, f)
    ensures var m := sign + UnsignedText(w, dotted, f);
      m != [] && !IsSpace(m[0]) && !IsSpace(m[|m| - 1])
  {
    var u := UnsignedText(w, dotted, f);
    var m := sign + u;
    assert !IsSpace(u[0]) by {
      if w != [] {
        assert IsDigit(w[0]);
      }
    }
    assert !IsSpace(u[|u| - 1]) by {
      if dotted && f != [] {
        assert IsDigit(f[|f| - 1]);
      } else if !dotted {
        assert IsDigit(w[|w| - 1]);
      }
    }
    assert m[|m| - 1] == u[|u| - 1];
  }

  /** Without a sign, `ParseSigned` reads the text as an unsigned literal. */
  lemma UnsignedIsSigned(u: string)
    requires u != [] && u[0] != '+' && u[0] != '-'
    ensures ParseSigned(u) == ParseUnsigned(u)
  {
  }

  /** A sign in front of an unsigned literal applies to its value. */
  lemma SignThenUnsigned(c: char, u: string, v: real)
    requires c == '+' || c == '-'
    requires ParseUnsigned(u) == Some(v)
    ensures ParseSigned([c] + u) == Some(if c == '-' then -v else v)
  {
    assert ([c] + u)[0] == c;
    assert ([c] + u)[1..] == u;
  }

  /** An unsigned literal starts with a digit or the point. */
  lemma UnsignedStart(w: string, dotted: bool, f: string)
    requires WellFormedLiteral([], w, dotted, f)
    ensures var u := UnsignedText(w, dotted, f);
      u != [] && (IsDigit(u[0]) || u[0] == '.')
  {
    if w != [] {
      assert UnsignedText(w, dotted, f)[0] == w[0];
    }
  }

  /** A well-formed literal without padding reads as its value. */
  lemma SignedOfLiteral(sign: string, w: string, dotted: bool, f: string)
    requires WellFormedLiteral(sign, w, dotted, f)
    ensures ParseSigned(sign + UnsignedText(w, dotted, f)) == Some(LiteralValue(sign, w, f))
  {
    var u := UnsignedText(w, dotted, f);
    var v := DecimalValue(w, f);
    UnsignedOfLiteral(w, dotted, f);
    if sign != [] {
      var c := sign[0];
      assert sign + u == [c] + u;
      SignThenUnsigned(c, u, v);
      assert LiteralValue(sign, w, f) == if c == '-' then -v else v;
    } else {
      UnsignedStart(w, dotted, f);
      assert sign + u == u;
      UnsignedIsSigned(u);
      assert LiteralValue(sign, w, f) == v;
    }
  }

  /** Whatever `ParseUnsigned` accepts is whole digits and an optional point with fraction digits. */
  lemma UnsignedOnlyLiterals(body: string) returns (w: string, dotted: bool, f: string)
    requires ParseUnsigned(body).Some?
    ensures WellFormedLiteral([], w, dotted, f)
    ensures body == UnsignedText(w, dotted, f)
  {
    var dot := DotIndex(body);
    w := body[..dot];
    dotted := dot < |body|;
    f := if dotted then body[dot + 1..] else [];
    if dotted {
      SplitAround(body, dot);
    } else {
      assert body == w;
    }
  }

  /**
   * A plain sequence identity. It is stated as a lemma of its own so that
   * the verifier proves it where no recursive definition is in view; the
   * proofs that call it then stay within the solver's resource limit.
   */
  lemma SplitAround(s: string, i: nat)
    requires i < |s|
    ensures s == s[..i] + [s[i]] + s[i + 1..]
  {
  }

  /** Whatever `ParseSigned` accepts is a well-formed literal. */
  lemma SignedOnlyLiterals(t: string) returns (sign: string, w: string, dotted: bool, f: string)
    requires ParseSigned(t).Some?
    ensures WellFormedLiteral(sign, w, dotted, f)
    ensures t == sign + UnsignedText(w, dotted, f)
  {
    if t[0] == '+' || t[0] == '-' {
      sign := [t[0]];
      w, dotted, f := UnsignedOnlyLiterals(t[1..]);
      assert t == sign + t[1..];
    } else {
      sign := [];
      w, dotted, f := UnsignedOnlyLiterals(t);
      assert t == sign + t;
    }
  }

  /** A literal is made of signs, digits and the point, none of them an information separator. */
  lemma LiteralHasNoSeparator(sign: string, w: string, dotted: bool, f: string)
    requires WellFormedLiteral(sign, w, dotted, f)
    ensures NoInfoSeparator(sign + UnsignedText(w, dotted, f))
  {
    forall c | c in w + f
      ensures IsDigit(c)
    {
      var i :| 0 <= i < |w + f| && (w + f)[i] == c;
      if i < |w| {
        assert IsDigit(w[i]);
      } else {
        assert IsDigit(f[i - |w|]);
      }
    }
  }

  /**
   * Every well-formed literal, with any white space `float` strips around
   * it, reads as its exact value: `float(' -82.5 ')` is `-82.5`.
   */
  lemma ParseNumberOfLiteral(lead: string, sign: string, w: string, dotted: bool, f: string, trail: string)
    requires FloatBlank(lead) && FloatBlank(trail)
    requires WellFormedLiteral(sign, w, dotted, f)
    ensures ParseNumber(lead + sign + UnsignedText(w, dotted, f) + trail) == Some(LiteralValue(sign, w, f))
  {
    var m := sign + UnsignedText(w, dotted, f);
    LiteralEnds(sign, w, dotted, f);
    LiteralHasNoSeparator(sign, w, dotted, f);
    assert NoInfoSeparator(lead + m + trail);
    assert lead + sign + UnsignedText(w, dotted, f) + trail == lead + m + trail;
    StripPadded(lead, m, trail);
    SignedOfLiteral(sign, w, dotted, f);
  }

  /**
   * Only well-formed literals read: whatever `ParseNumber` accepts is
   * padding `float` strips around a sign, whole digits and an optional point with
   * fraction digits, and its value is that literal's value.
   */
  lemma ParseNumberOnlyLiterals(text: string)
    returns (lead: string, sign: string, w: string, dotted: bool, f: string, trail: string)
    requires ParseNumber(text).Some?
    ensures FloatBlank(lead) && FloatBlank(trail)
    ensures WellFormedLiteral(sign, w, dotted, f)
    ensures text == lead + sign + UnsignedText(w, dotted, f) + trail
    ensures ParseNumber(text) == Some(LiteralValue(sign, w, f))
  {
    var t := Strip(text);
    lead, trail := StripPadding(text);
    assert NoInfoSeparator(text);
    sign, w, dotted, f := SignedOnlyLiterals(t);
    Regroup(lead, sign, UnsignedText(w, dotted, f), trail);
    SignedOfLiteral(sign, w, dotted, f);
  }

  /** A plain sequence identity, kept apart from the recursive definitions for the same reason as `SplitAround`. */
  lemma Regroup(a: string, b: string, c: string, d: string)
    ensures a + (b + c) + d == a + b + c + d
  {
  }

  /** A string of decimal digits reads as the number it denotes. */
  lemma ParseNumberOfDigitString(ds: string)
    requires ds != [] && AllDigits(ds)
    ensures ParseNumber(ds) == Some(DigitsValue(ds) as real)
  {
    ParseNumberOfLiteral([], [], ds, false, [], []);
    assert UnsignedText(ds, false, []) == ds;
    Unpadded(ds);
  }

  /** A plain sequence identity, kept apart from the recursive definitions for the same reason as `SplitAround`. */
  lemma Unpadded(s: string)
    ensures [] + [] + s + [] == s
  {
  }

  /** A natural number written out in digits reads back as itself. */
  lemma ParseNumberOfDigits(n: nat)
    ensures ParseNumber(NatToDigits(n)) == Some(n as real)
  {
    ParseNumberOfDigitString(NatToDigits(n));
    DigitsRoundTrip(n);
  }

  /**
   * The model reads only literals that start with a sign, a digit or a
   * point, once the white space around them is gone.
   */
  lemma OtherStartIsNotANumber(text: string)
    requires Strip(text) != []
    requires var c := Strip(text)[0]; !IsDigit(c) && c != '.' && c != '+' && c != '-'
    ensures ParseNumber(text).None?
  {
    var t := Strip(text);
    var dot := DotIndex(t);
    assert dot > 0;
    assert !AllDigits(t[..dot]) by {
      assert t[..dot][0] == t[0];
    }
  }

  /**
   * A literal whose first character is a letter or `_` is a `ValueError`,
   * leaving aside `i`, `I`, `n` and `N`, with which Python's own spellings
   * `inf`, `infinity` and `nan` begin.
   */
  lemma WordStartIsNotANumber(text: string)
    requires Strip(text) != [] && IsWordChar(Strip(text)[0]) && !IsDigit(Strip(text)[0])
    requires var c := Strip(text)[0]; c != 'i' && c != 'I' && c != 'n' && c != 'N'
    ensures ParseNumber(text).None?
  {
    OtherStartIsNotANumber(text);
  }

  /** `float` rejects any text holding an information separator: `float('\x1c82')` raises `ValueError`. */
  lemma InfoSeparatorIsNotANumber(text: string, i: nat)
    requires i < |text| && IsInfoSeparator(text[i])
    ensures ParseNumber(text).None?
  {
    assert text[i] in text;
  }

  /** `float('N/A')` raises `ValueError`. */
  lemma NotApplicableIsNotANumber(text: string)
    requires text == "N/A"
    ensures ParseNumber(text).None?
  {
    assert TrimStart(text) == text;
    assert TrimEnd(text) == text;
    OtherStartIsNotANumber(text);
  }
}
