/**
  Decimal numerals as Rust's `str::parse::<f32>` reads them, limited to the
  plain decimal forms: an optional sign, then digits with at most one decimal
  point and at least one digit. The value is the exact rational the numeral
  denotes.
 */
module Numbers {
  import opened Wrappers
  import opened Strings

  predicate IsDigit(c: char) {
    '0' <= c <= '9'
  }

  predicate AllDigits(s: string) {
    forall i :: 0 <= i < |s| ==> IsDigit(s[i])
  }

  function DigitsValue(s: string): nat
    requires AllDigits(s)
  {
    if s == [] then 0 else DigitsValue(s[..|s| - 1]) * 10 + (s[|s| - 1] as int - '0' as int)
  }

  function Pow10(n: nat): (r: nat)
    ensures r >= 1
  {
    if n == 0 then 1 else 10 * Pow10(n - 1)
  }

  /** The value of the numeral `whole.frac`. */
  function DecimalValue(whole: string, frac: string): (v: real)
    requires AllDigits(whole) && AllDigits(frac)
    ensures v >= DigitsValue(whole) as real
  {
    var scaled := DigitsValue(frac) as real / Pow10(|frac|) as real;
    assert scaled >= 0.0 by {
      assert Pow10(|frac|) as real > 0.0 && DigitsValue(frac) as real >= 0.0;
    }
    DigitsValue(whole) as real + scaled
  }

  /** An unsigned numeral: `ddd`, `ddd.`, `.ddd` or `ddd.ddd`. */
  function ParseUnsigned(s: string): (r: Option<real>)
    ensures r.Some? ==> s != [] && r.value >= 0.0
  {
    match FindChar(s, '.')
    case None =>
      if s != [] && AllDigits(s) then Some(DigitsValue(s) as real) else None
    case Some(d) =>
      var whole, frac := s[..d], s[d + 1..];
      if AllDigits(whole) && AllDigits(frac) && |whole| + |frac| > 0 then
        Some(DecimalValue(whole, frac))
      else None
  }

  /** An unsigned numeral consists of digits and decimal points only. */
  lemma UnsignedShape(s: string)
    requires ParseUnsigned(s).Some?
    ensures forall i :: 0 <= i < |s| ==> IsDigit(s[i]) || s[i] == '.'
  {
    match FindChar(s, '.')
    case None =>
    case Some(d) =>
      assert s == s[..d] + "." + s[d + 1..];
  }

  /** The characters a numeral can consist of, in the places they can stand. */
  predicate IsNumeral(s: string) {
    && s != []
    && (IsDigit(s[0]) || s[0] == '+' || s[0] == '-' || s[0] == '.')
    && (forall i :: 0 < i < |s| ==> IsDigit(s[i]) || s[i] == '.')
    && (IsDigit(s[|s| - 1]) || s[|s| - 1] == '.')
  }

  /** `str::parse::<f32>` on the decimal forms; `None` is the parse error.
      Without a minus sign the value is never negative. */
  function ParseNumber(s: string): (r: Option<real>)
    ensures r.Some? ==> s != []
    ensures r.Some? && s[0] != '-' ==> r.value >= 0.0
  {
    if s != [] && (s[0] == '+' || s[0] == '-') then
      match ParseUnsigned(s[1..])
      case None => None
      case Some(v) => Some(if s[0] == '-' then -v else v)
    else
      ParseUnsigned(s)
  }

  /** Whatever parses is a numeral. */
  lemma ParsedIsNumeral(s: string)
    requires ParseNumber(s).Some?
    ensures IsNumeral(s)
  {
    if s[0] == '+' || s[0] == '-' {
      UnsignedShape(s[1..]);
      assert forall i :: 0 < i < |s| ==> s[i] == s[1..][i - 1];
    } else {
      UnsignedShape(s);
    }
  }

  /** A number has no surrounding whitespace, cannot begin with a comparison
      sign and cannot end with a sign. */
  lemma NumeralEnds(s: string)
    requires ParseNumber(s).Some?
    ensures s != [] && IsTrimmed(s)
    ensures s[0] != '<' && s[0] != '>' && s[0] != '='
    ensures s[|s| - 1] != '+' && s[|s| - 1] != '-'
  {
    ParsedIsNumeral(s);
  }

  /** In a number a minus sign can only be the first character. */
  lemma NumeralNoInnerDash(s: string)
    requires ParseNumber(s).Some?
    ensures forall i :: 0 < i < |s| ==> s[i] != '-'
  {
    ParsedIsNumeral(s);
  }

  /** A string of digits denotes its decimal value. */
  lemma WholeNumeral(w: string)
    requires w != [] && AllDigits(w)
    ensures ParseNumber(w) == Some(DigitsValue(w) as real)
  {
    assert IsDigit(w[0]);
  }

  /** Digits, a point and digits denote the whole part plus the scaled fraction. */
  lemma DecimalNumeral(w: string, f: string)
    requires AllDigits(w) && AllDigits(f) && |w| + |f| > 0
    ensures ParseNumber(w + "." + f) == Some(DecimalValue(w, f))
  {
    var s := w + "." + f;
    assert s[0] != '+' && s[0] != '-' by {
      if w != [] {
        assert s[0] == w[0] && IsDigit(w[0]);
      }
    }
    assert ParseNumber(s) == ParseUnsigned(s);
    FindCharAfter(w, '.', f);
    assert s[..|w|] == w && s[|w| + 1..] == f;
  }

  /** A number needs no trimming. */
  lemma NumberIsTrimmed(s: string)
    requires ParseNumber(s).Some?
    ensures Trim(s) == s
  {
    NumeralEnds(s);
    TrimOfTrimmed(s);
  }

  lemma WholeExamples()
    ensures ParseNumber("5") == Some(5.0) && ParseNumber("10") == Some(10.0)
  {
    WholeNumeral("5");
    WholeNumeral("10");
  }

  lemma DecimalExample25()
    ensures ParseNumber("2.5") == Some(2.5)
  {
    DecimalNumeral("2", "5");
    assert "2" + "." + "5" == "2.5";
  }

  lemma DecimalExample75()
    ensures ParseNumber("7.5") == Some(7.5)
  {
    DecimalNumeral("7", "5");
    assert "7" + "." + "5" == "7.5";
  }
}
