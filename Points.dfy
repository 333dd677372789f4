/**
  The points filter and its expression language (src/config.rs). A `real`
  stands for each `f32`.
 */
module Points {
  import opened Wrappers
  import opened Strings
  import opened Numbers

  /** Two point values closer than this count as equal. */
  const Epsilon: real := 0.01

  function Abs(x: real): real {
    if x < 0.0 then -x else x
  }

  /** Which point values are worth a notification. The source's `None`
      variant is called `NoFilter` here. */
  datatype PointsFilter = NoFilter | Exact(value: real) | Range(min: Option<real>, max: Option<real>)
  {
    /** `matches`; an exact value accepts the open interval of width
        2 * Epsilon around it. */
    predicate Matches(points: real)
      ensures Exact? ==> (Matches(points) <==> value - Epsilon < points < value + Epsilon)
    {
      match this
      case NoFilter => true
      case Exact(v) => Abs(points - v) < Epsilon
      case Range(min, max) =>
        (min.None? || points >= min.value) && (max.None? || points <= max.value)
    }

    /** The human-readable summary; `show` is the decimal rendering of a number. */
    function Description(show: real -> string): (d: string)
      ensures d == "all courses" <==> (NoFilter? || (Range? && min.None? && max.None?))
    {
      match this
      case NoFilter => "all courses"
      case Exact(v) => "courses with exactly " + show(v) + " points"
      case Range(Some(lo), Some(hi)) => "courses with " + show(lo) + "-" + show(hi) + " points"
      case Range(Some(lo), None) => "courses with >= " + show(lo) + " points"
      case Range(None, Some(hi)) => "courses with <= " + show(hi) + " points"
      case Range(None, None) => "all courses"
    }
  }

  /** What each filter accepts, stated as intervals: `NoFilter` and a range
      without bounds accept everything, `Exact(v)` accepts the open interval of
      width 2 * Epsilon around v, and range bounds are inclusive. */
  lemma MatchesMeaning(f: PointsFilter, p: real)
    ensures f.NoFilter? ==> f.Matches(p)
    ensures f.Exact? ==> (f.Matches(p) <==> f.value - Epsilon < p < f.value + Epsilon)
    ensures f.Range? && f.min.None? && f.max.None? ==> f.Matches(p)
    ensures f.Range? && f.min.Some? && f.max.Some? ==> (f.Matches(p) <==> f.min.value <= p <= f.max.value)
    ensures f.Range? && f.min.Some? && f.max.None? ==> (f.Matches(p) <==> f.min.value <= p)
    ensures f.Range? && f.min.None? && f.max.Some? ==> (f.Matches(p) <==> p <= f.max.value)
  {
  }

  // ---------------------------------------------------------------------------
  // The filter expression language

  /** `"a-b"`: the first '-' strictly inside the expression, numbers on both sides. */
  function RangeRule(e: string): (r: Option<PointsFilter>)
    ensures r.Some? ==> r.value.Range? && r.value.min.Some? && r.value.max.Some?
  {
    match FindChar(e, '-')
    case None => None
    case Some(p) =>
      if 0 < p < |e| - 1 then
        match (ParseNumber(Trim(e[..p])), ParseNumber(Trim(e[p + 1..])))
        case (Some(lo), Some(hi)) => Some(Range(Some(lo), Some(hi)))
        case _ => None
      else None
  }

  /** A parsed number as a lower bound; a parse error means the rule does not apply. */
  function LowerBound(n: Option<real>): (r: Option<PointsFilter>)
    ensures r.Some? <==> n.Some?
    ensures r.Some? ==> r.value == Range(n, None)
  {
    if n.Some? then Some(Range(n, None)) else None
  }

  /** A parsed number as an upper bound; a parse error means the rule does not apply. */
  function UpperBound(n: Option<real>): (r: Option<PointsFilter>)
    ensures r.Some? <==> n.Some?
    ensures r.Some? ==> r.value == Range(None, n)
  {
    if n.Some? then Some(Range(None, n)) else None
  }

  /** `">=x"`. */
  function AtLeastRule(e: string): (r: Option<PointsFilter>)
    ensures r.Some? ==> r.value.Range?
  {
    if StartsWith(e, ">=") then LowerBound(ParseNumber(Trim(e[2..]))) else None
  }

  /** `">x"`, read like `">=x"`: no strict offset is applied. */
  function GreaterRule(e: string): (r: Option<PointsFilter>)
    ensures r.Some? ==> r.value.Range?
  {
    if StartsWith(e, ">") && !StartsWith(e, ">=") then LowerBound(ParseNumber(Trim(e[1..]))) else None
  }

  /** `"x+"`. */
  function PlusRule(e: string): (r: Option<PointsFilter>)
    ensures r.Some? ==> r.value.Range?
  {
    if EndsWith(e, "+") then LowerBound(ParseNumber(Trim(e[..|e| - 1]))) else None
  }

  /** `"<=x"`. */
  function AtMostRule(e: string): (r: Option<PointsFilter>)
    ensures r.Some? ==> r.value.Range?
  {
    if StartsWith(e, "<=") then UpperBound(ParseNumber(Trim(e[2..]))) else None
  }

  /** `"<x"`, read like `"<=x"`. */
  function LessRule(e: string): (r: Option<PointsFilter>)
    ensures r.Some? ==> r.value.Range?
  {
    if StartsWith(e, "<") && !StartsWith(e, "<=") then UpperBound(ParseNumber(Trim(e[1..]))) else None
  }

  /** `"x-"`, for an expression longer than the sign alone. */
  function MinusRule(e: string): (r: Option<PointsFilter>)
    ensures r.Some? ==> r.value.Range?
  {
    if EndsWith(e, "-") && |e| > 1 then UpperBound(ParseNumber(Trim(e[..|e| - 1]))) else None
  }

  /** A bare number. */
  function ExactRule(e: string): (r: Option<PointsFilter>)
    ensures r.Some? <==> ParseNumber(e).Some?
    ensures r.Some? ==> r.value == Exact(ParseNumber(e).value)
  {
    match ParseNumber(e)
    case Some(v) => Some(Exact(v))
    case None => None
  }

  /** The grammar on an already trimmed expression; the first rule that applies wins. */
  function ParseTrimmedExpr(e: string): (r: Option<PointsFilter>)
    ensures r.None? ==> ExactRule(e).None?
  {
    if e == [] then Some(NoFilter)
    else if RangeRule(e).Some? then RangeRule(e)
    else if AtLeastRule(e).Some? then AtLeastRule(e)
    else if GreaterRule(e).Some? then GreaterRule(e)
    else if PlusRule(e).Some? then PlusRule(e)
    else if AtMostRule(e).Some? then AtMostRule(e)
    else if LessRule(e).Some? then LessRule(e)
    else if MinusRule(e).Some? then MinusRule(e)
    else ExactRule(e)
  }

  /** `parse_points_filter_expr`: `None` when no rule accepts the expression. */
  function ParsePointsFilterExpr(expr: string): (r: Option<PointsFilter>)
    ensures r.None? ==> ParseNumber(Trim(expr)).None?
    ensures r.Some? && r.value.Exact? ==> ParseNumber(Trim(expr)) == Some(r.value.value)
  {
    ExactOnlyFromExactRule(Trim(expr));
    ParseTrimmedExpr(Trim(expr))
  }

  /** A blank expression, and only a blank one, means "no filter". */
  lemma BlankExpression(expr: string)
    ensures ParsePointsFilterExpr(expr) == Some(NoFilter) <==> Trim(expr) == []
  {
    if Trim(expr) != [] {
      NoRuleGivesNoFilter(Trim(expr));
    }
  }

  /** Every rule after the first gives a range, an exact value or nothing. */
  lemma NoRuleGivesNoFilter(e: string)
    requires e != []
    ensures ParseTrimmedExpr(e) != Some(NoFilter)
  {
    if RangeRule(e).Some? {
    } else if AtLeastRule(e).Some? {
    } else if GreaterRule(e).Some? {
    } else if PlusRule(e).Some? {
    } else if AtMostRule(e).Some? {
    } else if LessRule(e).Some? {
    } else if MinusRule(e).Some? {
    } else {
      assert ParseTrimmedExpr(e) == ExactRule(e);
    }
  }

  /** A numeral carries none of the comparison prefixes or sign suffixes. */
  lemma NumeralHasNoOperator(t: string)
    requires ParseNumber(t).Some?
    ensures !StartsWith(t, ">") && !StartsWith(t, ">=") && !StartsWith(t, "<") && !StartsWith(t, "<=")
    ensures !EndsWith(t, "+") && !EndsWith(t, "-")
  {
    NumeralEnds(t);
    StartsWithHead(t, ">");
    StartsWithHead(t, ">=");
    StartsWithHead(t, "<");
    StartsWithHead(t, "<=");
    EndsWithLast(t, "+");
    EndsWithLast(t, "-");
  }

  /** In a numeral a '-' can only be the leading sign, so the range rule does not split it. */
  lemma NumeralIsNoRange(t: string)
    requires ParseNumber(t).Some?
    ensures RangeRule(t).None?
  {
    NumeralNoInnerDash(t);
    match FindChar(t, '-')
    case None =>
    case Some(p) =>
      assert p == 0;
  }

  /** A numeral gives no rule before the last one anything to work with. */
  lemma NumeralEscapesEarlierRules(t: string)
    requires ParseNumber(t).Some?
    ensures RangeRule(t).None? && AtLeastRule(t).None? && GreaterRule(t).None? && PlusRule(t).None?
    ensures AtMostRule(t).None? && LessRule(t).None? && MinusRule(t).None?
  {
    NumeralHasNoOperator(t);
    NumeralIsNoRange(t);
  }

  /** Only the last rule gives `Exact`. */
  lemma ExactOnlyFromExactRule(e: string)
    ensures ParseTrimmedExpr(e).Some? && ParseTrimmedExpr(e).value.Exact? ==> ParseTrimmedExpr(e) == ExactRule(e)
  {
  }

  /** A bare number gives `Exact` of its value, and `Exact` comes from nothing else. */
  lemma BareNumberIsExact(expr: string, v: real)
    ensures ParsePointsFilterExpr(expr) == Some(Exact(v)) <==> ParseNumber(Trim(expr)) == Some(v)
  {
    var t := Trim(expr);
    ExactOnlyFromExactRule(t);
    if ParseNumber(t).Some? {
      NumeralEnds(t);
      NumeralEscapesEarlierRules(t);
    }
  }

  /** An expression that begins with a comparison sign is no range: the part
      left of its first '-' would have to parse as a number. */
  lemma RangeRuleSilent(e: string)
    requires e != []
    requires e[0] == '>' || e[0] == '<'
    ensures RangeRule(e).None?
  {
    match FindChar(e, '-')
    case None =>
    case Some(p) =>
      if 0 < p < |e| - 1 {
        TrimKeepsFirst(e[..p]);
        if ParseNumber(Trim(e[..p])).Some? {
          NumeralEnds(Trim(e[..p]));
        }
      }
  }

  /** An expression whose only '-' could be its first or last character is no range. */
  lemma RangeRuleNeedsInnerDash(e: string)
    requires forall i :: 0 < i < |e| - 1 ==> e[i] != '-'
    ensures RangeRule(e).None?
  {
  }

  /** After a comparison prefix, trimming only touches the end. */
  lemma TrimAfterOperator(op: string, x: string)
    requires op != [] && IsTrimmed(op)
    ensures Trim(op + x) == op + TrimEnd(x)
  {
    TrimAfterPrefix(op, x);
    TrimEndAfterLast(op, x);
  }

  /** Before a sign suffix, trimming only touches the front. */
  lemma TrimBeforeSign(x: string, sign: char)
    requires !IsWhitespace(sign)
    ensures Trim(x + [sign]) == TrimStart(x) + [sign]
  {
    TrimBeforeSuffix(x, [sign]);
    TrimStartBeforeChar(x, sign);
  }

  /** The text after a comparison sign cannot begin with '=' when it trims to a numeral. */
  lemma NoEqualsAfterOperator(x: string)
    requires Trim(x) != [] && Trim(x)[0] != '='
    ensures TrimEnd(x) == [] || TrimEnd(x)[0] != '='
  {
    var t := TrimEnd(x);
    if t != [] && !IsWhitespace(t[0]) {
      TrimEndKeepsFirst(x);
    }
  }

  /** The number after a comparison prefix is the number of the trimmed text. */
  lemma NumberAfterOperator(op: string, x: string, v: real)
    requires ParseNumber(Trim(x)) == Some(v)
    ensures ParseNumber(Trim((op + TrimEnd(x))[|op|..])) == Some(v)
  {
    assert (op + TrimEnd(x))[|op|..] == TrimEnd(x);
    TrimOfTrimEnd(x);
  }

  /** The number before a sign suffix is the number of the trimmed text. */
  lemma NumberBeforeSign(x: string, sign: char, v: real)
    requires ParseNumber(Trim(x)) == Some(v)
    ensures |TrimStart(x) + [sign]| > 1
    ensures ParseNumber(Trim((TrimStart(x) + [sign])[..|TrimStart(x)|])) == Some(v)
  {
    assert (TrimStart(x) + [sign])[..|TrimStart(x)|] == TrimStart(x);
    TrimOfTrimStart(x);
  }

  /** A one-character comparison sign followed by a numeral is not the two-character form. */
  lemma NoEqualsAfterSign(op: char, x: string)
    requires Trim(x) != [] && Trim(x)[0] != '='
    ensures !StartsWith([op] + TrimEnd(x), [op, '='])
  {
    NoEqualsAfterOperator(x);
    assert [op, '='] == [op] + "=";
    ConsStartsWith(op, TrimEnd(x), op, "=");
    StartsWithSingle(TrimEnd(x), '=');
  }

  /** A comparison prefix followed by a numeral ends like the numeral, so in no sign. */
  lemma NoSignAfterOperator(op: string, x: string)
    requires Trim(x) != [] && Trim(x)[|Trim(x)| - 1] != '+' && Trim(x)[|Trim(x)| - 1] != '-'
    ensures !EndsWith(op + TrimEnd(x), "+") && !EndsWith(op + TrimEnd(x), "-")
  {
    var e := op + TrimEnd(x);
    TrimEndKeepsLast(x);
    assert e[|e| - 1] == TrimEnd(x)[|TrimEnd(x)| - 1];
    EndsWithLast(e, "+");
    EndsWithLast(e, "-");
  }

  /** A numeral followed by whitespace and a sign starts like the numeral, so with
      no comparison sign, and has no '-' strictly inside. */
  lemma SignFormShape(x: string, sign: char)
    requires ParseNumber(Trim(x)).Some?
    ensures !StartsWith(TrimStart(x) + [sign], ">") && !StartsWith(TrimStart(x) + [sign], ">=")
    ensures !StartsWith(TrimStart(x) + [sign], "<") && !StartsWith(TrimStart(x) + [sign], "<=")
    ensures RangeRule(TrimStart(x) + [sign]).None?
  {
    var u, n := TrimStart(x), Trim(x);
    var e := u + [sign];
    NumeralEnds(n);
    NumeralNoInnerDash(n);
    TrimEndDropsWhitespace(u);
    assert n == u[..|n|] && AllWhitespace(u[|n|..]);
    assert e[0] == n[0];
    StartsWithHead(e, ">");
    StartsWithHead(e, ">=");
    StartsWithHead(e, "<");
    StartsWithHead(e, "<=");
    forall i | 0 < i < |e| - 1
      ensures e[i] != '-'
    {
      if i < |n| {
        assert e[i] == n[i];
      } else {
        assert e[i] == u[|n|..][i - |n|];
      }
    }
    RangeRuleNeedsInnerDash(e);
  }

  /** `">=x"` gives the lower bound x. */
  lemma AtLeastExpression(x: string, v: real)
    requires ParseNumber(Trim(x)) == Some(v)
    ensures ParsePointsFilterExpr(">=" + x) == Some(Range(Some(v), None))
  {
    TrimAfterOperator(">=", x);
    RangeRuleSilent(">=" + TrimEnd(x));
    NumberAfterOperator(">=", x, v);
  }

  /** `">x"` gives the lower bound x as well. */
  lemma GreaterExpression(x: string, v: real)
    requires ParseNumber(Trim(x)) == Some(v)
    ensures ParsePointsFilterExpr(">" + x) == Some(Range(Some(v), None))
  {
    TrimAfterOperator(">", x);
    var e := ">" + TrimEnd(x);
    RangeRuleSilent(e);
    NumeralEnds(Trim(x));
    NoEqualsAfterSign('>', x);
    StartsWithSingle(e, '>');
    NumberAfterOperator(">", x, v);
  }

  /** `"x+"` gives the lower bound x as well. */
  lemma PlusExpression(x: string, v: real)
    requires ParseNumber(Trim(x)) == Some(v)
    ensures ParsePointsFilterExpr(x + "+") == Some(Range(Some(v), None))
  {
    TrimBeforeSign(x, '+');
    var e := TrimStart(x) + "+";
    SignFormShape(x, '+');
    EndsWithSingle(e, '+');
    NumberBeforeSign(x, '+', v);
  }

  /** `"<=x"` gives the upper bound x. */
  lemma AtMostExpression(x: string, v: real)
    requires ParseNumber(Trim(x)) == Some(v)
    ensures ParsePointsFilterExpr("<=" + x) == Some(Range(None, Some(v)))
  {
    TrimAfterOperator("<=", x);
    var e := "<=" + TrimEnd(x);
    RangeRuleSilent(e);
    StartsWithHead(e, ">=");
    StartsWithHead(e, ">");
    NumeralEnds(Trim(x));
    NoSignAfterOperator("<=", x);
    NumberAfterOperator("<=", x, v);
  }

  /** `"<x"` gives the upper bound x as well. */
  lemma LessExpression(x: string, v: real)
    requires ParseNumber(Trim(x)) == Some(v)
    ensures ParsePointsFilterExpr("<" + x) == Some(Range(None, Some(v)))
  {
    TrimAfterOperator("<", x);
    var e := "<" + TrimEnd(x);
    RangeRuleSilent(e);
    StartsWithHead(e, ">=");
    StartsWithHead(e, ">");
    NumeralEnds(Trim(x));
    NoSignAfterOperator("<", x);
    NoEqualsAfterSign('<', x);
    StartsWithSingle(e, '<');
    NumberAfterOperator("<", x, v);
  }

  /** `"x-"` gives the upper bound x as well. */
  lemma MinusExpression(x: string, v: real)
    requires ParseNumber(Trim(x)) == Some(v)
    ensures ParsePointsFilterExpr(x + "-") == Some(Range(None, Some(v)))
  {
    TrimBeforeSign(x, '-');
    var e := TrimStart(x) + "-";
    SignFormShape(x, '-');
    EndsWithSingle(e, '+');
    EndsWithSingle(e, '-');
    NumberBeforeSign(x, '-', v);
  }

  /** Around an inner '-', trimming touches only the two outer ends. */
  lemma TrimAroundDash(a: string, b: string)
    requires TrimStart(a) != []
    ensures Trim(a + "-" + b) == TrimStart(a) + "-" + TrimEnd(b)
  {
    assert a + "-" + b == a + ("-" + b);
    if AllWhitespace(a) {
      TrimStartOfWhitespace(a);
    }
    TrimStartConcat(a, "-" + b);
    assert TrimStart(a) + ("-" + b) == (TrimStart(a) + "-") + b;
    TrimEndAfterLast(TrimStart(a) + "-", b);
  }

  /** The range rule splits at the first '-' and reads both sides. */
  lemma RangeRuleSplits(ta: string, tb: string, lo: real, hi: real)
    requires ta != [] && tb != [] && '-' !in ta
    requires ParseNumber(Trim(ta)) == Some(lo) && ParseNumber(Trim(tb)) == Some(hi)
    ensures RangeRule(ta + "-" + tb) == Some(Range(Some(lo), Some(hi)))
  {
    var e := ta + "-" + tb;
    FindCharAfter(ta, '-', tb);
    assert e[..|ta|] == ta;
    assert e[|ta| + 1..] == tb;
  }

  /** `"a-b"` with numbers on both sides and no '-' in `a` gives the closed range
      [a, b]; this rule is tried before every other. */
  lemma RangeExpression(a: string, b: string, lo: real, hi: real)
    requires '-' !in a
    requires ParseNumber(Trim(a)) == Some(lo) && ParseNumber(Trim(b)) == Some(hi)
    ensures ParsePointsFilterExpr(a + "-" + b) == Some(Range(Some(lo), Some(hi)))
  {
    var ta, tb := TrimStart(a), TrimEnd(b);
    TrimOfTrimStart(a);
    TrimOfTrimEnd(b);
    TrimAroundDash(a, b);
    assert '-' !in ta by {
      TrimStartDropsWhitespace(a);
      assert ta == a[|a| - |ta|..];
    }
    RangeRuleSplits(ta, tb, lo, hi);
  }

  // Examples from the source's tests, one expression each.

  lemma ExampleExactDecimal()
    ensures ParsePointsFilterExpr("2.5") == Some(Exact(2.5))
  {
    DecimalExample25();
    NumberIsTrimmed("2.5");
    BareNumberIsExact("2.5", 2.5);
  }

  lemma ExampleExactWhole()
    ensures ParsePointsFilterExpr("10") == Some(Exact(10.0))
  {
    WholeExamples();
    NumberIsTrimmed("10");
    BareNumberIsExact("10", 10.0);
  }

  lemma ExampleAtLeast()
    ensures ParsePointsFilterExpr(">=5") == Some(Range(Some(5.0), None))
  {
    assert ">=" + "5" == ">=5";
    WholeExamples();
    NumberIsTrimmed("5");
    AtLeastExpression("5", 5.0);
  }

  lemma ExamplePlus()
    ensures ParsePointsFilterExpr("5+") == Some(Range(Some(5.0), None))
  {
    assert "5" + "+" == "5+";
    WholeExamples();
    NumberIsTrimmed("5");
    PlusExpression("5", 5.0);
  }

  lemma ExampleGreater()
    ensures ParsePointsFilterExpr(">5") == Some(Range(Some(5.0), None))
  {
    assert ">" + "5" == ">5";
    WholeExamples();
    NumberIsTrimmed("5");
    GreaterExpression("5", 5.0);
  }

  lemma ExampleAtMost()
    ensures ParsePointsFilterExpr("<=10") == Some(Range(None, Some(10.0)))
  {
    assert "<=" + "10" == "<=10";
    WholeExamples();
    NumberIsTrimmed("10");
    AtMostExpression("10", 10.0);
  }

  lemma ExampleLess()
    ensures ParsePointsFilterExpr("<10") == Some(Range(None, Some(10.0)))
  {
    assert "<" + "10" == "<10";
    WholeExamples();
    NumberIsTrimmed("10");
    LessExpression("10", 10.0);
  }

  lemma ExampleMinus()
    ensures ParsePointsFilterExpr("10-") == Some(Range(None, Some(10.0)))
  {
    assert "10" + "-" == "10-";
    WholeExamples();
    NumberIsTrimmed("10");
    MinusExpression("10", 10.0);
  }

  lemma ExampleWholeRange()
    ensures ParsePointsFilterExpr("5-10") == Some(Range(Some(5.0), Some(10.0)))
  {
    assert "5" + "-" + "10" == "5-10";
    WholeExamples();
    NumberIsTrimmed("5");
    NumberIsTrimmed("10");
    RangeExpression("5", "10", 5.0, 10.0);
  }

  lemma ExampleDecimalRange()
    ensures ParsePointsFilterExpr("2.5-7.5") == Some(Range(Some(2.5), Some(7.5)))
  {
    assert "2.5" + "-" + "7.5" == "2.5-7.5";
    DecimalExample25();
    DecimalExample75();
    NumberIsTrimmed("2.5");
    NumberIsTrimmed("7.5");
    RangeExpression("2.5", "7.5", 2.5, 7.5);
  }

  /** Blank expressions, as in the source's tests. */
  lemma BlankExamples()
    ensures ParsePointsFilterExpr("") == Some(NoFilter)
    ensures ParsePointsFilterExpr("  ") == Some(NoFilter)
  {
    TrimStartOfWhitespace("  ");
    BlankExpression("  ");
  }
}
