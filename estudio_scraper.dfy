/** The Asian-handicap and goal-line engine of the match study page: reading a line
    such as "-0/0.5", snapping it to a quarter and rendering it, settling a final score
    against a line, and the market-versus-precedent analysis built from those pieces.
    The analysis is modelled as the case it selects and the line texts it embeds,
    not as its HTML. */
module EstudioScraper {
  import opened Builtins

  // ================================================================ reading a line

  /** The text with surrounding whitespace and every inner space removed. */
  function Cleaned(t: string): string {
    RemoveAll(Strip(t), ' ')
  }

  /** The text is exactly "0" or "-0". */
  predicate IsBareZero(p: string) {
    (|p| == 1 && p[0] == '0') || (|p| == 2 && p[0] == '-' && p[1] == '0')
  }

  /** When the second half of a split line takes the minus sign of the first half. */
  predicate InheritsMinus(startsWithMinus: bool, p1: string, v1: real, p2: string, v2: real) {
    (v1 < 0.0 && !StartsWith(p2, '-') && v2 > 0.0)
    || (startsWithMinus && v1 == 0.0 && IsBareZero(p1) && !StartsWith(p2, '-') && v2 > 0.0)
  }

  /** The mean of the two halves of a split line, the second half signed as above. */
  function SplitMean(startsWithMinus: bool, p1: string, v1: real, p2: string, v2: real): real {
    (v1 + (if InheritsMinus(startsWithMinus, p1, v1, p2, v2) then -Abs(v2) else v2)) / 2.0
  }

  /** A split line "p1/p2": absent unless both halves are numbers. */
  function SplitLineValue(startsWithMinus: bool, p1: string, p2: string): Option<real> {
    match (PyFloat(p1), PyFloat(p2))
    case (Some(v1), Some(v2)) => Some(SplitMean(startsWithMinus, p1, v1, p2, v2))
    case _ => None
  }

  /** parse_ah_to_number_of: the numeric value of a handicap line; None (never an
      exception) for a missing or non-text value, a blank, "-" or "?", a split that is
      not in two parts, or a part that is not a number. */
  function ParseAh(raw: Option<string>): (r: Option<real>)
    ensures r.Some? ==> raw.Some? && HasDigit(raw.value)
    ensures r.Some? && r.value < 0.0 ==> '-' in raw.value
  {
    match raw
    case None => None
    case Some(t) =>
      var s := Cleaned(t);
      CleanedChars(t);
      if s == "" || s == "-" || s == "?" then None
      else if '/' in s then
        var parts := Split(s, '/');
        if |parts| != 2 then None
        else
          var minus := StartsWith(Strip(t), '-');
          SplitPartsChars(s, '/');
          assert parts[0] in parts && parts[1] in parts;
          SplitLineChars(minus, parts[0], parts[1]);
          StripChars(t);
          assert minus ==> Strip(t)[0] in Strip(t);
          SplitLineValue(minus, parts[0], parts[1])
      else
        PyFloatChars(s);
        PyFloat(s)
  }

  lemma CleanedChars(t: string)
    ensures forall c :: c in Cleaned(t) ==> c in t
  {
    StripChars(t);
    RemoveAllChars(Strip(t), ' ');
  }

  /** float() reads a number only from text holding a digit, and a negative one only
      from text holding a minus sign. */
  lemma PyFloatChars(s: string)
    ensures PyFloat(s).Some? ==> HasDigit(s) && (PyFloat(s).value < 0.0 ==> '-' in s)
  {
    StripChars(s);
    ParseDecimalChars(Strip(s));
  }

  lemma SplitLineChars(minus: bool, p1: string, p2: string)
    ensures SplitLineValue(minus, p1, p2).Some? ==>
              HasDigit(p1) && (SplitLineValue(minus, p1, p2).value < 0.0 ==> '-' in p1 || '-' in p2 || minus)
  {
    PyFloatChars(p1);
    PyFloatChars(p2);
  }

  lemma {:induction false} CleanedPlain(t: string)
    requires t != [] && NumericChars(t) && !IsSpace(t[0]) && !IsSpace(t[|t| - 1])
    ensures Cleaned(t) == t
  {
    StripUnchanged(t);
    NumericCharsExclude(t, ' ');
  }

  /** A plain number written without spaces reads as itself. */
  lemma {:induction false} ParseAhPlain(t: string)
    requires t != [] && NumericChars(t) && IsDigit(t[|t| - 1]) && !IsSpace(t[0])
    ensures ParseAh(Some(t)) == ParseDecimal(t)
  {
    CleanedPlain(t);
    NumericCharsExclude(t, '/');
    StripUnchanged(t);
    assert t != "-" && t != "?";
  }

  lemma {:induction false} SplitTextParts(a: string, b: string)
    requires NumericChars(a) && NumericChars(b)
    ensures '/' !in a && '/' !in b && ' ' !in a + "/" + b
    ensures Split(a + "/" + b, '/') == [a, b]
  {
    NumericCharsExclude(a, '/');
    NumericCharsExclude(b, '/');
    NumericCharsExclude(a, ' ');
    NumericCharsExclude(b, ' ');
    SplitPair(a, '/', b);
  }

  lemma {:induction false} PyFloatUnsigned(s: string, v: real)
    requires UnsignedDecimal(s) == Some(v)
    ensures PyFloat(s) == Some(v) && !StartsWith(s, '-')
  {
    UnsignedStartsWithDigit(s);
    StripUnchanged(s);
  }

  lemma {:induction false} PyFloatNegative(s: string, v: real)
    requires UnsignedDecimal(s) == Some(v)
    ensures PyFloat("-" + s) == Some(-v)
  {
    UnsignedStartsWithDigit(s);
    StripUnchanged("-" + s);
    assert ("-" + s)[1..] == s;
  }

  lemma {:induction false} PyFloatNegativeZero(s: string, v: real)
    requires UnsignedDecimal(s) == Some(v) && v == 0.0
    ensures PyFloat("-" + s) == Some(0.0)
  {
    UnsignedStartsWithDigit(s);
    StripUnchanged("-" + s);
    assert ("-" + s)[1..] == s;
  }

  /** A text already clean (no surrounding whitespace, no spaces) that is not a
      sentinel is read directly: as a split line when it holds a '/'. */
  lemma {:induction false} ParseAhOfClean(t: string)
    requires Strip(t) == t && ' ' !in t && t != "" && t != "-" && t != "?"
    ensures ParseAh(Some(t)) == if '/' in t then
                                  var parts := Split(t, '/');
                                  if |parts| != 2 then None else SplitLineValue(StartsWith(t, '-'), parts[0], parts[1])
                                else PyFloat(t)
  {
    assert Cleaned(t) == t;
  }

  lemma {:induction false} SplitTextClean(a: string, b: string)
    requires UnsignedDecimal(b).Some? && a != [] && NumericChars(a) && !IsSpace(a[0])
    ensures var t := a + "/" + b;
            Strip(t) == t && ' ' !in t && t != "" && t != "-" && t != "?" && '/' in t
            && Split(t, '/') == [a, b]
  {
    var t := a + "/" + b;
    UnsignedStartsWithDigit(b);
    SplitTextParts(a, b);
    assert t[|t| - 1] == b[|b| - 1];
    assert t[0] == a[0];
    StripUnchanged(t);
    assert t[|a|] == '/';
  }

  lemma {:induction false} SplitValueOf(sm: bool, p1: string, p2: string, v1: real, v2: real)
    requires PyFloat(p1) == Some(v1) && PyFloat(p2) == Some(v2)
    ensures SplitLineValue(sm, p1, p2) == Some(SplitMean(sm, p1, v1, p2, v2))
  {
  }

  /** A clean split text reads as the split-line value of its two halves. */
  lemma {:induction false} ParseAhSplitText(p1: string, b: string)
    requires UnsignedDecimal(b).Some? && p1 != [] && NumericChars(p1) && !IsSpace(p1[0])
    ensures ParseAh(Some(p1 + "/" + b)) == SplitLineValue(StartsWith(p1, '-'), p1, b)
  {
    SplitTextClean(p1, b);
    assert StartsWith(p1 + "/" + b, '-') == StartsWith(p1, '-');
    ParseAhOfClean(p1 + "/" + b);
  }

  lemma {:induction false} UnsignedSplitText(a: string, b: string)
    requires UnsignedDecimal(a).Some? && UnsignedDecimal(b).Some?
    ensures ParseAh(Some(a + "/" + b)) == SplitLineValue(false, a, b)
  {
    UnsignedStartsWithDigit(a);
    ParseAhSplitText(a, b);
  }

  lemma {:induction false} NegativeSplitText(a: string, b: string)
    requires UnsignedDecimal(a).Some? && UnsignedDecimal(b).Some?
    ensures ParseAh(Some("-" + a + "/" + b)) == SplitLineValue(true, "-" + a, b)
  {
    UnsignedStartsWithDigit(a);
    NumericConcat("-", a);
    ParseAhSplitText("-" + a, b);
  }

  lemma MeanUnsigned(a: string, va: real, b: string, vb: real)
    requires va >= 0.0
    ensures Some(SplitMean(false, a, va, b, vb)) == Some((va + vb) / 2.0)
  {
  }

  lemma {:induction false} MeanNegative(p1: string, va: real, b: string, vb: real)
    requires !StartsWith(b, '-') && va >= 0.0 && vb >= 0.0 && (va > 0.0 || IsBareZero(p1))
    ensures Some(SplitMean(true, p1, -va, b, vb)) == Some(-(va + vb) / 2.0)
  {
    if vb > 0.0 {
      assert InheritsMinus(true, p1, -va, b, vb);
    }
  }

  lemma MeanLongZero(a: string, b: string, vb: real)
    requires |a| > 1
    ensures Some(SplitMean(true, "-" + a, 0.0, b, vb)) == Some(vb / 2.0)
  {
    assert !IsBareZero("-" + a);
  }

  lemma MeanMinusZero(b: string, vb: real)
    requires !StartsWith(b, '-') && vb >= 0.0
    ensures Some(SplitMean(true, "-" + "0", 0.0, b, vb)) == Some(-vb / 2.0)
  {
    if vb > 0.0 {
      assert InheritsMinus(true, "-" + "0", 0.0, b, vb);
    }
  }

  lemma {:induction false} UnsignedSplitValue(a: string, b: string, va: real, vb: real)
    requires UnsignedDecimal(a) == Some(va) && UnsignedDecimal(b) == Some(vb)
    ensures SplitLineValue(false, a, b) == Some(SplitMean(false, a, va, b, vb))
  {
    PyFloatUnsigned(a, va);
    PyFloatUnsigned(b, vb);
    SplitValueOf(false, a, b, va, vb);
  }

  /** A split line of two unsigned halves is their plain mean: "1/1.5" is 1.25. */
  lemma {:induction false} SplitLineUnsigned(a: string, b: string, va: real, vb: real)
    requires UnsignedDecimal(a) == Some(va) && UnsignedDecimal(b) == Some(vb)
    ensures ParseAh(Some(a + "/" + b)) == Some((va + vb) / 2.0)
  {
    UnsignedSplitText(a, b);
    UnsignedSplitValue(a, b, va, vb);
    MeanUnsigned(a, va, b, vb);
  }

  lemma {:induction false} NegativeSplitValue(a: string, b: string, va: real, vb: real)
    requires UnsignedDecimal(a) == Some(va) && UnsignedDecimal(b) == Some(vb)
    ensures SplitLineValue(true, "-" + a, b) == Some(SplitMean(true, "-" + a, -va, b, vb))
    ensures !StartsWith(b, '-')
  {
    PyFloatNegative(a, va);
    PyFloatUnsigned(b, vb);
    SplitValueOf(true, "-" + a, b, -va, vb);
  }

  /** A leading minus sign covers both halves: "-0.5/1" is -0.75. */
  lemma {:induction false} SplitLineNegative(a: string, b: string, va: real, vb: real)
    requires UnsignedDecimal(a) == Some(va) && UnsignedDecimal(b) == Some(vb) && va > 0.0
    ensures ParseAh(Some("-" + a + "/" + b)) == Some(-(va + vb) / 2.0)
  {
    NegativeSplitText(a, b);
    NegativeSplitValue(a, b, va, vb);
    MeanNegative("-" + a, va, b, vb);
  }

  lemma MinusZeroParts()
    ensures UnsignedDecimal("0") == Some(0.0) && "-" + "0" == "-0"
  {
    ZeroDigit();
  }

  lemma MinusZeroText(b: string)
    ensures "-" + "0" + "/" + b == "-0/" + b
  {
  }

  /** So does it when the first half is zero written exactly "0": "-0/0.5" is -0.25. */
  lemma {:induction false} SplitLineMinusZero(b: string, vb: real)
    requires UnsignedDecimal(b) == Some(vb)
    ensures ParseAh(Some("-0/" + b)) == Some(-vb / 2.0)
  {
    MinusZeroParts();
    NegativeSplitText("0", b);
    MinusZeroText(b);
    ZeroSplitValue("0", b, 0.0, vb);
    PyFloatUnsigned(b, vb);
    MeanMinusZero(b, vb);
  }

  lemma {:induction false} ZeroSplitValue(a: string, b: string, va: real, vb: real)
    requires UnsignedDecimal(a) == Some(va) && UnsignedDecimal(b) == Some(vb) && va == 0.0
    ensures SplitLineValue(true, "-" + a, b) == Some(SplitMean(true, "-" + a, 0.0, b, vb))
  {
    PyFloatNegativeZero(a, va);
    PyFloatUnsigned(b, vb);
    SplitValueOf(true, "-" + a, b, 0.0, vb);
  }

  /** ... whereas a zero first half written with more than one character keeps the
      second half positive. */
  lemma {:induction false} SplitLineLongZero(a: string, b: string, va: real, vb: real)
    requires UnsignedDecimal(a) == Some(va) && UnsignedDecimal(b) == Some(vb) && va == 0.0 && |a| > 1
    ensures ParseAh(Some("-" + a + "/" + b)) == Some(vb / 2.0)
  {
    NegativeSplitText(a, b);
    ZeroSplitValue(a, b, va, vb);
    MeanLongZero(a, b, vb);
  }

  lemma ZeroPointParts()
    ensures UnsignedDecimal("0" + "." + "0") == Some(0.0)
    ensures UnsignedDecimal("0" + "." + "5") == Some(0.5)
  {
    ZeroDigit();
    DecimalPointSplit("0", "0");
    assert DigitsValue("5") == 5 by { assert "5"[..0] == []; }
    DecimalPointSplit("0", "5");
  }

  lemma ZeroPointText()
    ensures "0" + "." + "0" == "0.0" && "0" + "." + "5" == "0.5"
    ensures "-" + "0.0" + "/" + "0.5" == "-0.0/0.5" && "-0/" + "0.5" == "-0/0.5"
  {
  }

  /** "-0/0.5" reads as -0.25 but "-0.0/0.5" as +0.25. */
  lemma ZeroHalfExamples()
    ensures ParseAh(Some("-0/0.5")) == Some(-0.25)
    ensures ParseAh(Some("-0.0/0.5")) == Some(0.25)
  {
    ZeroPointParts();
    ZeroPointText();
    SplitLineMinusZero("0.5", 0.5);
    SplitLineLongZero("0.0", "0.5", 0.0, 0.5);
  }

  // ================================================================ rendering a line

  /** The line is unreadable exactly when it is missing, blank or a sentinel after the
      spaces are removed, a '/' split is not in two parts or has a part that is not a
      number, or the unsplit text is not a number. */
  lemma ParseAhRejects(raw: Option<string>)
    ensures ParseAh(raw).None? <==>
              raw.None? ||
              (var s := Cleaned(raw.value);
               s in {"", "-", "?"} ||
               (if '/' in s then |Split(s, '/')| != 2 || exists p :: p in Split(s, '/') && PyFloat(p).None?
                else PyFloat(s).None?))
  {
    if raw.Some? {
      var s := Cleaned(raw.value);
      if s !in {"", "-", "?"} && '/' in s && |Split(s, '/')| == 2 {
        var parts := Split(s, '/');
        assert forall p :: p in parts <==> p == parts[0] || p == parts[1];
      }
    }
  }

  /** The magnitude snapped to a quarter line: exact quarters are kept, other
      fractions go down below .25, to .5 below .75, and up otherwise. */
  function SnapMagnitude(a: real): (r: real)
    requires a >= 0.0
    ensures r >= 0.0 && IsQuarter(r)
    ensures IsQuarter(a) ==> r == a
    ensures !IsQuarter(a) ==> IsHalf(r) && Abs(r - a) < 0.25
  {
    var f := a.Floor;
    var m := a - f as real;  // abs_num % 1
    QuarterFraction(a);
    if m == 0.0 then a
    else if m == 0.25 then f as real + 0.25
    else if m == 0.5 then a
    else if m == 0.75 then f as real + 0.75
    else if m < 0.25 then
      HalfLines(f);
      f as real
    else if m < 0.75 then
      HalfLines(f);
      f as real + 0.5
    else
      assert Ceil(a) == f + 1;
      HalfLines(f + 1);
      Ceil(a) as real
  }

  /** A whole line and the half line above it are half (and so quarter) lines. */
  lemma HalfLines(n: int)
    ensures IsHalf(n as real) && IsQuarter(n as real)
    ensures IsHalf(n as real + 0.5) && IsQuarter(n as real + 0.5)
  {
    FloorIs(4.0 * (n as real), 4 * n);
    FloorIs(2.0 * (n as real), 2 * n);
    FloorIs(4.0 * (n as real + 0.5), 4 * n + 2);
    FloorIs(2.0 * (n as real + 0.5), 2 * n + 1);
  }

  lemma QuarterFraction(a: real)
    ensures IsQuarter(a) <==> (var m := a - a.Floor as real; m == 0.0 || m == 0.25 || m == 0.5 || m == 0.75)
  {
    var f := a.Floor;
    var m := a - f as real;
    var k := (4.0 * m).Floor;
    assert 4.0 * a == 4.0 * m + (4 * f) as real;
    if IsQuarter(a) {
      assert (4.0 * a).Floor == k + 4 * f;
      assert 0 <= k < 4;
      assert m == k as real / 4.0;
    }
  }

  /** sign * abs_rounded: the line snapped to a quarter, keeping its sign. */
  function SignedSnap(v: real): (r: real)
    ensures IsQuarter(r)
    ensures v > 0.0 ==> r >= 0.0
    ensures v < 0.0 ==> r <= 0.0
    ensures IsQuarter(v) ==> r == v
    ensures !IsQuarter(v) ==> Abs(r - v) < 0.25
  {
    if v < 0.0 then
      var r := -SnapMagnitude(-v);
      QuarterNegated(v);
      QuarterNegated(-r);
      r
    else SnapMagnitude(v)
  }

  lemma QuarterNegated(x: real)
    ensures IsQuarter(x) <==> IsQuarter(-x)
  {
    if IsQuarter(x) {
      WholeNegated(4.0 * x);
    }
    if IsQuarter(-x) {
      WholeNegated(4.0 * -x);
    }
  }

  /** round(v, 0) lies within 1e-9 of v. */
  predicate NearWhole(v: real) {
    Abs(v - RoundHalfEven(v) as real) < 0.000000001
  }

  predicate NearHalf(v: real) {
    Abs(v - (v.Floor as real + 0.5)) < 0.000000001
  }

  predicate NearQuarter(v: real) {
    Abs(v - (v.Floor as real + 0.25)) < 0.000000001 || Abs(v - (v.Floor as real + 0.75)) < 0.000000001
  }

  /** The output text for a snapped line: "0", an integer, one decimal or two. */
  function RenderLine(v: real): (s: string)
    ensures s != [] && NumericChars(s) && IsDigit(s[|s| - 1]) && !IsSpace(s[0])
  {
    if v == 0.0 then "0" else RenderNonZero(v)
  }

  /** A nonzero line within 1e-9 of round(v, 0) prints as that integer. */
  function RenderNonZero(v: real): (s: string)
    ensures s != [] && NumericChars(s) && IsDigit(s[|s| - 1]) && !IsSpace(s[0])
  {
    if NearWhole(v) then
      var s := IntText(RoundHalfEven(v));
      NumericHead(s);
      s
    else RenderFraction(v)
  }

  /** One decimal near a half line; two near a quarter line, and two otherwise. */
  function RenderFraction(v: real): (s: string)
    ensures s != [] && NumericChars(s) && IsDigit(s[|s| - 1]) && !IsSpace(s[0])
  {
    var s := if NearHalf(v) then FormatFixed(v, 1)
             else if NearQuarter(v) then FormatFixed(v, 2)
             else FormatFixed(v, 2);
    NumericHead(s);
    s
  }

  lemma HalfFraction(a: real)
    requires IsHalf(a)
    ensures var m := a - a.Floor as real; m == 0.0 || m == 0.5
  {
    var f := a.Floor;
    var k := (2.0 * a).Floor;
    assert 2.0 * (a - f as real) == (k - 2 * f) as real;
  }

  /** On quarter lines the 1e-9 tolerances act as exact tests, so the last branch of
      the renderer is never taken, and the text reads back as the line itself. */
  lemma {:induction false} RenderQuarter(q: real)
    requires IsQuarter(q) && q != 0.0
    ensures NearWhole(q) || NearHalf(q) || NearQuarter(q)
    ensures RenderLine(q) == if IsWhole(q) then IntText(q.Floor)
                             else if IsHalf(q) then FormatFixed(q, 1)
                             else FormatFixed(q, 2)
    ensures ParseDecimal(RenderLine(q)) == Some(q)
  {
    var m := q - q.Floor as real;
    QuarterFraction(q);
    if m == 0.0 {
      RenderWhole(q);
    } else if m == 0.5 {
      RenderHalf(q);
    } else {
      RenderQuarterOnly(q);
    }
  }

  /** A nonzero whole line prints as its integer. */
  lemma RenderWhole(q: real)
    requires q != 0.0 && q - q.Floor as real == 0.0
    ensures IsWhole(q) && NearWhole(q)
    ensures RenderLine(q) == IntText(q.Floor) && ParseDecimal(RenderLine(q)) == Some(q)
  {
    assert RoundHalfEven(q) == q.Floor;
  }

  /** A half line prints with one decimal. */
  lemma RenderHalf(q: real)
    requires q - q.Floor as real == 0.5
    ensures !IsWhole(q) && IsHalf(q) && NearHalf(q)
    ensures RenderLine(q) == FormatFixed(q, 1) && ParseDecimal(RenderLine(q)) == Some(q)
  {
    HalfLineFacts(q);
    HalfIsDecimal(q);
    FormatFixedParses(q, 1);
  }

  lemma HalfLineFacts(q: real)
    requires q - q.Floor as real == 0.5
    ensures !IsWhole(q) && IsHalf(q) && !NearWhole(q) && NearHalf(q)
  {
    assert 2.0 * q == (2 * q.Floor + 1) as real;
  }

  /** A line at .25 or .75 prints with two decimals. */
  lemma RenderQuarterOnly(q: real)
    requires IsQuarter(q)
    requires var m := q - q.Floor as real; m == 0.25 || m == 0.75
    ensures !IsWhole(q) && !IsHalf(q) && NearQuarter(q)
    ensures RenderLine(q) == FormatFixed(q, 2) && ParseDecimal(RenderLine(q)) == Some(q)
  {
    assert !NearWhole(q);
    assert !NearHalf(q);
    if IsHalf(q) {
      HalfFraction(q);
    }
    QuarterIsDecimal(q);
    FormatFixedParses(q, 2);
  }

  /** The snapped, rendered value of a line that reads as v (lines 97-115). */
  function FormattedValue(v: real): (s: string)
    ensures s != [] && NumericChars(s) && IsDigit(s[|s| - 1]) && !IsSpace(s[0])
  {
    if v == 0.0 then "0"
    else
      var q := SignedSnap(v);
      if q == 0.0 then "0"
      else
        RenderQuarter(q);
        RenderLine(q)
  }

  /** format_ah_as_decimal_string_of. "-" and "?" come back as they are (even for the
      spreadsheet); a missing, blank or unreadable line is "-"; a zero line is "0";
      otherwise the snapped line, which the spreadsheet form prefixes with ' and
      writes with a decimal comma. */
  function Format(raw: Option<string>, forSheets: bool): (r: string)
    ensures r != []
  {
    match raw
    case None => "-"
    case Some(t) =>
      var s := Strip(t);
      if s == "" then "-"
      else if s == "-" || s == "?" then s
      else
        match ParseAh(raw)
        case None => "-"
        case Some(v) =>
          if v == 0.0 then "0"
          else if forSheets then "'" + ReplaceChar(FormattedValue(v), '.', ',')
          else FormattedValue(v)
  }

  lemma {:induction false} FormattedValueReparses(v: real)
    ensures ParseAh(Some(FormattedValue(v))) == Some(SignedSnap(v))
  {
    var s := FormattedValue(v);
    ParseAhPlain(s);
    if v != 0.0 && SignedSnap(v) != 0.0 {
      RenderQuarter(SignedSnap(v));
    } else {
      assert s == "0";
      assert UnsignedDecimal("0") == Some(0.0);
      if v == 0.0 {
        assert IsQuarter(0.0) by { assert 4.0 * 0.0 == 0 as real; }
      }
    }
  }

  /** Formatting a readable line and reading it back gives the line snapped to its
      quarter; an unreadable line stays unreadable. */
  lemma {:induction false} FormatReparses(raw: Option<string>)
    ensures ParseAh(raw).Some? ==> ParseAh(Some(Format(raw, false))) == Some(SignedSnap(ParseAh(raw).value))
    ensures ParseAh(raw).None? ==> ParseAh(Some(Format(raw, false))).None?
  {
    match raw
    case None =>
      assert Cleaned("-") == "-";
    case Some(t) =>
      var s := Strip(t);
      if s == "" {
        assert Cleaned("-") == "-";
      } else if s == "-" || s == "?" {
        StripUnchanged(s);
        assert Cleaned(s) == s;
      } else {
        match ParseAh(raw)
        case None =>
          assert Cleaned("-") == "-";
        case Some(v) =>
          FormattedValueReparses(v);
          if v == 0.0 {
            assert FormattedValue(v) == "0";
          }
      }
  }

  lemma SnapIdempotent(v: real)
    ensures SignedSnap(SignedSnap(v)) == SignedSnap(v)
  {
  }

  lemma {:induction false} FormattedValueOfSnap(v: real)
    ensures FormattedValue(SignedSnap(v)) == FormattedValue(v)
  {
    var q := SignedSnap(v);
    SnapIdempotent(v);
    if q != 0.0 {
      assert FormattedValue(q) == RenderLine(SignedSnap(q));
      assert RenderLine(SignedSnap(q)) == RenderLine(q);
    }
  }

  lemma FormatOfSentinel(r: string)
    requires r == "-" || r == "?"
    ensures Format(Some(r), false) == r
  {
    StripUnchanged(r);
  }

  lemma FormatOfZero()
    ensures Format(Some("0"), false) == "0"
  {
    StripUnchanged("0");
    assert ParseAh(Some("0")) == Some(0.0) by {
      assert Cleaned("0") == "0";
      ZeroDigit();
    }
  }

  lemma {:induction false} FormatOfFormatted(v: real)
    requires v != 0.0
    ensures Format(Some(FormattedValue(v)), false) == FormattedValue(v)
  {
    var s := FormattedValue(v);
    StripUnchanged(s);
    FormattedValueReparses(v);
    FormattedValueOfSnap(v);
    if SignedSnap(v) == 0.0 {
      assert s == "0";
      FormatOfZero();
    }
  }

  /** Formatting is idempotent: a formatted line formats to itself. */
  lemma {:induction false} FormatIdempotent(raw: Option<string>)
    ensures Format(Some(Format(raw, false)), false) == Format(raw, false)
  {
    var r := Format(raw, false);
    if r == "-" || r == "?" {
      FormatOfSentinel(r);
    } else {
      var v := ParseAh(raw).value;
      if v == 0.0 {
        FormatOfZero();
      } else {
        FormatOfFormatted(v);
      }
    }
  }

  /** The spreadsheet form: the sentinels and an exact zero are shared with the plain
      form; every other line gets the ' prefix and a decimal comma, including a line
      that snaps to zero ("0.1" gives "'0" where "0" gives "0"). */
  lemma {:induction false} FormatForSheets(raw: Option<string>)
    ensures ParseAh(raw).Some? && ParseAh(raw).value != 0.0 ==>
              Format(raw, true) == "'" + ReplaceChar(Format(raw, false), '.', ',')
    ensures ParseAh(raw).None? || ParseAh(raw).value == 0.0 ==> Format(raw, true) == Format(raw, false)
    ensures Format(raw, true) == "?" <==> Format(raw, false) == "?"
  {
    match raw
    case None =>
    case Some(t) =>
      var s := Strip(t);
      if s != "" && s != "-" && s != "?" {
        match ParseAh(raw)
        case None =>
        case Some(v) =>
          if v != 0.0 {
            var plain := FormattedValue(v);
            assert Format(raw, true)[0] == '\'';
            assert plain[|plain| - 1] != '?';
            assert plain != "?";
          }
      }
  }

  lemma FormatExamples()
    ensures Format(Some("?"), true) == "?"
    ensures Format(Some(" - "), false) == "-"
    ensures Format(None, false) == "-"
    ensures Format(Some("0"), true) == "0"
  {
    StripUnchanged("?");
    assert Strip(" - ") == "-" by {
      assert StripLeft(" - ") == StripLeft("- ");
      assert StripLeft("- ") == "- ";
      assert StripRight("- ") == StripRight("-");
    }
    StripUnchanged("0");
    assert ParseAh(Some("0")) == Some(0.0) by {
      assert Cleaned("0") == "0";
    }
  }

  // ================================================================ settling a score

  datatype Cover = Covered | NotCovered | Push | Undetermined

  function CoverLabel(c: Cover): string {
    match c
    case Covered => "CUBIERTO"
    case NotCovered => "NO CUBIERTO"
    case Push => "PUSH"
    case Undetermined => "indeterminado"
  }

  /** The True / False / None half of the returned pair. */
  function CoverFlag(c: Cover): Option<bool> {
    match c
    case Covered => Some(true)
    case NotCovered => Some(false)
    case _ => None
  }

  /** map(int, raw.split('-')) unpacked into home and away goals; None when the text
      is missing, is not two parts or a part is not an integer. */
  function ParseScore(raw: Option<string>): (r: Option<(int, int)>)
    ensures r.Some? ==> r.value.0 >= 0 && r.value.1 >= 0
  {
    match raw
    case None => None
    case Some(t) =>
      var parts := Split(t, '-');
      if |parts| != 2 then None
      else
        match (PyInt(parts[0]), PyInt(parts[1]))
        case (Some(h), Some(a)) =>
          SplitPartsExclude(t, '-');
          Some((h, a))
        case _ => None
  }

  /** The "H-A" text of a final score. */
  function ScoreText(h: nat, a: nat): string {
    NatText(h) + "-" + NatText(a)
  }

  lemma {:induction false} PyIntOfNatText(n: nat)
    ensures PyInt(NatText(n)) == Some(n)
  {
    var s := NatText(n);
    StripUnchanged(s);
  }

  lemma {:induction false} ScoreRoundTrip(h: nat, a: nat)
    ensures ParseScore(Some(ScoreText(h, a))) == Some((h, a))
  {
    DigitsExclude(NatText(h), '-');
    DigitsExclude(NatText(a), '-');
    SplitPair(NatText(h), '-', NatText(a));
    PyIntOfNatText(h);
    PyIntOfNatText(a);
  }

  /** Settling at a level line: a positive margin covers, a negative one does not. */
  function LevelOutcome(margin: int): Cover {
    if margin > 0 then Covered else if margin < 0 then NotCovered else Push
  }

  /** The favourite's margin: its goals minus the opponent's, when the favourite is
      one of the precedent's sides (names compared case-insensitively). */
  function FavouriteMargin(h: int, a: int, favourite: string, home: Option<string>, away: Option<string>): Option<int> {
    if home.None? then None
    else if Lower(favourite) == Lower(home.value) then Some(h - a)
    else if away.None? then None
    else if Lower(favourite) == Lower(away.value) then Some(a - h)
    else None
  }

  /** check_handicap_cover. A missing team name stands for the None whose lower()
      raises, which the source reports as "indeterminado". */
  function CheckHandicapCover(result: Option<string>, line: real, favourite: string,
                              home: Option<string>, away: Option<string>, mainHome: string): (r: Cover)
    ensures ParseScore(result).None? ==> r == Undetermined
    ensures ParseScore(result).Some? && line == 0.0 && home.Some? ==> r != Undetermined
  {
    match ParseScore(result)
    case None => Undetermined
    case Some((h, a)) =>
      if line == 0.0 then
        if home.None? then Undetermined
        else if Lower(mainHome) == Lower(home.value) then LevelOutcome(h - a)
        else LevelOutcome(a - h)
      else
        match FavouriteMargin(h, a, favourite, home, away)
        case None => Undetermined
        case Some(margin) =>
          if margin as real - Abs(line) > 0.05 then Covered
          else if margin as real - Abs(line) < -0.05 then NotCovered
          else Push
  }

  /** At a level line the verdict ignores the favourite: the margin is counted for
      the precedent's home side when it is the main home team ... */
  lemma {:induction false} LevelLineHome(h: nat, a: nat, favourite: string,
                                         home: string, away: Option<string>, mainHome: string)
    requires Lower(mainHome) == Lower(home)
    ensures CheckHandicapCover(Some(ScoreText(h, a)), 0.0, favourite, Some(home), away, mainHome)
         == LevelOutcome(h - a)
  {
    ScoreRoundTrip(h, a);
  }

  /** ... and for the away side otherwise. */
  lemma {:induction false} LevelLineAway(h: nat, a: nat, favourite: string,
                                         home: string, away: Option<string>, mainHome: string)
    requires Lower(mainHome) != Lower(home)
    ensures CheckHandicapCover(Some(ScoreText(h, a)), 0.0, favourite, Some(home), away, mainHome)
         == LevelOutcome(a - h)
  {
    ScoreRoundTrip(h, a);
  }

  /** So swapping the score and whether the precedent's home side is the main home
      team gives the same verdict, whatever the favourites. */
  lemma {:induction false} LevelLineSwap(h: nat, a: nat, fav1: string, fav2: string,
                                         home: string, away: Option<string>, mainHome: string, otherHome: string)
    requires Lower(mainHome) == Lower(home) && Lower(otherHome) != Lower(home)
    ensures CheckHandicapCover(Some(ScoreText(h, a)), 0.0, fav1, Some(home), away, mainHome)
         == CheckHandicapCover(Some(ScoreText(a, h)), 0.0, fav2, Some(home), away, otherHome)
  {
    LevelLineHome(h, a, fav1, home, away, mainHome);
    LevelLineAway(a, h, fav2, home, away, otherHome);
  }

  /** On a quarter line the 0.05 tolerance decides nothing: the favourite covers
      exactly when its margin beats the line and pushes only on an exact tie. */
  lemma {:induction false} QuarterLineSettles(h: nat, a: nat, line: real, favourite: string,
                                              home: Option<string>, away: Option<string>, mainHome: string)
    requires IsQuarter(line) && line != 0.0
    requires FavouriteMargin(h, a, favourite, home, away).Some?
    ensures var m := FavouriteMargin(h, a, favourite, home, away).value as real;
            CheckHandicapCover(Some(ScoreText(h, a)), line, favourite, home, away, mainHome)
            == if m > Abs(line) then Covered else if m < Abs(line) then NotCovered else Push
  {
    ScoreRoundTrip(h, a);
    QuarterVerdict(FavouriteMargin(h, a, favourite, home, away).value, line);
  }

  lemma QuarterVerdict(m: int, line: real)
    requires IsQuarter(line)
    ensures (if m as real - Abs(line) > 0.05 then Covered
             else if m as real - Abs(line) < -0.05 then NotCovered else Push)
         == (if m as real > Abs(line) then Covered else if m as real < Abs(line) then NotCovered else Push)
  {
    QuarterNegated(line);
    QuarterMinusWhole(m, Abs(line));
    QuarterGap(m as real - Abs(line));
  }

  /** A whole number minus a quarter line is a quarter line. */
  lemma QuarterMinusWhole(m: int, q: real)
    requires IsQuarter(q)
    ensures IsQuarter(m as real - q)
  {
    var k := (4.0 * q).Floor;
    assert 4.0 * (m as real - q) == (4 * m - k) as real;
  }

  /** A nonzero quarter is at least 0.25 from zero, so the 0.05 tolerance is a sign test. */
  lemma QuarterGap(d: real)
    requires IsQuarter(d)
    ensures (d > 0.05 <==> d > 0.0) && (d < -0.05 <==> d < 0.0)
  {
    var k := (4.0 * d).Floor;
    assert 4.0 * d == k as real;
  }

  /** A home favourite on a nonzero quarter line covers when it wins by more than the
      line, pushes on an exact tie and otherwise does not cover. */
  lemma {:induction false} CoverByMargin(h: nat, a: nat, line: real, favourite: string,
                                         home: string, away: Option<string>, mainHome: string)
    requires IsQuarter(line) && line != 0.0 && Lower(favourite) == Lower(home)
    ensures CheckHandicapCover(Some(ScoreText(h, a)), line, favourite, Some(home), away, mainHome)
         == if (h - a) as real > Abs(line) then Covered else if ((h - a) as real) < Abs(line) then NotCovered else Push
  {
    QuarterLineSettles(h, a, line, favourite, Some(home), away, mainHome);
  }

  /** A one-goal line for the home favourite: winning by two covers, by one pushes,
      a draw does not cover; a favourite that is neither side, or a score that does not
      split on '-', is undetermined. */
  lemma CoverExamples()
    ensures CheckHandicapCover(Some("2-0"), 1.0, "A", Some("a"), Some("B"), "A") == Covered
    ensures CheckHandicapCover(Some("1-0"), 1.0, "A", Some("a"), Some("B"), "A") == Push
    ensures CheckHandicapCover(Some("0-0"), 1.0, "A", Some("a"), Some("B"), "A") == NotCovered
    ensures CheckHandicapCover(Some("2-0"), 1.0, "C", Some("a"), Some("B"), "A") == Undetermined
    ensures CheckHandicapCover(Some("2:0"), 1.0, "A", Some("a"), Some("B"), "A") == Undetermined
  {
    assert ScoreText(2, 0) == "2-0" && ScoreText(1, 0) == "1-0" && ScoreText(0, 0) == "0-0";
    assert Lower("A")[0] == 'a' && Lower("a")[0] == 'a' && Lower("B")[0] == 'b' && Lower("C")[0] == 'c';
    assert IsQuarter(1.0) by { assert 4.0 * 1.0 == 4 as real; }
    CoverByMargin(2, 0, 1.0, "A", "a", Some("B"), "A");
    CoverByMargin(1, 0, 1.0, "A", "a", Some("B"), "A");
    CoverByMargin(0, 0, 1.0, "A", "a", Some("B"), "A");
    UnknownFavourite(Some("2-0"), 1.0, "C", Some("a"), Some("B"), "A");
    MalformedCover("2:0", 1.0, "A", Some("a"), Some("B"), "A");
  }

  /** Two minus signs in the text. */
  predicate TwoDashes(t: string) {
    exists i, j :: 0 <= i < j < |t| && t[i] == '-' && t[j] == '-'
  }

  /** A character int() never accepts in a score part. */
  predicate ForeignScoreChar(c: char) {
    !IsSpace(c) && !IsDigit(c) && c != '+' && c != '-' && c != '_'
  }

  /** A result with no '-', with two or more, or with a character that is not white
      space, a digit or a sign is no score: both verdicts are "indeterminado", whatever
      the line and the names. */
  lemma {:induction false} MalformedCover(t: string, line: real, favourite: string,
                                          home: Option<string>, away: Option<string>, mainHome: string)
    requires '-' !in t || TwoDashes(t) || exists k :: 0 <= k < |t| && ForeignScoreChar(t[k])
    ensures ParseScore(Some(t)) == None
    ensures CheckHandicapCover(Some(t), line, favourite, home, away, mainHome) == Undetermined
    ensures CheckGoalLineCover(t, line) == GoalUndetermined
  {
    var parts := Split(t, '-');
    if '-' !in t {
      SplitWithout(t, '-');
    } else if TwoDashes(t) {
      var i, j :| 0 <= i < j < |t| && t[i] == '-' && t[j] == '-';
      var x, y, z := t[..i], t[i + 1..j], t[j + 1..];
      assert t == x + ['-'] + (y + ['-'] + z);
      SplitConcat(x, '-', y + ['-'] + z);
      SplitConcat(y, '-', z);
    } else if |parts| == 2 {
      var k :| 0 <= k < |t| && ForeignScoreChar(t[k]);
      SplitJoin(t, '-');
      assert t == parts[0] + ['-'] + parts[1];
      if k < |parts[0]| {
        assert t[k] == parts[0][k];
        PyIntRejects(parts[0], t[k]);
      } else {
        assert t[k] == parts[1][k - |parts[0]| - 1];
        PyIntRejects(parts[1], t[k]);
      }
    }
  }

  /** Off a level line, a favourite that is neither side of the precedent, or a missing
      home name, leaves the verdict "indeterminado" for every result; with a readable
      score these are the only undetermined cases. */
  lemma {:induction false} UnknownFavourite(result: Option<string>, line: real, favourite: string,
                                            home: Option<string>, away: Option<string>, mainHome: string)
    requires line != 0.0
    ensures home.None? || (Lower(favourite) != Lower(home.value) && (away.None? || Lower(favourite) != Lower(away.value)))
            ==> CheckHandicapCover(result, line, favourite, home, away, mainHome) == Undetermined
    ensures ParseScore(result).Some? && CheckHandicapCover(result, line, favourite, home, away, mainHome) == Undetermined
            ==> home.None? || (Lower(favourite) != Lower(home.value) && (away.None? || Lower(favourite) != Lower(away.value)))
  {
  }

  datatype GoalVerdict = Over | Under | Level | GoalUndetermined

  function GoalLabel(v: GoalVerdict): string {
    match v
    case Over => "SUPERADA (Over)"
    case Under => "NO SUPERADA (UNDER)"
    case Level => "PUSH (Igual)"
    case GoalUndetermined => "indeterminado"
  }

  /** check_goal_line_cover: the total goals against the line. */
  function CheckGoalLineCover(result: string, line: real): (r: GoalVerdict)
    ensures r == GoalUndetermined <==> ParseScore(Some(result)).None?
  {
    match ParseScore(Some(result))
    case None => GoalUndetermined
    case Some((h, a)) =>
      if (h + a) as real > line then Over
      else if ((h + a) as real) < line then Under
      else Level
  }

  /** A score settles goal lines monotonically: a total over a line is over every
      lower line, and one under a line is under every higher line. */
  lemma GoalLineMonotone(result: string, lower: real, higher: real)
    requires lower <= higher
    ensures CheckGoalLineCover(result, higher) == Over ==> CheckGoalLineCover(result, lower) == Over
    ensures CheckGoalLineCover(result, lower) == Under ==> CheckGoalLineCover(result, higher) == Under
    ensures CheckGoalLineCover(result, lower) == GoalUndetermined <==> CheckGoalLineCover(result, higher) == GoalUndetermined
  {
  }

  lemma {:induction false} GoalLineByTotal(h: nat, a: nat, line: real)
    ensures CheckGoalLineCover(ScoreText(h, a), line)
         == if (h + a) as real > line then Over else if ((h + a) as real) < line then Under else Level
  {
    ScoreRoundTrip(h, a);
  }

  // ================================================================ precedent analyses

  /** The colour a goals verdict is shown in. */
  datatype Tone = Green | Red | Grey

  /** The source's two substring tests, in its order. */
  function ToneOf(text: string): Tone {
    if Contains(text, "SUPERADA") then Green
    else if Contains(text, "NO SUPERADA") then Red
    else Grey
  }

  datatype GoalsItem =
    | GoalsInsufficient
    | GoalsUnprocessable
    | GoalsReport(total: int, verdict: GoalVerdict, tone: Tone)

  /** sum(map(int, parts)): any number of integer parts. */
  function PartsTotal(parts: seq<string>): Option<int> {
    if parts == [] then Some(0)
    else
      match (PyInt(parts[0]), PartsTotal(parts[1..]))
      case (Some(x), Some(rest)) => Some(x + rest)
      case _ => None
  }

  /** _analizar_precedente_goles. "NO SUPERADA" also contains "SUPERADA", so an under
      is painted green like an over, the red branch is never reached, and only a push
      or an unreadable score is grey. */
  function AnalyzeGoals(result: Option<string>, line: real): (r: GoalsItem)
    ensures r.GoalsInsufficient? <==> !Truthy(result) || result.value == "?-?"
    ensures r.GoalsReport? ==> r.tone != Red && (r.tone == Green <==> r.verdict in {Over, Under})
  {
    if !Truthy(result) || result.value == "?-?" then GoalsInsufficient
    else
      match PartsTotal(Split(result.value, '-'))
      case None => GoalsUnprocessable
      case Some(total) =>
        var v := CheckGoalLineCover(result.value, line);
        LabelTone(v);
        GoalsReport(total, v, ToneOf(GoalLabel(v)))
  }

  lemma {:induction false} NotContainsSuperada(text: string)
    requires text == "PUSH (Igual)" || text == "indeterminado"
    ensures !Contains(text, "SUPERADA")
  {
    forall i | 0 <= i <= |text| - 8 ensures !OccursAt(text, "SUPERADA", i) {
      assert text[i..i + 8][0] == text[i] && text[i..i + 8][1] == text[i + 1];
    }
  }

  lemma OverTone()
    ensures ToneOf(GoalLabel(Over)) == Green
  {
    assert OccursAt(GoalLabel(Over), "SUPERADA", 0);
  }

  lemma UnderTone()
    ensures ToneOf(GoalLabel(Under)) == Green
  {
    assert OccursAt(GoalLabel(Under), "SUPERADA", 3);
  }

  lemma GreyTone(v: GoalVerdict)
    requires v == Level || v == GoalUndetermined
    ensures ToneOf(GoalLabel(v)) == Grey
  {
    NotContainsSuperada(GoalLabel(v));
    ContainsNo(GoalLabel(v));
  }

  /** The tone of each verdict's label. */
  lemma LabelTone(v: GoalVerdict)
    ensures ToneOf(GoalLabel(v)) != Red && (ToneOf(GoalLabel(v)) == Green <==> v in {Over, Under})
  {
    match v
    case Over => OverTone();
    case Under => UnderTone();
    case Level => GreyTone(Level);
    case GoalUndetermined => GreyTone(GoalUndetermined);
  }

  lemma {:induction false} ContainsNo(text: string)
    requires !Contains(text, "SUPERADA")
    ensures !Contains(text, "NO SUPERADA")
  {
    if Contains(text, "NO SUPERADA") {
      assert OccursAt("NO SUPERADA", "SUPERADA", 3);
      ContainsTransitive(text, "NO SUPERADA", "SUPERADA");
    }
  }

  /** For a well-formed score the reported total is the sum of the goals and the
      verdict compares it with the line. */
  lemma {:induction false} GoalsOfScore(h: nat, a: nat, line: real)
    ensures AnalyzeGoals(Some(ScoreText(h, a)), line)
         == GoalsReport(h + a, CheckGoalLineCover(ScoreText(h, a), line),
                        ToneOf(GoalLabel(CheckGoalLineCover(ScoreText(h, a), line))))
    ensures CheckGoalLineCover(ScoreText(h, a), line) != GoalUndetermined
  {
    ScoreTextTotal(h, a);
    GoalsReportOf(ScoreText(h, a), line, h + a);
    GoalLineByTotal(h, a, line);
  }

  /** "H-A" is not the unknown score and its parts add up to H + A. */
  lemma {:induction false} ScoreTextTotal(h: nat, a: nat)
    ensures ScoreText(h, a) != [] && ScoreText(h, a)[|ScoreText(h, a)| - 1] != '?'
    ensures PartsTotal(Split(ScoreText(h, a), '-')) == Some(h + a)
  {
    DigitsExclude(NatText(h), '-');
    DigitsExclude(NatText(a), '-');
    SplitPair(NatText(h), '-', NatText(a));
    PyIntOfNatText(h);
    PyIntOfNatText(a);
    PartsTotalPair(NatText(h), NatText(a), h, a);
  }

  /** The goals item of a score text, not ending in '?', whose parts add up to `total`. */
  lemma GoalsReportOf(s: string, line: real, total: int)
    requires s != [] && s[|s| - 1] != '?' && PartsTotal(Split(s, '-')) == Some(total)
    ensures AnalyzeGoals(Some(s), line)
         == GoalsReport(total, CheckGoalLineCover(s, line), ToneOf(GoalLabel(CheckGoalLineCover(s, line))))
  {
    assert "?-?"[2] == '?';
    assert Truthy(Some(s)) && s != "?-?";
  }

  lemma {:induction false} PartsTotalPair(x: string, y: string, m: int, n: int)
    requires PyInt(x) == Some(m) && PyInt(y) == Some(n)
    ensures PartsTotal([x, y]) == Some(m + n)
  {
    var one := [y];
    assert one[0] == y && one[1..] == [];
    assert PartsTotal(one) == Some(n);
    var two := [x, y];
    assert two[0] == x && two[1..] == one;
  }

  /** The text shown for a line comparison's missing favourite. */
  const NoFavourite: string := "Ninguno (línea en 0)"

  /** The two formatted lines of a comparison: the precedent's and the current one. */
  datatype Movement = Movement(historic: string, current: string)

  datatype Comparison =
    | MoreFavoured(movement: Movement)
    | LessFavoured(movement: Movement)
    | IdenticalMagnitude(historic: string)
    | TotalChange(previous: string, movement: Movement)
    | FavouriteEstablished(movement: Movement)
    | FavouriteRemoved(previous: string, movement: Movement)
    | NoComparison(historic: string)

  /** A precedent: its result, its line and its two team names, each possibly absent. */
  datatype Precedent = Precedent(result: Option<string>, line: Option<string>,
                                 home: Option<string>, away: Option<string>)

  datatype HandicapItem =
    | HandicapInsufficient
    | HandicapReport(comparison: Comparison, score: string, cover: Cover)

  /** The precedent's favourite: home for a positive line, away for a negative one. */
  function HistoricFavourite(hist: real, p: Precedent): Option<string> {
    if hist > 0.0 then p.home else if hist < 0.0 then p.away else None
  }

  /** The comparison of lines: none when the precedent's line is unreadable; the
      direction of the move in magnitude when the favourite is the precedent's
      favourite; otherwise one of the three changes of side. */
  function Compare(p: Precedent, current: real, favourite: string): (c: Comparison)
    ensures c.NoComparison? <==> ParseAh(p.line).None?
    ensures ParseAh(p.line).Some? ==>
              var hist := ParseAh(p.line).value;
              var same := Lower(favourite) == Lower(OrEmpty(HistoricFavourite(hist, p)));
              (c.MoreFavoured? <==> same && Abs(current) > Abs(hist))
              && (c.LessFavoured? <==> same && Abs(current) < Abs(hist))
              && (c.IdenticalMagnitude? <==> same && Abs(current) == Abs(hist))
              && (c.TotalChange? || c.FavouriteEstablished? || c.FavouriteRemoved? <==> !same)
  {
    match ParseAh(p.line)
    case None => NoComparison(Format(p.line, false))
    case Some(hist) =>
      var movement := Movement(Format(p.line, false), Format(Some(Repr(current)), false));
      var previous := HistoricFavourite(hist, p);
      if Lower(favourite) == Lower(OrEmpty(previous)) then
        if Abs(current) > Abs(hist) then MoreFavoured(movement)
        else if Abs(current) < Abs(hist) then LessFavoured(movement)
        else IdenticalMagnitude(movement.historic)
      else if Truthy(previous) && favourite != NoFavourite then TotalChange(previous.value, movement)
      else if !Truthy(previous) then FavouriteEstablished(movement)
      else FavouriteRemoved(previous.value, movement)
  }

  /** _analizar_precedente_handicap. */
  function AnalyzeHandicap(p: Precedent, current: real, favourite: string, mainHome: string): (r: HandicapItem)
    ensures r.HandicapInsufficient?
        <==> p.result.None? || p.result.value in {"", "?-?"} || p.line.None? || p.line.value in {"", "-"}
  {
    if !Truthy(p.result) || p.result.value == "?-?" || !Truthy(p.line) || p.line.value == "-" then
      HandicapInsufficient
    else
      HandicapReport(Compare(p, current, favourite),
                     ReplaceChar(p.result.value, '-', ':'),
                     CheckHandicapCover(p.result, current, favourite, p.home, p.away, mainHome))
  }

  /** With both the current and the precedent's line at zero, "no favourite" is never
      equal to the empty historic name, so the analysis claims a clear favourite. */
  lemma {:induction false} LevelLinesClaimFavourite(p: Precedent)
    requires ParseAh(p.line) == Some(0.0)
    ensures Compare(p, 0.0, NoFavourite).FavouriteEstablished?
  {
    assert Lower(OrEmpty(None)) == "";
    assert |Lower(NoFavourite)| > 0;
  }

  // ================================================================ the market analysis

  /** The two current lines, each possibly missing. */
  datatype MainOdds = MainOdds(handicap: Option<string>, goals: Option<string>)

  /** The stadium precedent (1) and the most recent general head-to-head (6). */
  datatype H2hData = H2hData(result1: Option<string>, line1: Option<string>, match1: Option<string>,
                             result6: Option<string>, line6: Option<string>,
                             generalHome: Option<string>, generalAway: Option<string>,
                             match6: Option<string>)

  datatype PrecedentAnalysis = PrecedentAnalysis(handicap: HandicapItem, goals: GoalsItem)

  datatype GeneralAnalysis = SameMatch | GeneralPrecedent(analysis: PrecedentAnalysis)

  datatype MarketReport =
    | NoReport
    | MarketReport(handicapText: string, goalsText: string, favourite: string,
                   stadium: PrecedentAnalysis, general: GeneralAnalysis)

  /** The favourite of a line: away when negative, home when positive. */
  function Favourite(line: real, home: string, away: string): string {
    if line < 0.0 then away else if line > 0.0 then home else NoFavourite
  }

  /** generar_analisis_completo_mercado. The analysis is produced exactly when both
      current lines are readable; its favourite is the side the snapped line favours,
      and the general precedent is skipped exactly when both match ids are present
      and equal. */
  function AnalyzeMarket(odds: MainOdds, h2h: H2hData, home: string, away: string): (r: MarketReport)
    ensures r.MarketReport? <==> ParseAh(odds.handicap).Some? && ParseAh(odds.goals).Some?
    ensures r.MarketReport? ==> r.favourite == Favourite(SignedSnap(ParseAh(odds.handicap).value), home, away)
    ensures r.MarketReport? ==> (r.general.SameMatch? <==> Truthy(h2h.match1) && h2h.match1 == h2h.match6)
  {
    var handicapText := Format(odds.handicap, false);
    FormatReparses(odds.handicap);
    match (ParseAh(Some(handicapText)), ParseAh(odds.goals))
    case (Some(current), Some(goals)) =>
      var favourite := Favourite(current, home, away);
      var stadium := Precedent(h2h.result1, h2h.line1, Some(home), Some(away));
      var stadiumAnalysis := PrecedentAnalysis(AnalyzeHandicap(stadium, current, favourite, home),
                                               AnalyzeGoals(h2h.result1, goals));
      var general :=
        if Truthy(h2h.match1) && Truthy(h2h.match6) && h2h.match1 == h2h.match6 then SameMatch
        else
          var p := Precedent(h2h.result6, h2h.line6, h2h.generalHome, h2h.generalAway);
          GeneralPrecedent(PrecedentAnalysis(AnalyzeHandicap(p, current, favourite, home),
                                             AnalyzeGoals(h2h.result6, goals)));
      MarketReport(handicapText, Repr(goals), favourite, stadiumAnalysis, general)
    case _ => NoReport
  }
}
