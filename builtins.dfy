/** Models of the Python built-ins that the scraper core leans on: str.strip, str.split,
    str.replace, str.lower, float() and int() on decimal text, str() of a float and
    the fixed-point format f"{x:.Nf}". Numbers are Dafny reals. */
module Builtins {

  datatype Option<+T> = None | Some(value: T)

  // ---------------------------------------------------------------- characters

  /** The characters str.isspace() accepts, which str.strip() and float() discard:
      the ASCII white space, the separators U+001C to U+001F, NEL, no-break space and
      the Unicode space separators. */
  predicate IsSpace(c: char) {
    c == ' ' || '\t' <= c <= '\r' || '\U{001C}' <= c <= '\U{001F}' || c == '\U{0085}' || c == '\U{00A0}'
    || c == '\U{1680}' || '\U{2000}' <= c <= '\U{200A}' || c == '\U{2028}' || c == '\U{2029}'
    || c == '\U{202F}' || c == '\U{205F}' || c == '\U{3000}'
  }

  predicate IsDigit(c: char) { '0' <= c <= '9' }

  /** Some character of s is a digit. */
  predicate HasDigit(s: string) {
    exists c :: c in s && IsDigit(c)
  }

  predicate AllDigits(s: string) {
    forall i :: 0 <= i < |s| ==> IsDigit(s[i])
  }

  /** Text made only of digits, minus signs and decimal points: the shape of every
      number this model renders. */
  predicate NumericChars(s: string) {
    forall i :: 0 <= i < |s| ==> IsDigit(s[i]) || s[i] == '-' || s[i] == '.'
  }

  /** A number text does not start with white space. */
  lemma NumericHead(s: string)
    requires s != [] && NumericChars(s)
    ensures !IsSpace(s[0])
  {
  }

  lemma NumericCharsExclude(s: string, c: char)
    requires NumericChars(s)
    requires !IsDigit(c) && c != '-' && c != '.'
    ensures c !in s
  {
  }

  // ---------------------------------------------------------------- decoded JSON values

  /** A value decoded from JSON; lists and objects carry only their str() text. */
  datatype Json = JNull | JBool(b: bool) | JInt(i: int) | JFloat(x: real) | JStr(s: string) | JOther(shown: string)

  /** Python truthiness: None, False, 0, 0.0, '' and an empty list or object are false. */
  predicate JTruthy(j: Json) {
    match j
    case JNull => false
    case JBool(b) => b
    case JInt(i) => i != 0
    case JFloat(x) => x != 0.0
    case JStr(s) => s != []
    case JOther(shown) => shown != "[]" && shown != "{}"
  }

  /** Python truthiness of an optional text field: present and non-empty. */
  predicate Truthy(o: Option<string>) {
    o.Some? && o.value != ""
  }

  /** `x or ""` for an optional text. */
  function OrEmpty(x: Option<string>): string {
    if Truthy(x) then x.value else ""
  }

  // ---------------------------------------------------------------- str methods

  function StripLeft(s: string): (r: string)
    ensures |r| <= |s|
    ensures s != [] && !IsSpace(s[0]) ==> r == s
  {
    if s != [] && IsSpace(s[0]) then StripLeft(s[1..]) else s
  }

  function StripRight(s: string): (r: string)
    ensures |r| <= |s|
    ensures s != [] && !IsSpace(s[|s| - 1]) ==> r == s
  {
    if s != [] && IsSpace(s[|s| - 1]) then StripRight(s[..|s| - 1]) else s
  }

  /** str.strip(): the text without its leading and trailing whitespace. */
  function Strip(s: string): (r: string)
    ensures |r| <= |s|
  {
    StripRight(StripLeft(s))
  }

  lemma {:induction false} StripLeftChars(s: string)
    ensures forall c :: c in StripLeft(s) ==> c in s
  {
    if s != [] && IsSpace(s[0]) {
      StripLeftChars(s[1..]);
    }
  }

  lemma {:induction false} StripRightChars(s: string)
    ensures forall c :: c in StripRight(s) ==> c in s
  {
    if s != [] && IsSpace(s[|s| - 1]) {
      StripRightChars(s[..|s| - 1]);
    }
  }

  /** Stripping only removes characters. */
  lemma StripChars(s: string)
    ensures forall c :: c in Strip(s) ==> c in s
  {
    StripLeftChars(s);
    StripRightChars(StripLeft(s));
  }

  lemma {:induction false} StripLeftKeeps(s: string)
    ensures forall c :: c in s && !IsSpace(c) ==> c in StripLeft(s)
  {
    if s != [] && IsSpace(s[0]) {
      StripLeftKeeps(s[1..]);
      assert forall c :: c in s && c != s[0] ==> c in s[1..];
    }
  }

  lemma {:induction false} StripRightKeeps(s: string)
    ensures forall c :: c in s && !IsSpace(c) ==> c in StripRight(s)
  {
    if s != [] && IsSpace(s[|s| - 1]) {
      StripRightKeeps(s[..|s| - 1]);
      assert forall c :: c in s && c != s[|s| - 1] ==> c in s[..|s| - 1];
    }
  }

  /** Stripping removes only white space. */
  lemma StripKeeps(s: string)
    ensures forall c :: c in s && !IsSpace(c) ==> c in Strip(s)
  {
    StripLeftKeeps(s);
    StripRightKeeps(StripLeft(s));
  }

  lemma StripUnchanged(s: string)
    requires s != [] ==> !IsSpace(s[0]) && !IsSpace(s[|s| - 1])
    ensures Strip(s) == s
  {
  }

  /** str.replace(c, ''): every occurrence of c deleted. */
  function RemoveAll(s: string, c: char): (r: string)
    ensures |r| <= |s|
    ensures c !in s ==> r == s
  {
    if s == [] then [] else (if s[0] == c then [] else [s[0]]) + RemoveAll(s[1..], c)
  }

  /** Deleting a character only removes characters. */
  lemma {:induction false} RemoveAllChars(s: string, c: char)
    ensures forall x :: x in RemoveAll(s, c) ==> x in s
  {
    if s != [] {
      RemoveAllChars(s[1..], c);
    }
  }

  /** str.replace(a, b) for single characters. */
  function ReplaceChar(s: string, a: char, b: char): (r: string)
    ensures |r| == |s|
    ensures forall i :: 0 <= i < |s| ==> r[i] == (if s[i] == a then b else s[i])
  {
    seq(|s|, i requires 0 <= i < |s| => if s[i] == a then b else s[i])
  }

  /** The lower case of an ASCII or Latin-1 capital (U+00C0 to U+00DE, except the
      multiplication sign U+00D7); every other character is kept. */
  function LowerChar(c: char): char {
    if 'A' <= c <= 'Z' || ('\U{00C0}' <= c <= '\U{00DE}' && c != '\U{00D7}') then (c as int + 32) as char else c
  }

  /** str.lower(), for ASCII and Latin-1 letters. */
  function Lower(s: string): (r: string)
    ensures |r| == |s|
  {
    seq(|s|, i requires 0 <= i < |s| => LowerChar(s[i]))
  }

  predicate StartsWith(s: string, c: char) {
    s != [] && s[0] == c
  }

  predicate EndsWith(s: string, c: char) {
    s != [] && s[|s| - 1] == c
  }

  /** str.rstrip(c): trailing occurrences of c removed. */
  function StripTrailing(s: string, c: char): (r: string)
    ensures |r| <= |s| && r == s[..|r|]
    ensures r != [] ==> r[|r| - 1] != c
    ensures forall i :: |r| <= i < |s| ==> s[i] == c
  {
    if s != [] && s[|s| - 1] == c then StripTrailing(s[..|s| - 1], c) else s
  }

  predicate OccursAt(s: string, sub: string, i: int) {
    0 <= i <= |s| - |sub| && s[i..i + |sub|] == sub
  }

  /** `sub in s` for texts. */
  predicate Contains(s: string, sub: string) {
    exists i | 0 <= i <= |s| - |sub| :: OccursAt(s, sub, i)
  }

  /** Whatever the tail of s holds, s holds. */
  lemma ContainsTail(s: string, sub: string)
    requires s != []
    ensures Contains(s[1..], sub) ==> Contains(s, sub)
  {
    if Contains(s[1..], sub) {
      var t := s[1..];
      var i :| 0 <= i <= |t| - |sub| && OccursAt(t, sub, i);
      assert t[i..i + |sub|] == s[i + 1..i + 1 + |sub|];
      assert OccursAt(s, sub, i + 1);
    }
  }

  lemma {:induction false} ContainsTransitive(s: string, t: string, u: string)
    requires Contains(s, t) && Contains(t, u)
    ensures Contains(s, u)
  {
    var i :| 0 <= i <= |s| - |t| && OccursAt(s, t, i);
    var j :| 0 <= j <= |t| - |u| && OccursAt(t, u, j);
    forall k | 0 <= k < |u| ensures s[i + j + k] == u[k] {
      assert u[k] == t[j + k];
      assert t[j + k] == s[i..i + |t|][j + k];
    }
    assert s[i + j..i + j + |u|] == u;
    assert OccursAt(s, u, i + j);
  }

  /** str.split(sep): the pieces between separators, always at least one. */
  function Split(s: string, sep: char): (parts: seq<string>)
    ensures |parts| >= 1
  {
    if s == [] then [[]]
    else
      var rest := Split(s[1..], sep);
      if s[0] == sep then [[]] + rest else [[s[0]] + rest[0]] + rest[1..]
  }

  /** sep.join(parts), the inverse of Split. */
  function Join(parts: seq<string>, sep: char): string
    requires |parts| >= 1
  {
    if |parts| == 1 then parts[0] else parts[0] + [sep] + Join(parts[1..], sep)
  }

  lemma {:induction false} SplitJoin(s: string, sep: char)
    ensures Join(Split(s, sep), sep) == s
  {
    if s != [] {
      SplitJoin(s[1..], sep);
      var rest := Split(s[1..], sep);
      if s[0] != sep && |rest| > 1 {
        assert Join(rest, sep) == rest[0] + [sep] + Join(rest[1..], sep);
        assert ([[s[0]] + rest[0]] + rest[1..])[1..] == rest[1..];
      }
    }
  }

  /** Every character of a part is a character of the split text. */
  lemma {:induction false} SplitPartsChars(s: string, sep: char)
    ensures forall i, c :: 0 <= i < |Split(s, sep)| && c in Split(s, sep)[i] ==> c in s
  {
    if s != [] {
      SplitPartsChars(s[1..], sep);
      var rest := Split(s[1..], sep);
      forall i, c | 0 <= i < |Split(s, sep)| && c in Split(s, sep)[i] ensures c in s {
        var j := if s[0] != sep then i else i - 1;
        if s[0] != sep && i == 0 && c != s[0] {
          assert c in rest[0];
        } else if j >= 0 {
          assert Split(s, sep)[i] == rest[j] || (i == 0 && c == s[0]);
        }
        assert c == s[0] || c in s[1..];
      }
    }
  }

  /** No part of a split holds the separator. */
  lemma {:induction false} SplitPartsExclude(s: string, sep: char)
    ensures forall i :: 0 <= i < |Split(s, sep)| ==> sep !in Split(s, sep)[i]
  {
    if s != [] {
      SplitPartsExclude(s[1..], sep);
      var rest := Split(s[1..], sep);
      if s[0] != sep {
        assert sep !in [s[0]] + rest[0];
      }
    }
  }

  lemma {:induction false} SplitWithout(s: string, sep: char)
    requires sep !in s
    ensures Split(s, sep) == [s]
  {
    if s != [] {
      SplitWithout(s[1..], sep);
      assert [s[0]] + s[1..] == s;
    }
  }

  lemma {:induction false} SplitAfter(a: string, sep: char, b: string)
    requires sep !in a
    ensures Split(a + [sep] + b, sep) == [a] + Split(b, sep)
  {
    var s := a + [sep] + b;
    if a == [] {
      assert s[1..] == b;
    } else {
      assert s[1..] == a[1..] + [sep] + b;
      SplitAfter(a[1..], sep, b);
      assert [a[0]] + a[1..] == a;
    }
  }

  /** The parts of [h] + t, given the parts of t. */
  function ConsPart(h: char, rest: seq<string>, sep: char): seq<string>
    requires |rest| >= 1
  {
    if h == sep then [[]] + rest else [[h] + rest[0]] + rest[1..]
  }

  lemma SplitCons(h: char, t: string, sep: char)
    ensures Split([h] + t, sep) == ConsPart(h, Split(t, sep), sep)
  {
    assert ([h] + t)[0] == h && ([h] + t)[1..] == t;
  }

  lemma ConsPartAppend(h: char, x: seq<string>, y: seq<string>, sep: char)
    requires |x| >= 1
    ensures ConsPart(h, x + y, sep) == ConsPart(h, x, sep) + y
  {
    if h != sep {
      assert (x + y)[0] == x[0] && (x + y)[1..] == x[1..] + y;
    }
  }

  /** Splitting at one separator splits the two sides independently. */
  lemma {:induction false} SplitConcat(a: string, sep: char, b: string)
    ensures Split(a + [sep] + b, sep) == Split(a, sep) + Split(b, sep)
  {
    if a == [] {
      assert a + [sep] + b == [sep] + b;
      SplitCons(sep, b, sep);
    } else {
      var h, t := a[0], a[1..];
      SplitConcat(t, sep, b);
      assert a == [h] + t && a + [sep] + b == [h] + (t + [sep] + b);
      SplitCons(h, t + [sep] + b, sep);
      SplitCons(h, t, sep);
      ConsPartAppend(h, Split(t, sep), Split(b, sep), sep);
    }
  }

  lemma SplitPair(a: string, sep: char, b: string)
    requires sep !in a && sep !in b
    ensures Split(a + [sep] + b, sep) == [a, b]
  {
    SplitAfter(a, sep, b);
    SplitWithout(b, sep);
  }

  // ---------------------------------------------------------------- numbers

  function Abs(x: real): (r: real)
    ensures r >= 0.0 && (r == x || r == -x)
  {
    if x < 0.0 then -x else x
  }

  /** The least integer at or above x (math.ceil). */
  function Ceil(x: real): (r: int)
    ensures r as real - 1.0 < x <= r as real
  {
    -((-x).Floor)
  }

  predicate IsWhole(x: real) { x.Floor as real == x }

  lemma FloorIs(x: real, k: int)
    requires k as real <= x < k as real + 1.0
    ensures x.Floor == k
  {
  }

  /** A multiple of 0.5: a whole or a half line. */
  predicate IsHalf(x: real) { IsWhole(2.0 * x) }

  /** A multiple of 0.25: a whole, half or quarter line. */
  predicate IsQuarter(x: real) { IsWhole(4.0 * x) }

  function Pow10(n: nat): (r: nat)
    ensures r >= 1
  {
    if n == 0 then 1 else 10 * Pow10(n - 1)
  }

  /** x with its decimal point moved `places` digits to the right: x * 10^places. */
  function Shift(x: real, places: nat): real {
    if places == 0 then x else 10.0 * Shift(x, places - 1)
  }

  lemma {:induction false} ShiftNegated(x: real, places: nat)
    ensures Shift(-x, places) == -Shift(x, places)
  {
    if places > 0 {
      ShiftNegated(x, places - 1);
    }
  }

  lemma {:induction false} ShiftNonNegative(x: real, places: nat)
    requires x >= 0.0
    ensures Shift(x, places) >= 0.0
  {
    if places > 0 {
      ShiftNonNegative(x, places - 1);
    }
  }

  /** x with its decimal point moved `places` digits to the left, one digit at a time. */
  function Unshift(x: real, places: nat): (r: real)
    ensures x >= 0.0 ==> r >= 0.0
  {
    if places == 0 then x else Unshift(x, places - 1) / 10.0
  }

  lemma {:induction false} UnshiftDivides(x: real, places: nat)
    ensures Unshift(x, places) == x / Pow10(places) as real
  {
    if places > 0 {
      UnshiftDivides(x, places - 1);
      var p := Pow10(places - 1) as real;
      assert Pow10(places) as real == 10.0 * p;
      assert x / p / 10.0 == x / (10.0 * p);
    }
  }

  /** Shifting back: dividing by 10^places undoes the shift. */
  lemma {:induction false} ShiftUndone(x: real, places: nat)
    ensures Shift(x, places) / Pow10(places) as real == x
  {
    if places > 0 {
      ShiftUndone(x, places - 1);
      var p := Pow10(places - 1) as real;
      assert Shift(x, places - 1) == x * p;
      assert Pow10(places) as real == 10.0 * p;
    }
  }

  /** x has at most `places` decimal digits. */
  predicate IsDecimalWith(x: real, places: nat) {
    IsWhole(Shift(x, places))
  }

  lemma QuarterIsDecimal(x: real)
    requires IsQuarter(x)
    ensures IsDecimalWith(x, 2)
  {
    var k := (4.0 * x).Floor;
    assert Shift(x, 1) == 10.0 * x;
    assert Shift(x, 2) == 10.0 * (10.0 * x);
    assert Shift(x, 2) == (25 * k) as real;
  }

  lemma HalfIsDecimal(x: real)
    requires IsHalf(x)
    ensures IsDecimalWith(x, 1)
  {
    var k := (2.0 * x).Floor;
    assert Shift(x, 1) == 10.0 * x;
    assert Shift(x, 1) == (5 * k) as real;
  }

  /** Python's round() to an integer: halves go to the even neighbour. */
  function RoundHalfEven(y: real): (r: int)
    ensures -0.5 <= r as real - y <= 0.5
    ensures IsWhole(y) ==> r as real == y
    ensures y >= 0.0 ==> r >= 0
  {
    var f := y.Floor;
    var frac := y - f as real;
    if frac < 0.5 then f
    else if frac > 0.5 then f + 1
    else if f % 2 == 0 then f
    else f + 1
  }

  // ---------------------------------------------------------------- parsing

  function DigitValue(c: char): (d: nat)
    requires IsDigit(c)
    ensures d < 10
  {
    c as int - '0' as int
  }

  function DigitsValue(s: string): nat
    requires AllDigits(s)
  {
    if s == [] then 0 else DigitsValue(s[..|s| - 1]) * 10 + DigitValue(s[|s| - 1])
  }

  /** `digits+ ('.' digits+)?`, the unsigned decimal syntax. */
  function UnsignedDecimal(s: string): (r: Option<real>)
    ensures r.Some? ==> r.value >= 0.0
  {
    var parts := Split(s, '.');
    if s != [] && AllDigits(s) then Some(DigitsValue(s) as real)
    else if |parts| == 2 && parts[0] != [] && AllDigits(parts[0]) && parts[1] != [] && AllDigits(parts[1]) then
      Some(DigitsValue(parts[0]) as real + Unshift(DigitsValue(parts[1]) as real, |parts[1]|))
    else None
  }

  lemma ZeroDigit()
    ensures UnsignedDecimal("0") == Some(0.0)
  {
    assert "0"[..0] == [];
    assert DigitsValue("0") == 0;
  }

  /** `[+-]? digits+ ('.' digits+)?` read as a number; anything else is absent. */
  function ParseDecimal(s: string): (r: Option<real>)
    ensures r.Some? && !StartsWith(s, '-') ==> r.value >= 0.0
  {
    if StartsWith(s, '-') then
      match UnsignedDecimal(s[1..])
      case Some(v) => Some(-v)
      case None => None
    else if StartsWith(s, '+') then UnsignedDecimal(s[1..])
    else UnsignedDecimal(s)
  }

  /** float(s) for decimal text: surrounding whitespace is ignored. */
  lemma {:induction false} UnsignedStartsWithDigit(s: string)
    requires UnsignedDecimal(s).Some?
    ensures s != [] && IsDigit(s[0]) && IsDigit(s[|s| - 1]) && NumericChars(s)
  {
    var parts := Split(s, '.');
    if !AllDigits(s) {
      SplitJoin(s, '.');
      assert s == parts[0] + "." + parts[1];
      assert s[0] == parts[0][0];
      assert s[|s| - 1] == parts[1][|parts[1]| - 1];
      forall i | 0 <= i < |s| ensures IsDigit(s[i]) || s[i] == '-' || s[i] == '.' {
        if i < |parts[0]| {
          assert s[i] == parts[0][i];
        } else if i > |parts[0]| {
          assert s[i] == parts[1][i - |parts[0]| - 1];
        }
      }
    }
  }

  /** A decimal text holds a digit, and a negative one starts with a minus sign. */
  lemma ParseDecimalChars(u: string)
    ensures ParseDecimal(u).Some? ==> HasDigit(u) && (ParseDecimal(u).value < 0.0 ==> StartsWith(u, '-'))
  {
    if ParseDecimal(u).Some? {
      var w := if StartsWith(u, '-') || StartsWith(u, '+') then u[1..] else u;
      UnsignedStartsWithDigit(w);
      assert w[0] in u;
    }
  }

  function PyFloat(s: string): Option<real> {
    ParseDecimal(Strip(s))
  }

  /** int(s): surrounding whitespace, an optional sign, then digits. */
  function PyInt(s: string): (r: Option<int>)
    ensures r.Some? && '-' !in s ==> r.value >= 0
  {
    var t := Strip(s);
    var neg := StartsWith(t, '-');
    var body := if StartsWith(t, '-') || StartsWith(t, '+') then t[1..] else t;
    if body != [] && AllDigits(body) then
      StripChars(s);
      assert neg ==> t[0] in s;
      Some(if neg then -(DigitsValue(body) as int) else DigitsValue(body) as int)
    else None
  }

  /** int() fails on a text holding anything but white space, digits and one sign;
      '_' is set aside because Python also accepts it between digits. */
  lemma PyIntRejects(s: string, c: char)
    requires c in s && !IsSpace(c) && !IsDigit(c) && c != '+' && c != '-' && c != '_'
    ensures PyInt(s) == None
  {
    StripKeeps(s);
    var t := Strip(s);
    if StartsWith(t, '-') || StartsWith(t, '+') {
      assert c in t[1..];
    }
  }

  // ---------------------------------------------------------------- rendering

  function DigitChar(d: nat): (c: char)
    requires d < 10
    ensures IsDigit(c) && DigitValue(c) == d
  {
    ('0' as int + d) as char
  }

  /** str(n) for a natural number; reading it back gives n. */
  function NatText(n: nat): (s: string)
    ensures s != [] && AllDigits(s) && DigitsValue(s) == n
  {
    if n < 10 then [DigitChar(n)]
    else
      var s := NatText(n / 10) + [DigitChar(n % 10)];
      assert s[..|s| - 1] == NatText(n / 10);
      s
  }

  /** The `width` low-order digits of n, zero-padded. */
  function PaddedDigits(n: nat, width: nat): (s: string)
    requires n < Pow10(width)
    ensures |s| == width && AllDigits(s) && DigitsValue(s) == n
  {
    if width == 0 then []
    else
      var s := PaddedDigits(n / 10, width - 1) + [DigitChar(n % 10)];
      assert s[..|s| - 1] == PaddedDigits(n / 10, width - 1);
      s
  }

  /** str(i) for an integer. */
  function IntText(i: int): (s: string)
    ensures s != [] && NumericChars(s) && IsDigit(s[|s| - 1])
    ensures ParseDecimal(s) == Some(i as real)
  {
    if i < 0 then
      var s := "-" + NatText(-i);
      assert s[1..] == NatText(-i);
      s
    else NatText(i)
  }

  lemma NumericConcat(a: string, b: string)
    requires NumericChars(a) && NumericChars(b)
    ensures NumericChars(a + b)
  {
    forall i | 0 <= i < |a + b|
      ensures IsDigit((a + b)[i]) || (a + b)[i] == '-' || (a + b)[i] == '.'
    {
      if i >= |a| { assert (a + b)[i] == b[i - |a|]; }
    }
  }

  lemma {:induction false} DivMod(n: nat, p: nat)
    requires p >= 1
    ensures 0 <= n % p < p && 0 <= n / p && n == (n / p) * p + n % p
  {
  }

  /** The digits of n / 10^places with exactly `places` decimals. */
  function FixedDigits(n: nat, places: nat): (d: string)
    ensures d != [] && NumericChars(d) && IsDigit(d[0]) && IsDigit(d[|d| - 1])
  {
    if places == 0 then NatText(n)
    else
      var p := Pow10(places);
      DivMod(n, p);
      var q, r := NatText(n / p), PaddedDigits(n % p, places);
      NumericConcat(q, ".");
      NumericConcat(q + ".", r);
      q + "." + r
  }

  lemma {:induction false} DivModReal(n: nat, p: nat)
    requires p >= 1
    ensures (n / p) as real + (n % p) as real / p as real == n as real / p as real
  {
    DivMod(n, p);
    var q, r := n / p, n % p;
    assert (q * p) as real == q as real * p as real;
    assert n as real / p as real == (q as real * p as real + r as real) / p as real;
  }

  lemma {:induction false} PointBreaksDigits(q: string, r: string)
    ensures !AllDigits(q + "." + r)
  {
    assert (q + "." + r)[|q|] == '.';
  }

  lemma DigitsExclude(q: string, c: char)
    requires AllDigits(q) && !IsDigit(c)
    ensures c !in q
  {
  }

  lemma {:induction false} DecimalPointSplit(q: string, r: string)
    requires q != [] && AllDigits(q) && r != [] && AllDigits(r)
    ensures UnsignedDecimal(q + "." + r) == Some(DigitsValue(q) as real + DigitsValue(r) as real / Pow10(|r|) as real)
  {
    PointBreaksDigits(q, r);
    UnshiftDivides(DigitsValue(r) as real, |r|);
    DigitsExclude(q, '.');
    DigitsExclude(r, '.');
    SplitPair(q, '.', r);
  }

  lemma {:induction false} FixedDigitsParse(n: nat, places: nat)
    ensures UnsignedDecimal(FixedDigits(n, places)) == Some(n as real / Pow10(places) as real)
  {
    if places == 0 {
      assert Pow10(places) == 1 && FixedDigits(n, places) == NatText(n);
      assert n as real / Pow10(places) as real == n as real;
      assert UnsignedDecimal(NatText(n)) == Some(n as real);
    } else {
      FixedFractionParse(n, places, Pow10(places));
    }
  }

  lemma {:induction false} FixedFractionParse(n: nat, places: nat, p: nat)
    requires places > 0 && p == Pow10(places)
    ensures UnsignedDecimal(FixedDigits(n, places)) == Some(n as real / p as real)
  {
    DivMod(n, p);
    var q, r := NatText(n / p), PaddedDigits(n % p, places);
    assert FixedDigits(n, places) == q + "." + r;
    DecimalPointSplit(q, r);
    DivModReal(n, p);
    assert DigitsValue(q) == n / p && DigitsValue(r) == n % p && |r| == places;
  }

  /** |x| scaled by 10^places and rounded half-to-even: the digits f"{x:.Nf}" shows. */
  function ScaledRound(x: real, places: nat): (n: nat)
    ensures -0.5 <= n as real - Shift(Abs(x), places) <= 0.5
    ensures IsWhole(Shift(Abs(x), places)) ==> n as real == Shift(Abs(x), places)
  {
    ShiftNonNegative(Abs(x), places);
    RoundHalfEven(Shift(Abs(x), places))
  }

  /** f"{x:.Nf}" with N = places: a minus sign for negative x, then the rounded digits
      with exactly `places` decimals. */
  function FormatFixed(x: real, places: nat): (s: string)
    ensures s != [] && NumericChars(s) && IsDigit(s[|s| - 1])
    ensures s[0] == '-' <==> x < 0.0
  {
    var digits := FixedDigits(ScaledRound(x, places), places);
    if x < 0.0 then
      NumericConcat("-", digits);
      "-" + digits
    else digits
  }

  lemma {:induction false} WholeNegated(z: real)
    requires IsWhole(z)
    ensures IsWhole(-z)
  {
    var k := z.Floor;
    assert -z == (-k) as real;
  }

  lemma {:induction false} ScaledRoundExact(x: real, places: nat)
    requires IsDecimalWith(x, places)
    ensures ScaledRound(x, places) as real / Pow10(places) as real == Abs(x)
  {
    if x < 0.0 {
      ShiftNegated(x, places);
      WholeNegated(Shift(x, places));
    }
    ShiftUndone(Abs(x), places);
  }

  lemma {:induction false} SignedParse(d: string, v: real)
    requires d != [] && IsDigit(d[0]) && UnsignedDecimal(d) == Some(v)
    ensures ParseDecimal(d) == Some(v)
    ensures ParseDecimal("-" + d) == Some(-v)
  {
    assert ("-" + d)[1..] == d;
  }

  lemma {:induction false} FormatFixedParses(x: real, places: nat)
    requires IsDecimalWith(x, places)
    ensures ParseDecimal(FormatFixed(x, places)) == Some(x)
  {
    var n := ScaledRound(x, places);
    ScaledRoundExact(x, places);
    FixedDigitsParse(n, places);
    SignedParse(FixedDigits(n, places), Abs(x));
  }

  /** The fewest decimal places, from `k` up to 17, that represent x exactly. */
  function ReprPlaces(x: real, k: nat): (r: nat)
    requires 1 <= k <= 17
    ensures k <= r <= 17
    decreases 17 - k
  {
    if k == 17 || IsDecimalWith(x, k) then k else ReprPlaces(x, k + 1)
  }

  /** str(x) for a float: the shortest decimal text, with at least one decimal ("2.0"). */
  function Repr(x: real): (s: string)
    ensures s != [] && NumericChars(s) && IsDigit(s[|s| - 1])
  {
    FormatFixed(x, ReprPlaces(x, 1))
  }

  lemma {:induction false} ReprPlacesExact(x: real, j: nat, k: nat)
    requires 1 <= j <= k <= 17 && IsDecimalWith(x, k)
    ensures IsDecimalWith(x, ReprPlaces(x, j))
    decreases k - j
  {
    if !(j == 17 || IsDecimalWith(x, j)) {
      ReprPlacesExact(x, j + 1, k);
    }
  }

  lemma ReprParses(x: real, k: nat)
    requires 1 <= k <= 17 && IsDecimalWith(x, k)
    ensures ParseDecimal(Repr(x)) == Some(x)
  {
    ReprPlacesExact(x, 1, k);
    FormatFixedParses(x, ReprPlaces(x, 1));
  }

  /** str() of a decoded value. */
  function Shown(j: Json): string {
    match j
    case JNull => "None"
    case JBool(b) => if b then "True" else "False"
    case JInt(i) => IntText(i)
    case JFloat(x) => Repr(x)
    case JStr(s) => s
    case JOther(shown) => shown
  }
}
