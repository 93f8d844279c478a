/** The web application's own line handling (src/app.py): a second number parser that
    averages any number of '/' segments, the half-line bucketer, the handicap and
    goal-line filters, the option lists offered to the user, and the filter, sort and
    page pipeline over a list of stored matches. */
module App {
  import opened Builtins
  import opened Sorting
  import EstudioScraper

  // ---------------------------------------------------------------- number parsing

  /** The text _parse_number_clean (dropPlus) and _parse_number test: stripped, then
      character by character the Unicode minus mapped to '-', ',' to '.', and ' ' (and,
      when dropPlus, '+') deleted. MapCharsIsReplaceChain shows this is the chain of
      str.replace calls in the source. */
  function Normalized(s: string, dropPlus: bool): string {
    MapChars(Strip(s), dropPlus)
  }

  function MapChars(s: string, dropPlus: bool): string {
    if s == [] then [] else Mapped(s[0], dropPlus) + MapChars(s[1..], dropPlus)
  }

  /** What one character becomes: spaces (and '+' when dropped) vanish, U+2212 and ','
      become '-' and '.'. */
  function Mapped(c: char, dropPlus: bool): string {
    if c == ' ' || (dropPlus && c == '+') then []
    else if c == '\U{2212}' then "-"
    else if c == ',' then "."
    else [c]
  }

  /** The part of t a `^...$` pattern can cover under re.search: `$` also matches just
      before a final newline. AnchoredDropsFinalNewline states it directly. */
  function Anchored(t: string): string {
    if t == [] || t == "\n" then [] else [t[0]] + Anchored(t[1..])
  }

  lemma {:induction false} AnchoredDropsFinalNewline(t: string)
    ensures Anchored(t) == if EndsWith(t, '\n') then t[..|t| - 1] else t
  {
    if t != [] && t != "\n" {
      AnchoredDropsFinalNewline(t[1..]);
      if EndsWith(t, '\n') {
        assert [t[0]] + t[1..][..|t| - 2] == t[..|t| - 1];
      } else {
        assert [t[0]] + t[1..] == t;
      }
    }
  }

  /** The source's str.replace chain: U+2212 to '-', ',' to '.', then the deletions. */
  function ReplaceChain(s: string, dropPlus: bool): string {
    var t := ReplaceChar(ReplaceChar(s, '\U{2212}', '-'), ',', '.');
    RemoveAll(if dropPlus then RemoveAll(t, '+') else t, ' ')
  }

  function Translated(c: char): char {
    if c == '\U{2212}' then '-' else if c == ',' then '.' else c
  }

  lemma TranslateCons(s: string)
    requires s != []
    ensures ReplaceChar(ReplaceChar(s, '\U{2212}', '-'), ',', '.')
         == [Translated(s[0])] + ReplaceChar(ReplaceChar(s[1..], '\U{2212}', '-'), ',', '.')
  {
    var m := ReplaceChar(s, '\U{2212}', '-');
    assert m[1..] == ReplaceChar(s[1..], '\U{2212}', '-');
    var n := ReplaceChar(m, ',', '.');
    assert n[1..] == ReplaceChar(m[1..], ',', '.');
    assert n == [n[0]] + n[1..];
  }

  lemma RemoveAllCons(h: char, w: string, x: char)
    ensures RemoveAll([h] + w, x) == (if h == x then [] else [h]) + RemoveAll(w, x)
  {
    assert ([h] + w)[1..] == w;
  }

  lemma DeletesCons(h: char, w: string, dropPlus: bool)
    ensures RemoveAll(if dropPlus then RemoveAll([h] + w, '+') else [h] + w, ' ')
         == (if h == ' ' || (dropPlus && h == '+') then [] else [h])
            + RemoveAll(if dropPlus then RemoveAll(w, '+') else w, ' ')
  {
    if dropPlus {
      RemoveAllCons(h, w, '+');
      if h == '+' {
        assert RemoveAll([h] + w, '+') == RemoveAll(w, '+');
      } else {
        RemoveAllCons(h, RemoveAll(w, '+'), ' ');
      }
    } else {
      RemoveAllCons(h, w, ' ');
    }
  }

  /** The character map equals the source's str.replace chain. */
  lemma {:induction false} MapCharsIsReplaceChain(s: string, dropPlus: bool)
    ensures MapChars(s, dropPlus) == ReplaceChain(s, dropPlus)
  {
    if s != [] {
      MapCharsIsReplaceChain(s[1..], dropPlus);
      TranslateCons(s);
      DeletesCons(Translated(s[0]), ReplaceChar(ReplaceChar(s[1..], '\U{2212}', '-'), ',', '.'), dropPlus);
    }
  }

  /** _parse_number_clean: `[+-]?digits(.digits)?` after normalising, else None. A
      number is only ever read from a text that holds a digit. */
  function ParseNumberClean(s: Option<string>): (r: Option<real>)
    ensures r.Some? ==> s.Some? && HasDigit(s.value)
  {
    if s.None? then None
    else
      NormalizedDigits(s.value, true);
      ParseDecimalChars(Anchored(Normalized(s.value, true)));
      ParseDecimal(Anchored(Normalized(s.value, true)))
  }

  /** _parse_number: the same, except that '+' is kept. Whatever it reads, the clean
      parser reads too, as the same number. */
  function ParseNumber(s: Option<string>): (r: Option<real>)
    ensures r.Some? ==> ParseNumberClean(s) == r
  {
    if s.None? then None
    else
      CleanReadsPlain(s.value);
      ParseDecimal(Anchored(Normalized(s.value, false)))
  }

  lemma {:induction false} AnchoredChars(t: string)
    ensures forall c :: c in Anchored(t) ==> c in t
  {
    if t != [] && t != "\n" {
      AnchoredChars(t[1..]);
    }
  }

  lemma {:induction false} MapCharsDigits(t: string, dropPlus: bool)
    ensures forall c :: c in MapChars(t, dropPlus) && IsDigit(c) ==> c in t
  {
    if t != [] {
      MapCharsDigits(t[1..], dropPlus);
    }
  }

  /** Normalising adds no digit. */
  lemma NormalizedDigits(x: string, dropPlus: bool)
    ensures HasDigit(Anchored(Normalized(x, dropPlus))) ==> HasDigit(x)
  {
    AnchoredChars(Normalized(x, dropPlus));
    MapCharsDigits(Strip(x), dropPlus);
    StripChars(x);
  }

  lemma {:induction false} RemoveAllAppend(a: string, b: string, c: char)
    ensures RemoveAll(a + b, c) == RemoveAll(a, c) + RemoveAll(b, c)
  {
    if a == [] {
      assert a + b == b;
    } else {
      var head := if a[0] == c then [] else [a[0]];
      calc {
        RemoveAll(a + b, c);
        { assert (a + b)[0] == a[0] && (a + b)[1..] == a[1..] + b; }
        head + RemoveAll(a[1..] + b, c);
        { RemoveAllAppend(a[1..], b, c); }
        head + (RemoveAll(a[1..], c) + RemoveAll(b, c));
        (head + RemoveAll(a[1..], c)) + RemoveAll(b, c);
      }
    }
  }

  /** Deleting '+' as well is the plain map with its '+' removed afterwards. */
  lemma {:induction false} MapCharsDropPlus(t: string)
    ensures MapChars(t, true) == RemoveAll(MapChars(t, false), '+')
  {
    if t != [] {
      var h := Mapped(t[0], false);
      var rest := MapChars(t[1..], false);
      calc {
        MapChars(t, true);
        Mapped(t[0], true) + MapChars(t[1..], true);
        { MapCharsDropPlus(t[1..]); MappedDropPlus(t[0]); }
        RemoveAll(h, '+') + RemoveAll(rest, '+');
        { RemoveAllAppend(h, rest, '+'); }
        RemoveAll(h + rest, '+');
      }
    }
  }

  lemma MappedDropPlus(c: char)
    ensures Mapped(c, true) == RemoveAll(Mapped(c, false), '+')
  {
    if c != ' ' && c != '+' && c != '\U{2212}' && c != ',' {
      assert RemoveAll([c], '+') == [c] + RemoveAll([], '+');
    }
  }

  /** A decimal text has at most a leading '+'; without it the text reads the same. */
  lemma PlusFreeDecimal(u: string)
    requires ParseDecimal(u).Some?
    ensures ParseDecimal(RemoveAll(u, '+')) == ParseDecimal(u)
    ensures RemoveAll(u, '+') != [] && IsDigit(RemoveAll(u, '+')[|RemoveAll(u, '+')| - 1])
  {
    if StartsWith(u, '+') {
      var w := u[1..];
      UnsignedStartsWithDigit(w);
      assert u == [u[0]] + w;
      RemoveAllCons(u[0], w, '+');
      assert RemoveAll(u, '+') == w;
    } else if StartsWith(u, '-') {
      UnsignedStartsWithDigit(u[1..]);
      assert '+' !in u[1..];
      assert u == [u[0]] + u[1..];
      assert '+' !in u;
    } else {
      UnsignedStartsWithDigit(u);
      assert '+' !in u;
    }
  }

  /** Deleting '+' commutes with the `$` cover when the covered part, once its '+' is
      gone, still ends in a digit. */
  lemma AnchoredRemoveAll(t: string, u: string)
    requires u == Anchored(t)
    requires RemoveAll(u, '+') != [] && IsDigit(RemoveAll(u, '+')[|RemoveAll(u, '+')| - 1])
    ensures Anchored(RemoveAll(t, '+')) == RemoveAll(u, '+')
  {
    var u' := RemoveAll(u, '+');
    AnchoredDropsFinalNewline(t);
    if EndsWith(t, '\n') {
      assert t == u + "\n";
      NewlineKeptAnchored(u, u');
    } else {
      assert t == u;
      AnchoredDigitEnd(u');
    }
  }

  lemma NewlineKeptAnchored(u: string, u': string)
    requires u' == RemoveAll(u, '+') && u' != [] && IsDigit(u'[|u'| - 1])
    ensures Anchored(RemoveAll(u + "\n", '+')) == u'
  {
    RemoveAllAppend(u, "\n", '+');
    AnchoredAppend(u');
  }

  /** Deleting '+' from a text whose covered part reads as a decimal: the covered part
      loses its leading '+' and reads the same. */
  lemma AnchoredWithoutPlus(t: string)
    requires ParseDecimal(Anchored(t)).Some?
    ensures ParseDecimal(Anchored(RemoveAll(t, '+'))) == ParseDecimal(Anchored(t))
  {
    PlusFreeDecimal(Anchored(t));
    AnchoredRemoveAll(t, Anchored(t));
  }

  /** What _parse_number reads, _parse_number_clean reads the same. */
  lemma CleanReadsPlain(x: string)
    ensures ParseDecimal(Anchored(Normalized(x, false))).Some?
        ==> ParseDecimal(Anchored(Normalized(x, true))) == ParseDecimal(Anchored(Normalized(x, false)))
  {
    if ParseDecimal(Anchored(Normalized(x, false))).Some? {
      MapCharsDropPlus(Strip(x));
      AnchoredWithoutPlus(Normalized(x, false));
    }
  }

  /** Rendered number text: no whitespace at either end, only digits, '-' and '.'. */
  predicate PlainNumber(t: string) {
    t != [] && NumericChars(t) && !IsSpace(t[0]) && IsDigit(t[|t| - 1])
  }

  lemma {:induction false} MapCharsNumeric(t: string, dropPlus: bool)
    requires NumericChars(t)
    ensures MapChars(t, dropPlus) == t
  {
    if t != [] {
      assert IsDigit(t[0]) || t[0] == '-' || t[0] == '.';
      MapCharsNumeric(t[1..], dropPlus);
      assert [t[0]] + t[1..] == t;
    }
  }

  lemma {:induction false} AnchoredDigitEnd(t: string)
    requires t != [] && IsDigit(t[|t| - 1])
    ensures Anchored(t) == t
  {
    AnchoredDropsFinalNewline(t);
  }

  lemma NormalizedPlain(t: string, dropPlus: bool)
    requires PlainNumber(t)
    ensures Anchored(Normalized(t, dropPlus)) == t
  {
    StripUnchanged(t);
    MapCharsNumeric(t, dropPlus);
    AnchoredDigitEnd(t);
  }

  /** Both parsers read back the numbers this model renders. */
  lemma {:induction false} PlainNumberReads(t: string, v: real)
    requires PlainNumber(t) && ParseDecimal(t) == Some(v)
    ensures ParseNumberClean(Some(t)) == Some(v)
    ensures ParseNumber(Some(t)) == Some(v)
  {
    NormalizedPlain(t, true);
    NormalizedPlain(t, false);
  }

  lemma {:induction false} MapCharsNoPlus(s: string)
    requires '+' !in s
    ensures MapChars(s, true) == MapChars(s, false)
  {
    if s != [] {
      MapCharsNoPlus(s[1..]);
    }
  }

  /** Without a '+' the two parsers agree. */
  lemma {:induction false} ParsersAgree(s: string)
    requires '+' !in s
    ensures ParseNumber(Some(s)) == ParseNumberClean(Some(s))
  {
    StripChars(s);
    MapCharsNoPlus(Strip(s));
  }

  lemma PlusExampleText()
    ensures Normalized("1+", true) == "1" && Normalized("1+", false) == "1+"
    ensures Normalized("1\n+", true) == "1\n"
  {
    assert Strip("1+") == "1+";
    assert Strip("1\n+") == "1\n+";
    assert MapChars("+", true) == [] && MapChars("+", false) == "+";
    assert MapChars("\n+", true) == "\n";
  }

  lemma OneReads()
    ensures ParseDecimal("1") == Some(1.0)
  {
    OneDigitReads('1');
  }

  lemma OnePlusFails()
    ensures ParseDecimal("1+") == None
  {
    assert !AllDigits("1+") by { assert !IsDigit("1+"[1]); }
    assert Split("1+", '.') == ["1+"] by { SplitWithout("1+", '.'); }
  }

  /** Only the clean parser drops a '+', even one after the digits. */
  lemma TrailingPlusExample()
    ensures ParseNumberClean(Some("1+")) == Some(1.0)
    ensures ParseNumber(Some("1+")) == None
  {
    PlusExampleText();
    OneReads();
    OnePlusFails();
    AnchoredDigitEnd("1");
    AnchoredDropsFinalNewline("1+");
  }

  lemma {:induction false} MapCharsAppend(x: string, y: string, dropPlus: bool)
    ensures MapChars(x + y, dropPlus) == MapChars(x, dropPlus) + MapChars(y, dropPlus)
  {
    if x != [] {
      var xy := x + y;
      assert xy[0] == x[0] && xy[1..] == x[1..] + y;
      var m := Mapped(x[0], dropPlus);
      calc {
        MapChars(xy, dropPlus);
        m + MapChars(x[1..] + y, dropPlus);
        { MapCharsAppend(x[1..], y, dropPlus); }
        m + (MapChars(x[1..], dropPlus) + MapChars(y, dropPlus));
        (m + MapChars(x[1..], dropPlus)) + MapChars(y, dropPlus);
      }
    } else {
      assert x + y == y;
    }
  }

  lemma {:induction false} AnchoredAppend(d: string)
    requires d != [] && IsDigit(d[|d| - 1])
    ensures Anchored(d + "\n") == d
  {
    AnchoredDropsFinalNewline(d + "\n");
    assert (d + "\n")[..|d|] == d;
  }

  /** A newline that the '+' deletion leaves at the end is still accepted, because `$`
      matches before a final newline: "1\n+" reads as 1. */
  lemma {:induction false} NewlineBeforePlus(d: string, v: real)
    requires PlainNumber(d) && ParseDecimal(d) == Some(v)
    ensures ParseNumberClean(Some(d + "\n+")) == Some(v)
  {
    NormalizedNewlinePlus(d);
    AnchoredAppend(d);
  }

  lemma {:induction false} NormalizedNewlinePlus(d: string)
    requires PlainNumber(d)
    ensures Normalized(d + "\n+", true) == d + "\n"
  {
    var s := d + "\n+";
    assert s[0] == d[0] && s[|s| - 1] == '+';
    StripUnchanged(s);
    MapCharsAppend(d, "\n+", true);
    MapCharsNumeric(d, true);
    NewlinePlusMapped("\n+");
  }

  lemma NewlinePlusMapped(t: string)
    requires t == "\n+"
    ensures MapChars(t, true) == "\n"
  {
    var p := t[1..];
    assert t[0] == '\n' && p == "+" && p[1..] == [];
    assert MapChars(p, true) == Mapped('+', true) + MapChars([], true) == [];
    assert MapChars(t, true) == Mapped('\n', true) + MapChars(p, true);
  }

  // ---------------------------------------------------------------- split lines

  /** The non-empty segments, in order. */
  function NonEmpty(parts: seq<string>): (r: seq<string>)
    ensures |r| <= |parts|
    ensures forall p :: p in r ==> p in parts && p != []
  {
    if parts == [] then [] else (if parts[0] == [] then [] else [parts[0]]) + NonEmpty(parts[1..])
  }

  function Sum(s: seq<real>): real {
    if s == [] then 0.0 else Sum(s[..|s| - 1]) + s[|s| - 1]
  }

  /** One '/' segment read by _parse_number_clean. */
  function CleanSegment(p: string): Option<real> {
    ParseNumberClean(Some(p))
  }

  /** Every segment reads under `read`. */
  predicate SegmentsRead(parts: seq<string>, read: string -> Option<real>) {
    forall i :: 0 <= i < |parts| ==> read(parts[i]).Some?
  }

  function SegmentValues(parts: seq<string>, read: string -> Option<real>): (r: seq<real>)
    requires SegmentsRead(parts, read)
    ensures |r| == |parts|
    ensures forall i :: 0 <= i < |parts| ==> read(parts[i]) == Some(r[i])
  {
    seq(|parts|, i requires 0 <= i < |parts| => read(parts[i]).value)
  }

  /** The mean of the segment values. */
  function Mean(nums: seq<real>): real
    requires nums != []
  {
    Sum(nums) / |nums| as real
  }

  lemma MeanOfTwo(x: real, y: real)
    ensures Mean([x, y]) == (x + y) / 2.0
  {
    assert [x, y][..1] == [x];
    assert [x][..0] == [];
    assert Sum([x]) == Sum([]) + x;
    assert Sum([x, y]) == Sum([x]) + y;
  }

  lemma MeanOfOne(x: real)
    ensures Mean([x]) == x
  {
    assert [x][..0] == [];
    assert Sum([x]) == Sum([]) + x;
  }

  /** The mean of the segment values; None when a segment fails or there is none. */
  function SegmentsMean(parts: seq<string>, read: string -> Option<real>): Option<real> {
    if parts != [] && SegmentsRead(parts, read) then Some(Mean(SegmentValues(parts, read))) else None
  }

  lemma {:induction false} SegmentsMeanOf(parts: seq<string>, nums: seq<real>, read: string -> Option<real>)
    requires |nums| == |parts| > 0
    requires forall j :: 0 <= j < |parts| ==> read(parts[j]) == Some(nums[j])
    ensures SegmentsMean(parts, read) == Some(Mean(nums))
  {
    assert nums == SegmentValues(parts, read);
  }

  /** What _parse_handicap_to_float returns: for text holding '/', the mean of its
      non-empty segments; otherwise the stripped text with every '+' deleted, read by
      _parse_number_clean. A line is only read from a text holding a digit, so a
      missing, blank or digit-free text, and one of slashes only, reads as None. */
  function HandicapValue(text: Option<string>): (r: Option<real>)
    ensures r.Some? ==> text.Some? && HasDigit(text.value)
  {
    if text.None? then None
    else
      var t := Strip(text.value);
      StripChars(text.value);
      if '/' in t then
        SegmentsDigit(t);
        SegmentsMean(NonEmpty(Split(t, '/')), CleanSegment)
      else
        RemoveAllChars(t, '+');
        ParseNumberClean(Some(RemoveAll(t, '+')))
  }

  /** A split line reads only if one of its segments holds a digit. */
  lemma SegmentsDigit(t: string)
    ensures SegmentsMean(NonEmpty(Split(t, '/')), CleanSegment).Some? ==> HasDigit(t)
  {
    var parts := NonEmpty(Split(t, '/'));
    if SegmentsMean(parts, CleanSegment).Some? {
      assert CleanSegment(parts[0]).Some?;
      var c :| c in parts[0] && IsDigit(c);
      assert parts[0] in parts;
      var i :| 0 <= i < |Split(t, '/')| && Split(t, '/')[i] == parts[0];
      SplitPartsChars(t, '/');
      assert c in t;
    }
  }

  /** _parse_handicap_to_float: the segment loop for text holding '/', otherwise the
      stripped text with every '+' deleted. */
  method ParseHandicapToFloat(text: Option<string>) returns (r: Option<real>)
    ensures r == HandicapValue(text)
  {
    if text.None? {
      return None;
    }
    var t := Strip(text.value);
    if '/' in t {
      r := MeanOfSegments(NonEmpty(Split(t, '/')));
    } else {
      r := ParseNumberClean(Some(RemoveAll(t, '+')));
    }
  }

  /** The segment loop: the first unreadable segment ends it with None; no segment at
      all gives None; otherwise the mean of the collected values. */
  method MeanOfSegments(parts: seq<string>) returns (r: Option<real>)
    ensures r == SegmentsMean(parts, CleanSegment)
  {
    var nums: seq<real> := [];
    for i := 0 to |parts|
      invariant |nums| == i
      invariant forall j :: 0 <= j < i ==> CleanSegment(parts[j]) == Some(nums[j])
    {
      var v := CleanSegment(parts[i]);
      if v.None? {
        assert !SegmentsRead(parts, CleanSegment);
        return None;
      }
      nums := nums + [v.value];
    }
    if nums == [] {
      return None;
    }
    SegmentsMeanOf(parts, nums, CleanSegment);
    return Some(Mean(nums));
  }

  /** A rendered number without '/' reads as itself. */
  lemma {:induction false} HandicapOfNumber(t: string, v: real)
    requires PlainNumber(t) && ParseDecimal(t) == Some(v)
    ensures HandicapValue(Some(t)) == Some(v)
  {
    StripUnchanged(t);
    NumericCharsExclude(t, '/');
    NumericCharsExclude(t, '+');
    PlainNumberReads(t, v);
  }

  lemma {:induction false} PairSplit(a: string, b: string)
    requires PlainNumber(a) && PlainNumber(b)
    ensures Strip(a + "/" + b) == a + "/" + b && '/' in a + "/" + b
    ensures NonEmpty(Split(a + "/" + b, '/')) == [a, b]
  {
    var s := a + "/" + b;
    assert s[0] == a[0] && s[|s| - 1] == b[|b| - 1] && s[|a|] == '/';
    StripUnchanged(s);
    NumericCharsExclude(a, '/');
    NumericCharsExclude(b, '/');
    SplitPair(a, '/', b);
    assert NonEmpty([b]) == [b];
  }

  lemma PairMean(a: string, b: string, va: real, vb: real, mean: real, read: string -> Option<real>)
    requires read(a) == Some(va) && read(b) == Some(vb) && mean == (va + vb) / 2.0
    ensures SegmentsMean([a, b], read) == Some(mean)
  {
    assert SegmentValues([a, b], read) == [va, vb];
    MeanOfTwo(va, vb);
  }

  lemma SingleMean(a: string, va: real, read: string -> Option<real>)
    requires read(a) == Some(va)
    ensures SegmentsMean([a], read) == Some(va)
  {
    assert SegmentValues([a], read) == [va];
    MeanOfOne(va);
  }

  /** A split line whose segments are known reads as their mean. */
  lemma SplitInto(t: string, parts: seq<string>, mean: Option<real>)
    requires Strip(t) == t && '/' in t && NonEmpty(Split(t, '/')) == parts
    requires SegmentsMean(parts, CleanSegment) == mean
    ensures HandicapValue(Some(t)) == mean
  {
    SplitBranch(t);
  }

  lemma SplitBranch(t: string)
    requires Strip(t) == t && '/' in t
    ensures HandicapValue(Some(t)) == SegmentsMean(NonEmpty(Split(t, '/')), CleanSegment)
  {
  }

  /** Two rendered numbers around '/' read as their plain mean: no sign carries over. */
  lemma {:induction false} HandicapPairMean(a: string, b: string, va: real, vb: real, mean: real)
    requires PlainNumber(a) && ParseDecimal(a) == Some(va)
    requires PlainNumber(b) && ParseDecimal(b) == Some(vb)
    requires mean == (va + vb) / 2.0
    ensures HandicapValue(Some(a + "/" + b)) == Some(mean)
  {
    PairSplit(a, b);
    PlainNumberReads(a, va);
    PlainNumberReads(b, vb);
    PairMean(a, b, va, vb, mean, CleanSegment);
    SplitInto(a + "/" + b, [a, b], Some(mean));
  }

  /** Empty segments do not count: "a/" reads as a alone. */
  lemma {:induction false} HandicapTrailingSlash(a: string, va: real)
    requires PlainNumber(a) && ParseDecimal(a) == Some(va)
    ensures HandicapValue(Some(a + "/")) == Some(va)
  {
    var s := a + "/";
    assert s[0] == a[0] && s[|s| - 1] == '/';
    assert Strip(s) == s;
    NumericCharsExclude(a, '/');
    SplitAfter(a, '/', "");
    assert a + ['/'] + "" == s;
    assert NonEmpty([a, ""]) == [a];
    PlainNumberReads(a, va);
    SingleMean(a, va, CleanSegment);
  }

  lemma {:induction false} OneDigitReads(q: char)
    requires IsDigit(q)
    ensures ParseDecimal([q]) == Some(DigitValue(q) as real)
    ensures ParseDecimal(['-', q]) == Some(-(DigitValue(q) as real))
  {
    assert [q][..0] == [];
    assert AllDigits([q]);
    assert DigitsValue([q]) == DigitsValue([]) * 10 + DigitValue(q);
    assert UnsignedDecimal([q]) == Some(DigitValue(q) as real);
    assert !StartsWith([q], '-') && !StartsWith([q], '+');
    assert ['-', q][1..] == [q];
  }

  lemma {:induction false} OneDecimalReads(q: char, r: char)
    requires IsDigit(q) && IsDigit(r)
    ensures ParseDecimal([q, '.', r]) == Some(DigitValue(q) as real + DigitValue(r) as real / 10.0)
  {
    var s := [q, '.', r];
    assert !AllDigits(s) by { assert !IsDigit(s[1]); }
    assert [q] + ['.'] + [r] == s;
    SplitPair([q], '.', [r]);
    assert [q][..0] == [] && [r][..0] == [];
    assert DigitsValue([q]) == DigitsValue([]) * 10 + DigitValue(q);
    assert DigitsValue([r]) == DigitsValue([]) * 10 + DigitValue(r);
    assert Unshift(DigitValue(r) as real, 1) == Unshift(DigitValue(r) as real, 0) / 10.0;
    assert UnsignedDecimal(s) == Some(DigitValue(q) as real + DigitValue(r) as real / 10.0);
    assert !StartsWith(s, '-') && !StartsWith(s, '+');
  }

  lemma LiteralValues()
    ensures ParseDecimal("-0") == Some(0.0) && ParseDecimal("0.5") == Some(0.5)
    ensures ParseDecimal("1") == Some(1.0) && ParseDecimal("1.5") == Some(1.5)
  {
    OneDigitReads('0');
    OneDigitReads('1');
    OneDecimalReads('0', '5');
    OneDecimalReads('1', '5');
  }

  /** "1/1.5" is the plain mean 1.25. */
  lemma SplitLineExample(s: string)
    requires s == "1/1.5"
    ensures HandicapValue(Some(s)) == Some(1.25)
  {
    assert PlainNumber("1") && PlainNumber("1.5") && "1" + "/" + "1.5" == "1/1.5";
    LiteralValues();
    HandicapPairMean("1", "1.5", 1.0, 1.5, 1.25);
  }

  lemma MinusZeroPrefix()
    ensures PlainNumber("-0") && ParseDecimal("-0") == Some(0.0)
  {
    OneDigitReads('0');
  }

  lemma {:induction false} MinusZeroPair(b: string, vb: real)
    requires PlainNumber(b) && IsDigit(b[0]) && UnsignedDecimal(b) == Some(vb)
    ensures HandicapValue(Some("-0" + "/" + b)) == Some(vb / 2.0)
  {
    MinusZeroPrefix();
    SignedParse(b, vb);
    ZeroFirstPair("-0", b, vb);
  }

  lemma ZeroFirstPair(a: string, b: string, vb: real)
    requires PlainNumber(a) && ParseDecimal(a) == Some(0.0)
    requires PlainNumber(b) && ParseDecimal(b) == Some(vb)
    ensures HandicapValue(Some(a + "/" + b)) == Some(vb / 2.0)
  {
    HandicapPairMean(a, b, 0.0, vb, vb / 2.0);
  }

  /** "-0/b" is +b/2 here, where the match-study parser reads -b/2 (so "-0/0.5" is 0.25
      against -0.25): the second half does not inherit the sign. */
  lemma {:induction false} SplitLinesDisagree(b: string, vb: real)
    requires PlainNumber(b) && IsDigit(b[0]) && UnsignedDecimal(b) == Some(vb)
    ensures HandicapValue(Some("-0" + "/" + b)) == Some(vb / 2.0)
    ensures EstudioScraper.ParseAh(Some("-0/" + b)) == Some(-vb / 2.0)
  {
    MinusZeroPair(b, vb);
    EstudioScraper.SplitLineMinusZero(b, vb);
  }

  // ---------------------------------------------------------------- half-line buckets

  /** close(a, b) of _bucket_to_half: within 1e-6. */
  predicate Close(a: real, b: real) {
    Abs(a - b) < 0.000001
  }

  /** _bucket_to_half on the magnitude: quarter and half lines go to the half line above
      their whole part, whole lines stay, anything else is rounded to the nearest half
      (ties to even) and moved to the half line when that lands on a whole number that
      is within 0.26 of a quarter line. */
  function HalfMagnitude(av: real): real
    requires av > 0.0
  {
    var base := (av + 0.000000001).Floor;
    var frac := av - base as real;
    if Close(frac, 0.0) then base as real
    else if Close(frac, 0.5) || Close(frac, 0.25) || Close(frac, 0.75) then base as real + 0.5
    else
      var bucket := RoundHalfEven(av * 2.0) as real / 2.0;
      var whole := bucket.Floor as real;
      if Close(bucket - whole, 0.0)
         && (Abs(av - (whole + 0.25)) < 0.26 || Abs(av - (whole + 0.75)) < 0.26)
      then whole + 0.5
      else bucket
  }

  /** _bucket_to_half: zero stays zero, otherwise the sign times the bucketed magnitude.
      Every bucket is a whole or half line, of the input's sign, less than 0.51 away. */
  function BucketToHalf(v: real): (b: real)
    ensures IsHalf(b) && Abs(b - v) < 0.51
    ensures (v >= 0.0 ==> b >= 0.0) && (v <= 0.0 ==> b <= 0.0)
  {
    if v == 0.0 then HalfOfWhole(0, 0); 0.0
    else if v < 0.0 then
      MagnitudeNearHalf(-v);
      WholeNegated(2.0 * HalfMagnitude(-v));
      -HalfMagnitude(-v)
    else
      MagnitudeNearHalf(v);
      HalfMagnitude(v)
  }

  /** Whole part n and fraction f below 1e-6: the whole line n. */
  lemma {:induction false} MagnitudeNearWhole(av: real)
    requires av > 0.0 && av - av.Floor as real < 0.000001
    ensures HalfMagnitude(av) == av.Floor as real
  {
    FloorIs(av + 0.000000001, av.Floor);
  }

  /** A fraction from 1e-6 up to just past 0.75: the half line n + 0.5. */
  lemma {:induction false} MagnitudeMiddle(av: real)
    requires av > 0.0
    requires 0.000001 <= av - av.Floor as real < 0.750001
    ensures HalfMagnitude(av) == av.Floor as real + 0.5
  {
    var n := av.Floor;
    var f := av - n as real;
    FloorIs(av + 0.000000001, n);
    if !(Close(f, 0.5) || Close(f, 0.25) || Close(f, 0.75)) {
      var r := RoundHalfEven(av * 2.0);
      if f <= 0.25 {
        FloorIs(av * 2.0, 2 * n);
        assert r == 2 * n;
        FloorIs(r as real / 2.0, n);
      } else {
        FloorIs(av * 2.0, 2 * n + (if f < 0.5 then 0 else 1));
        assert r == 2 * n + 1;
        FloorIs(r as real / 2.0, n);
      }
    }
  }

  /** A fraction from 0.750001 to 0.99: rounded up to the whole line n + 1. */
  lemma {:induction false} MagnitudeRoundsUp(av: real)
    requires av > 0.0
    requires 0.750001 <= av - av.Floor as real <= 0.99
    ensures HalfMagnitude(av) == av.Floor as real + 1.0
  {
    var n := av.Floor;
    FloorIs(av + 0.000000001, n);
    FloorIs(av * 2.0, 2 * n + 1);
    assert RoundHalfEven(av * 2.0) == 2 * n + 2;
    FloorIs((2 * n + 2) as real / 2.0, n + 1);
  }

  /** A fraction above 0.99 but short of 1 - 1e-9: the half line n + 1.5, past the
      nearer whole line n + 1. */
  lemma {:induction false} MagnitudeOvershoots(av: real)
    requires av > 0.0
    requires 0.99 < av - av.Floor as real < 0.999999999
    ensures HalfMagnitude(av) == av.Floor as real + 1.5
  {
    var n := av.Floor;
    FloorIs(av + 0.000000001, n);
    FloorIs(av * 2.0, 2 * n + 1);
    assert RoundHalfEven(av * 2.0) == 2 * n + 2;
    FloorIs((2 * n + 2) as real / 2.0, n + 1);
  }

  /** A fraction of at least 1 - 1e-9: the 1e-9 nudge reaches the next whole line. */
  lemma {:induction false} MagnitudeNudged(av: real)
    requires av > 0.0 && av - av.Floor as real >= 0.999999999
    ensures HalfMagnitude(av) == av.Floor as real + 1.0
  {
    FloorIs(av + 0.000000001, av.Floor + 1);
  }

  /** The buckets by whole part n and fraction f of the magnitude. Fractions just under
      1 overshoot: 1.98 goes to 2.0 but 1.995 to 2.5, and 1.9999999995 back to 2.0. */
  lemma {:induction false} HalfMagnitudeCases(av: real)
    requires av > 0.0
    ensures var n := av.Floor as real; var f := av - n;
            HalfMagnitude(av)
            == if f < 0.000001 then n
               else if f < 0.750001 then n + 0.5
               else if f <= 0.99 then n + 1.0
               else if f < 0.999999999 then n + 1.5
               else n + 1.0
  {
    var f := av - av.Floor as real;
    if f < 0.000001 {
      MagnitudeNearWhole(av);
    } else if f < 0.750001 {
      MagnitudeMiddle(av);
    } else if f <= 0.99 {
      MagnitudeRoundsUp(av);
    } else if f < 0.999999999 {
      MagnitudeOvershoots(av);
    } else {
      MagnitudeNudged(av);
    }
  }

  lemma HalfOfWhole(n: int, h: int)
    requires 0 <= h <= 3
    ensures IsHalf(n as real + h as real / 2.0)
  {
    FloorIs(2.0 * (n as real + h as real / 2.0), 2 * n + h);
  }

  /** The bucketed magnitude is a non-negative whole or half line less than 0.51 away. */
  lemma MagnitudeNearHalf(av: real)
    requires av > 0.0
    ensures IsHalf(HalfMagnitude(av)) && Abs(HalfMagnitude(av) - av) < 0.51 && HalfMagnitude(av) >= 0.0
  {
    HalfMagnitudeCases(av);
    var n := av.Floor;
    var f := av - n as real;
    var h := if f < 0.000001 then 0 else if f < 0.750001 then 1
             else if f <= 0.99 || f >= 0.999999999 then 2 else 3;
    assert HalfMagnitude(av) == n as real + h as real / 2.0;
    HalfOfWhole(n, h);
  }

  /** The bucket is symmetric: a negative line buckets like its magnitude, negated. */
  lemma BucketOdd(v: real)
    ensures BucketToHalf(-v) == -BucketToHalf(v)
  {
  }

  lemma {:induction false} FractionOfMultiple(x: real, d: int)
    requires x >= 0.0 && (d == 2 || d == 4) && IsWhole(d as real * x)
    ensures var f := x - x.Floor as real;
            (d == 2 ==> f == 0.0 || f == 0.5)
            && (d == 4 ==> f == 0.0 || f == 0.25 || f == 0.5 || f == 0.75)
            && (f == 0.0 <==> IsWhole(x))
  {
    var k := (d as real * x).Floor;
    if d == 2 {
      var n, r := k / 2, k % 2;
      assert x == n as real + r as real / 2.0;
      FloorIs(x, n);
      assert x - x.Floor as real == r as real / 2.0;
    } else {
      var n, r := k / 4, k % 4;
      assert x == n as real + r as real / 4.0;
      FloorIs(x, n);
      assert x - x.Floor as real == r as real / 4.0;
    }
  }

  lemma {:induction false} MultipleOfMagnitude(x: real, d: int)
    requires d == 2 || d == 4
    ensures IsWhole(d as real * x) ==> IsWhole(d as real * Abs(x))
    ensures IsWhole(x) ==> IsWhole(Abs(x))
  {
    if x < 0.0 {
      if IsWhole(d as real * x) {
        WholeNegated(d as real * x);
        assert d as real * Abs(x) == -(d as real * x);
      }
      if IsWhole(x) {
        WholeNegated(x);
      }
    }
  }

  /** Whole and half lines are their own bucket. */
  lemma {:induction false} BucketFixesHalves(b: real)
    requires IsHalf(b)
    ensures BucketToHalf(b) == b
  {
    if b != 0.0 {
      var av := Abs(b);
      MultipleOfMagnitude(b, 2);
      FractionOfMultiple(av, 2);
      HalfMagnitudeCases(av);
    }
  }

  /** Quarter lines that are not whole go to the half line above their whole part. */
  lemma {:induction false} BucketQuarters(v: real)
    requires IsQuarter(v) && !IsWhole(v)
    ensures BucketToHalf(v) == if v < 0.0 then -((-v).Floor as real + 0.5) else v.Floor as real + 0.5
  {
    var av := Abs(v);
    MultipleOfMagnitude(v, 4);
    FractionOfMultiple(av, 4);
    if v < 0.0 && IsWhole(av) {
      WholeNegated(av);
    }
    HalfMagnitudeCases(av);
  }

  /** Only values within 1e-6 of zero land in the zero bucket. */
  lemma {:induction false} BucketZero(v: real)
    ensures BucketToHalf(v) == 0.0 <==> Abs(v) < 0.000001
  {
    if v != 0.0 {
      var av := Abs(v);
      HalfMagnitudeCases(av);
      if av < 0.000001 { FloorIs(av, 0); }
    }
  }

  /** The overshoot near whole lines: 1.98 buckets to 2.0, 1.995 to 2.5, the bucket of
      2.3. */
  lemma OvershootExample()
    ensures BucketToHalf(1.98) == 2.0 && BucketToHalf(1.995) == 2.5 && BucketToHalf(2.3) == 2.5
  {
    FloorIs(2.3, 2);
    HalfMagnitudeCases(2.3);
    FloorIs(1.98, 1);
    HalfMagnitudeCases(1.98);
    FloorIs(1.995, 1);
    HalfMagnitudeCases(1.995);
  }

  // ---------------------------------------------------------------- bucket text

  /** A negative value whose bucket is zero: Python's -1.0 * 0.0 is -0.0, and
      f"{-0.0:.1f}" keeps the sign. */
  predicate NegativeZero(v: real) {
    v < 0.0 && BucketToHalf(v) == 0.0
  }

  /** The bucket of v written with one decimal. */
  function HalfBucketText(v: real): string {
    var text := FormatFixed(BucketToHalf(v), 1);
    if NegativeZero(v) then "-" + text else text
  }

  /** normalize_handicap_to_half_bucket_str: the bucket of the parsed line, with one
      decimal, or None when the text does not parse. The text reads back, through the
      same parser, as that bucket. */
  function NormalizeHalfBucket(text: Option<string>): (r: Option<string>)
    ensures r.None? <==> HandicapValue(text).None?
    ensures r.Some? ==> HandicapValue(r) == Some(BucketToHalf(HandicapValue(text).value))
  {
    match HandicapValue(text)
    case None => None
    case Some(v) =>
      HalfBucketTextReads(v);
      HandicapOfNumber(HalfBucketText(v), BucketToHalf(v));
      Some(HalfBucketText(v))
  }

  lemma {:induction false} NegatedTextReads(b: real)
    requires b >= 0.0 && IsDecimalWith(b, 1)
    ensures PlainNumber("-" + FormatFixed(b, 1)) && ParseDecimal("-" + FormatFixed(b, 1)) == Some(-b)
  {
    var d := FormatFixed(b, 1);
    FormatFixedParses(b, 1);
    assert d == FixedDigits(ScaledRound(b, 1), 1);
    assert !StartsWith(d, '-') && !StartsWith(d, '+');
    SignedParse(d, b);
    NumericConcat("-", d);
  }

  lemma {:induction false} HalfTextReads(b: real, neg: bool)
    requires IsHalf(b) && (neg ==> b == 0.0)
    ensures var text := FormatFixed(b, 1);
            var t := if neg then "-" + text else text;
            PlainNumber(t) && ParseDecimal(t) == Some(b)
  {
    HalfIsDecimal(b);
    if neg {
      NegatedTextReads(b);
    } else {
      FormatFixedParses(b, 1);
    }
  }

  /** The bucket text reads back as the bucket ("-0.0" as zero). */
  lemma {:induction false} HalfBucketTextReads(v: real)
    ensures PlainNumber(HalfBucketText(v)) && ParseDecimal(HalfBucketText(v)) == Some(BucketToHalf(v))
  {
    HalfTextReads(BucketToHalf(v), NegativeZero(v));
  }

  /** Two values get the same text exactly when they share the bucket and the sign of
      a zero bucket. */
  lemma {:induction false} HalfBucketTextDistinguishes(v: real, w: real)
    ensures HalfBucketText(v) == HalfBucketText(w)
            <==> BucketToHalf(v) == BucketToHalf(w) && NegativeZero(v) == NegativeZero(w)
  {
    var tv, tw := HalfBucketText(v), HalfBucketText(w);
    HalfBucketTextReads(v);
    HalfBucketTextReads(w);
    assert tv[0] == '-' <==> NegativeZero(v) || BucketToHalf(v) < 0.0;
    assert tw[0] == '-' <==> NegativeZero(w) || BucketToHalf(w) < 0.0;
  }

  /** Normalising a normalised line changes nothing, except that "-0.0" loses its sign. */
  lemma {:induction false} NormalizeHalfBucketAgain(text: Option<string>, o: string)
    requires NormalizeHalfBucket(text) == Some(o)
    ensures !NegativeZero(HandicapValue(text).value) ==> NormalizeHalfBucket(Some(o)) == Some(o)
    ensures NegativeZero(HandicapValue(text).value) ==> NormalizeHalfBucket(Some(o)) == Some(o[1..])
  {
    var v := HandicapValue(text).value;
    var b := BucketToHalf(v);
    HalfBucketTextReads(v);
    HandicapOfNumber(o, b);
    BucketFixesHalves(b);
  }

  // ---------------------------------------------------------------- decoded fields

  /** A decoded JSON field handed to a parser as it is: a missing field or null gives
      None, anything else the text str() makes of it. */
  function FieldText(raw: Option<Json>): Option<string> {
    if raw.None? || raw.value.JNull? then None else Some(Shown(raw.value))
  }

  /** `str(raw or '')`: a falsy field (None, False, 0, 0.0, "", [] or {}) becomes the
      empty text. */
  function OrEmptyText(raw: Option<Json>): string {
    if raw.Some? && JTruthy(raw.value) then Shown(raw.value) else ""
  }

  /** The first field when it is truthy, otherwise the second. */
  function JOr(a: Option<Json>, b: Option<Json>): Option<Json> {
    if a.Some? && JTruthy(a.value) then a else b
  }

  /** A falsy field that still reads as a line is the number zero, 0 or 0.0; False,
      "", [] and {} hold no digit. */
  lemma {:induction false} FalsyReadsZero(raw: Option<Json>)
    requires HandicapValue(FieldText(raw)).Some? && !JTruthy(raw.value)
    ensures raw.value == JInt(0) || raw.value == JFloat(0.0)
    ensures HandicapValue(FieldText(raw)) == Some(0.0)
  {
    var shown := Shown(raw.value);
    assert FieldText(raw) == Some(shown);
    assert HasDigit(shown);
    FalsyTextsHaveNoDigit();
    if raw.value.JInt? {
      IntZeroReads();
    } else if raw.value.JFloat? {
      FloatZeroReads();
    }
  }

  lemma FalsyTextsHaveNoDigit()
    ensures !HasDigit("False") && !HasDigit("") && !HasDigit("[]") && !HasDigit("{}")
  {
    assert forall c :: c in "False" ==> !IsDigit(c);
  }

  lemma IntZeroReads()
    ensures HandicapValue(Some(IntText(0))) == Some(0.0)
  {
    HandicapOfNumber(IntText(0), 0.0);
  }

  lemma FloatZeroReads()
    ensures HandicapValue(Some(Repr(0.0))) == Some(0.0)
  {
    assert Shift(0.0, 1) == 10.0 * Shift(0.0, 0) == 0.0;
    assert ReprPlaces(0.0, 1) == 1;
    ZeroFixedText();
    ZeroTextReads(Repr(0.0));
  }

  lemma ZeroTextReads(t: string)
    requires t == "0.0"
    ensures HandicapValue(Some(t)) == Some(0.0)
  {
    OneDecimalReads('0', '0');
    assert PlainNumber(t);
    HandicapOfNumber(t, 0.0);
  }

  lemma ZeroFixedText()
    ensures FormatFixed(0.0, 1) == "0.0"
  {
    assert Shift(0.0, 1) == 10.0 * Shift(0.0, 0) == 0.0;
    assert ScaledRound(0.0, 1) == 0;
    assert Pow10(1) == 10;
    assert NatText(0) == [DigitChar(0)] == "0";
    assert PaddedDigits(0, 1) == PaddedDigits(0, 0) + [DigitChar(0)] == "0";
    assert FixedDigits(0, 1) == "0" + "." + "0";
  }

  // ---------------------------------------------------------------- handicap filter

  /** A handicap filter: the target bucket text, its value, and whether it selects the
      lines at or beyond the target (|target| >= 2) rather than the one bucket. */
  datatype HandicapFilter = HandicapFilter(bucket: string, target: real, useRange: bool)

  /** _build_handicap_filter_predicate: no filter for an empty or unreadable text.
      Otherwise the bucket text of the line, its value float(bucket), a whole or half
      line, and the range mode from 2 on; the filter selects its own text. */
  function HandicapFilterOf(filter: Option<string>): (r: Option<HandicapFilter>)
    ensures r.Some? <==> Truthy(filter) && HandicapValue(filter).Some?
    ensures r.Some? ==>
              var w := HandicapValue(filter).value;
              r.value.bucket == HalfBucketText(w) && r.value.target == BucketToHalf(w) && IsHalf(r.value.target)
              && PyFloat(r.value.bucket) == Some(r.value.target) && (r.value.useRange <==> Abs(r.value.target) >= 2.0)
    ensures r.Some? ==> HandicapMatches(r.value, Some(JStr(filter.value)))
  {
    if !Truthy(filter) then None
    else match NormalizeHalfBucket(filter)
      case None => None
      case Some(bucket) =>
        var w := HandicapValue(filter).value;
        var target := BucketToHalf(w);
        BucketTextFacts(w);
        var f := HandicapFilter(bucket, target, Abs(target) >= 2.0 && target != 0.0);
        SelfMatch(f, filter.value, w);
        Some(f)
  }

  /** A filter built from a line selects an entry holding the filter's own text. */
  lemma SelfMatch(f: HandicapFilter, t: string, w: real)
    requires t != [] && HandicapValue(Some(t)) == Some(w)
    requires f.bucket == HalfBucketText(w) && f.target == BucketToHalf(w)
    requires f.useRange <==> Abs(f.target) >= 2.0 && f.target != 0.0
    ensures HandicapMatches(f, Some(JStr(t)))
  {
    assert OrEmptyText(Some(JStr(t))) == t;
  }

  /** The predicate over an entry's `handicap` field (`raw or ''`): it only ever
      selects an entry whose field is truthy and reads as a line. */
  predicate HandicapMatches(f: HandicapFilter, raw: Option<Json>)
    ensures HandicapMatches(f, raw) ==> raw.Some? && JTruthy(raw.value) && HandicapValue(FieldText(raw)).Some?
  {
    match HandicapValue(Some(OrEmptyText(raw)))
    case None => false
    case Some(v) =>
      if !f.useRange then HalfBucketText(v) == f.bucket
      else
        var b := BucketToHalf(v);
        if f.target > 0.0 then b > 0.0 && b >= f.target else b < 0.0 && b <= f.target
  }

  lemma BucketTextFacts(w: real)
    ensures IsHalf(BucketToHalf(w)) && PyFloat(HalfBucketText(w)) == Some(BucketToHalf(w))
  {
    HalfBucketTextReads(w);
    PlainNumberFloat(HalfBucketText(w), BucketToHalf(w));
  }

  lemma PlainNumberFloat(t: string, v: real)
    requires PlainNumber(t) && ParseDecimal(t) == Some(v)
    ensures PyFloat(t) == Some(v)
  {
    StripUnchanged(t);
  }

  /** Below 2 in magnitude, an entry matches when its line has the filter's bucket text:
      the same bucket, and the same sign when that bucket is zero. */
  lemma {:induction false} HandicapExactMatch(filter: Option<string>, raw: Option<Json>)
    requires HandicapFilterOf(filter).Some? && !HandicapFilterOf(filter).value.useRange
    ensures var f := HandicapFilterOf(filter).value;
            var w := HandicapValue(filter).value;
            var rv := HandicapValue(Some(OrEmptyText(raw)));
            HandicapMatches(f, raw)
            <==> rv.Some? && BucketToHalf(rv.value) == BucketToHalf(w)
                 && NegativeZero(rv.value) == NegativeZero(w)
  {
    var rv := HandicapValue(Some(OrEmptyText(raw)));
    if rv.Some? {
      HalfBucketTextDistinguishes(rv.value, HandicapValue(filter).value);
    }
  }

  /** From 2 in magnitude on, an entry matches when its bucket is at or beyond the target
      on the target's side. In terms of the entry's own line v: every v at or beyond the
      target matches, and a match is never more than 0.51 short of it. Short lines can
      match: 2.3 and 1.995 both bucket to 2.5 (OvershootExample). */
  lemma {:induction false} HandicapRangeMatch(filter: Option<string>, raw: Option<Json>)
    requires HandicapFilterOf(filter).Some? && HandicapFilterOf(filter).value.useRange
    ensures var f := HandicapFilterOf(filter).value;
            var rv := HandicapValue(Some(OrEmptyText(raw)));
            HandicapMatches(f, raw)
            <==> rv.Some? && (if f.target > 0.0 then BucketToHalf(rv.value) >= f.target
                              else BucketToHalf(rv.value) <= f.target)
    ensures var f := HandicapFilterOf(filter).value;
            var rv := HandicapValue(Some(OrEmptyText(raw)));
            rv.Some? && (if f.target > 0.0 then rv.value >= f.target else rv.value <= f.target)
            ==> HandicapMatches(f, raw)
    ensures var f := HandicapFilterOf(filter).value;
            var rv := HandicapValue(Some(OrEmptyText(raw)));
            HandicapMatches(f, raw)
            ==> rv.Some? && (if f.target > 0.0 then rv.value > f.target - 0.51 else rv.value < f.target + 0.51)
  {
    var rv := HandicapValue(Some(OrEmptyText(raw)));
    if rv.Some? {
      RangeBounds(rv.value, HandicapFilterOf(filter).value.target);
    }
  }

  /** A line at or beyond a half-line target buckets at or beyond it, on either side. */
  lemma RangeBounds(v: real, t: real)
    requires IsHalf(t) && t != 0.0
    ensures t > 0.0 && v >= t ==> BucketToHalf(v) >= t
    ensures t < 0.0 && v <= t ==> BucketToHalf(v) <= t
  {
    if t > 0.0 && v >= t {
      BucketAtLeast(v, t);
    } else if t < 0.0 && v <= t {
      WholeNegated(2.0 * t);
      assert IsHalf(-t) by { assert 2.0 * -t == -(2.0 * t); }
      BucketAtLeast(-v, -t);
      BucketOdd(v);
    }
  }

  /** A positive line at or above a half line t buckets at or above t. */
  lemma {:induction false} BucketAtLeast(v: real, t: real)
    requires IsHalf(t) && t > 0.0 && v >= t
    ensures BucketToHalf(v) >= t
  {
    var n := v.Floor;
    HalfMagnitudeCases(v);
    if t > n as real {
      var k := (2.0 * t).Floor;
      assert k as real == 2.0 * t;
      assert 2 * n < k < 2 * n + 2;
      assert t == n as real + 0.5;
    }
  }

  lemma {:induction false} FilterOfBucketText(o: string, b: real)
    requires PlainNumber(o) && ParseDecimal(o) == Some(b) && IsHalf(b)
    ensures HandicapFilterOf(Some(o)) == Some(HandicapFilter(FormatFixed(b, 1), b, Abs(b) >= 2.0 && b != 0.0))
  {
    HandicapOfNumber(o, b);
    BucketFixesHalves(b);
  }

  /** The predicate on an entry whose truthy field reads as v. */
  lemma {:induction false} MatchesOfValue(f: HandicapFilter, raw: Option<Json>, v: real)
    requires HandicapValue(FieldText(raw)) == Some(v) && JTruthy(raw.value)
    ensures HandicapMatches(f, raw) <==>
              if !f.useRange then HalfBucketText(v) == f.bucket
              else if f.target > 0.0 then BucketToHalf(v) > 0.0 && BucketToHalf(v) >= f.target
              else BucketToHalf(v) < 0.0 && BucketToHalf(v) <= f.target
  {
    assert Some(OrEmptyText(raw)) == FieldText(raw);
  }

  /** Choosing an offered bucket as the filter selects the entry it came from, with two
      exceptions. A bucket "-0.0" gives the filter "0.0" while the entry's own text stays
      "-0.0". A numeric 0 or 0.0 offers "0.0", but the filter sees `0 or ''`, the empty
      text, and never selects it. */
  lemma {:induction false} HandicapOptionSelects(raw: Option<Json>, o: string)
    requires NormalizeHalfBucket(FieldText(raw)) == Some(o)
    ensures HandicapFilterOf(Some(o)).Some?
    ensures HandicapMatches(HandicapFilterOf(Some(o)).value, raw)
            <==> JTruthy(raw.value) && !NegativeZero(HandicapValue(FieldText(raw)).value)
    ensures !JTruthy(raw.value) ==> (raw.value == JInt(0) || raw.value == JFloat(0.0)) && o == "0.0"
  {
    var v := HandicapValue(FieldText(raw)).value;
    var b := BucketToHalf(v);
    var f := HandicapFilter(FormatFixed(b, 1), b, Abs(b) >= 2.0 && b != 0.0);
    OptionFilter(o, v);
    assert HandicapFilterOf(Some(o)).value == f;
    if JTruthy(raw.value) {
      TruthyOptionSelects(raw, v, f);
    } else {
      FalsyReadsZero(raw);
      ZeroBucketText();
    }
  }

  lemma TruthyOptionSelects(raw: Option<Json>, v: real, f: HandicapFilter)
    requires HandicapValue(FieldText(raw)) == Some(v) && JTruthy(raw.value)
    requires f == HandicapFilter(FormatFixed(BucketToHalf(v), 1), BucketToHalf(v),
                                 Abs(BucketToHalf(v)) >= 2.0 && BucketToHalf(v) != 0.0)
    ensures HandicapMatches(f, raw) <==> !NegativeZero(v)
  {
    MatchesOfValue(f, raw, v);
    BucketTextIsFixed(v);
  }

  lemma ZeroBucketText()
    ensures HalfBucketText(0.0) == "0.0"
  {
    assert BucketToHalf(0.0) == 0.0 && !NegativeZero(0.0);
    ZeroFixedText();
  }

  /** The filter built from the bucket text of v. */
  lemma {:induction false} OptionFilter(o: string, v: real)
    requires o == HalfBucketText(v)
    ensures var b := BucketToHalf(v);
            HandicapFilterOf(Some(o)) == Some(HandicapFilter(FormatFixed(b, 1), b, Abs(b) >= 2.0 && b != 0.0))
  {
    HalfBucketTextReads(v);
    FilterOfBucketText(o, BucketToHalf(v));
  }

  /** The bucket text is the plain one-decimal text except for a negative zero. */
  lemma {:induction false} BucketTextIsFixed(v: real)
    ensures HalfBucketText(v) == FormatFixed(BucketToHalf(v), 1) <==> !NegativeZero(v)
  {
    if NegativeZero(v) {
      assert |HalfBucketText(v)| != |FormatFixed(BucketToHalf(v), 1)|;
    }
  }

  // ---------------------------------------------------------------- goal lines

  /** f"{v:.2f}" with trailing zeros, then a trailing point, removed. */
  function GoalLineText(v: real): string {
    var text := FormatFixed(v, 2);
    if '.' in text then StripTrailing(StripTrailing(text, '0'), '.') else text
  }

  /** _normalize_goal_line_option_str: the line read by _parse_handicap_to_float, shown
      with at most two decimals; None when it does not parse. */
  function GoalLineOptionText(value: Option<string>): (r: Option<string>)
    ensures r.None? <==> HandicapValue(value).None?
    ensures r.Some? ==> PlainNumber(r.value) && ParseDecimal(r.value) == Some(Hundredths(HandicapValue(value).value))
  {
    match HandicapValue(value)
    case None => None
    case Some(v) =>
      GoalLineTextParses(v);
      Some(GoalLineText(v))
  }

  lemma {:induction false} StripTrailingUnderPrefix(p: string, x: string, c: char)
    requires StripTrailing(x, c) != []
    ensures StripTrailing(p + x, c) == p + StripTrailing(x, c)
    decreases |x|
  {
    if x[|x| - 1] == c {
      StripTrailingUnderPrefix(p, x[..|x| - 1], c);
      assert (p + x)[..|p + x| - 1] == p + x[..|x| - 1];
    } else {
      assert (p + x)[|p + x| - 1] == x[|x| - 1];
    }
  }

  /** What trimming does to "q.ab": nothing, drop the b, or drop ".ab". */
  function Trimmed(q: string, a: char, b: char): string {
    if b != '0' then q + "." + [a, b] else if a != '0' then q + "." + [a] else q
  }

  lemma {:induction false} TrimmedIsStrip(q: string, a: char, b: char)
    requires q != [] && AllDigits(q) && IsDigit(a) && IsDigit(b)
    ensures StripTrailing(StripTrailing(q + "." + [a, b], '0'), '.') == Trimmed(q, a, b)
  {
    var t := q + "." + [a, b];
    if b != '0' {
      assert StripTrailing(t, '0') == t;
      assert StripTrailing(t, '.') == t;
    } else {
      var t1 := q + "." + [a];
      assert t[..|t| - 1] == t1;
      if a != '0' {
        assert StripTrailing(t1, '0') == t1;
        assert StripTrailing(t1, '.') == t1;
      } else {
        var t0 := q + ".";
        assert t1[..|t1| - 1] == t0 && t0[..|t0| - 1] == q;
        assert StripTrailing(t0, '0') == t0;
        assert StripTrailing(q, '.') == q;
      }
    }
  }

  lemma {:induction false} PointValue(q: string, r: string)
    requires q != [] && AllDigits(q) && r != [] && AllDigits(r)
    ensures UnsignedDecimal(q + "." + r)
            == Some(DigitsValue(q) as real + Unshift(DigitsValue(r) as real, |r|))
  {
    PointBreaksDigits(q, r);
    DigitsExclude(q, '.');
    DigitsExclude(r, '.');
    SplitPair(q, '.', r);
  }

  lemma UnshiftTimesTen(x: real)
    ensures Unshift(10.0 * x, 2) == Unshift(x, 1)
  {
    assert Unshift(10.0 * x, 2) == Unshift(10.0 * x, 1) / 10.0 == (10.0 * x / 10.0) / 10.0;
  }

  lemma {:induction false} DropOneZero(q: string, a: char)
    requires q != [] && AllDigits(q) && IsDigit(a)
    ensures UnsignedDecimal(q + "." + [a]) == UnsignedDecimal(q + "." + [a, '0'])
  {
    PointValue(q, [a]);
    PointValue(q, [a, '0']);
    assert [a, '0'][..1] == [a] && [a][..0] == [];
    var x := DigitValue(a) as real;
    assert DigitsValue([a]) as real == x;
    assert DigitsValue([a, '0']) as real == 10.0 * x;
    UnshiftTimesTen(x);
    assert Unshift(DigitsValue([a, '0']) as real, 2) == Unshift(DigitsValue([a]) as real, 1);
  }

  lemma {:induction false} DropTwoZeros(q: string)
    requires q != [] && AllDigits(q)
    ensures UnsignedDecimal(q) == UnsignedDecimal(q + "." + ['0', '0'])
  {
    PointValue(q, ['0', '0']);
    assert ['0', '0'][..1] == ['0'] && ['0'][..0] == [];
    assert Unshift(0.0, 2) == 0.0;
  }

  lemma {:induction false} TrimmedValue(q: string, a: char, b: char)
    requires q != [] && AllDigits(q) && IsDigit(a) && IsDigit(b)
    ensures UnsignedDecimal(Trimmed(q, a, b)) == UnsignedDecimal(q + "." + [a, b])
  {
    if b == '0' {
      if a != '0' {
        DropOneZero(q, a);
      } else {
        DropTwoZeros(q);
      }
    }
  }

  lemma {:induction false} TrimmedShape(q: string, a: char, b: char)
    requires q != [] && AllDigits(q) && IsDigit(a) && IsDigit(b)
    ensures var u := Trimmed(q, a, b);
            u != [] && u[0] == q[0] && IsDigit(u[|u| - 1]) && NumericChars(u)
  {
  }

  lemma {:induction false} FixedTwoParts(n: nat)
    ensures FixedDigits(n, 2) == NatText(n / 100) + "." + [DigitChar(n % 100 / 10), DigitChar(n % 10)]
  {
    var m := n % 100;
    LowDigits(n);
    assert Pow10(2) == 100;
    assert PaddedDigits(m / 10, 1) == PaddedDigits(0, 0) + [DigitChar(m / 10)];
    assert PaddedDigits(m, 2) == PaddedDigits(m / 10, 1) + [DigitChar(n % 10)];
  }

  /** The two low digits of n, as the padded rendering takes them apart. */
  lemma LowDigits(n: nat)
    ensures n % 100 / 10 < 10 && n % 100 / 10 / 10 == 0 && n % 100 / 10 % 10 == n % 100 / 10
    ensures n % 100 % 10 == n % 10
  {
    var q, m := n / 100, n % 100;
    var a, b := m / 10, m % 10;
    assert n == 10 * (10 * q + a) + b;
  }

  /** Trimming a signed "q.ab" gives a number text of the same value. */
  lemma {:induction false} TrimSigned(q: string, a: char, b: char, neg: bool, x: real)
    requires q != [] && AllDigits(q) && IsDigit(a) && IsDigit(b)
    requires UnsignedDecimal(q + "." + [a, b]) == Some(x)
    ensures var d := q + "." + [a, b];
            var g := StripTrailing(StripTrailing(if neg then "-" + d else d, '0'), '.');
            PlainNumber(g) && ParseDecimal(g) == Some(if neg then -x else x)
  {
    var d := q + "." + [a, b];
    var u := Trimmed(q, a, b);
    TrimmedIsStrip(q, a, b);
    TrimmedValue(q, a, b);
    TrimmedShape(q, a, b);
    SignedParse(u, x);
    if neg {
      var d1 := StripTrailing(d, '0');
      assert d1 != [];
      StripTrailingUnderPrefix("-", d, '0');
      StripTrailingUnderPrefix("-", d1, '.');
      NumericConcat("-", u);
    }
  }

  /** The value f"{v:.2f}" shows: v rounded half-to-even to hundredths. */
  function Hundredths(v: real): real {
    var x := ScaledRound(v, 2) as real / Pow10(2) as real;
    if v < 0.0 then -x else x
  }

  /** Every option text is a number text showing v to two decimals. */
  lemma {:induction false} GoalLineTextParses(v: real)
    ensures PlainNumber(GoalLineText(v)) && ParseDecimal(GoalLineText(v)) == Some(Hundredths(v))
  {
    var n := ScaledRound(v, 2);
    var q, a, b := NatText(n / 100), DigitChar(n % 100 / 10), DigitChar(n % 10);
    var d := q + "." + [a, b];
    FixedTwoParts(n);
    FixedDigitsParse(n, 2);
    var x := n as real / Pow10(2) as real;
    var text := FormatFixed(v, 2);
    assert text == if v < 0.0 then "-" + d else d;
    assert text[|text| - 3] == '.';
    assert GoalLineText(v) == StripTrailing(StripTrailing(text, '0'), '.');
    assert Hundredths(v) == if v < 0.0 then -x else x;
    TrimSigned(q, a, b, v < 0.0, x);
  }

  /** A line with at most two decimals reads back from its option text. */
  lemma {:induction false} GoalLineTextReads(v: real)
    requires IsDecimalWith(v, 2)
    ensures PlainNumber(GoalLineText(v)) && ParseDecimal(GoalLineText(v)) == Some(v)
  {
    GoalLineTextParses(v);
    ScaledRoundExact(v, 2);
  }

  /** Reading an option text again gives the same text. */
  lemma {:induction false} GoalLineOptionAgain(v: real)
    requires IsDecimalWith(v, 2)
    ensures GoalLineOptionText(Some(GoalLineText(v))) == Some(GoalLineText(v))
  {
    GoalLineTextReads(v);
    HandicapOfNumber(GoalLineText(v), v);
  }

  // ---------------------------------------------------------------- goal-line filter

  /** A goal-line filter: the target line and whether it selects every line at or above
      it (targets from 4 on) rather than the one line. */
  datatype GoalFilter = GoalFilter(target: real, useRange: bool)

  /** _build_goal_line_filter_predicate: no filter for an empty or unreadable text.
      Otherwise the line itself, in range mode from 4 on; the filter selects its own
      text. */
  function GoalFilterOf(filter: Option<string>): (r: Option<GoalFilter>)
    ensures r.Some? <==> Truthy(filter) && HandicapValue(filter).Some?
    ensures r.Some? ==> r.value.target == HandicapValue(filter).value && (r.value.useRange <==> r.value.target >= 4.0)
    ensures r.Some? ==> GoalMatches(r.value, Some(JStr(filter.value)))
  {
    if !Truthy(filter) then None
    else match HandicapValue(filter)
      case None => None
      case Some(t) =>
        assert OrEmptyText(Some(JStr(filter.value))) == filter.value;
        Some(GoalFilter(t, t >= 4.0))
  }

  /** The predicate over an entry's `goal_line` field (`raw or ''`): it only ever
      selects an entry whose field is truthy and reads as a line. */
  predicate GoalMatches(f: GoalFilter, raw: Option<Json>)
    ensures GoalMatches(f, raw) ==> raw.Some? && JTruthy(raw.value) && HandicapValue(FieldText(raw)).Some?
  {
    match HandicapValue(Some(OrEmptyText(raw)))
    case None => false
    case Some(c) => if !f.useRange then Abs(c - f.target) < 0.000001 else c >= f.target
  }

  lemma {:induction false} QuartersClose(c: real, t: real)
    requires IsQuarter(c) && IsQuarter(t)
    ensures Abs(c - t) < 0.000001 <==> c == t
  {
    var i, k := (4.0 * c).Floor, (4.0 * t).Floor;
    assert 4.0 * c - 4.0 * t == (i - k) as real;
    if Abs(c - t) < 0.000001 {
      assert -1 < i - k < 1;
    }
  }

  /** On quarter lines the 1e-6 tolerance is plain equality. */
  lemma {:induction false} GoalExactOnQuarters(f: GoalFilter, raw: Option<Json>)
    requires !f.useRange && IsQuarter(f.target)
    requires HandicapValue(Some(OrEmptyText(raw))).Some? && IsQuarter(HandicapValue(Some(OrEmptyText(raw))).value)
    ensures GoalMatches(f, raw) <==> HandicapValue(Some(OrEmptyText(raw))).value == f.target
  {
    QuartersClose(HandicapValue(Some(OrEmptyText(raw))).value, f.target);
  }

  /** A goal-line option selects the entries it came from when they carry it in
      `goal_line` itself and that field is truthy; a numeric 0 or 0.0 (offered only when
      the other two fields are falsy too) reads as `''` in the filter and is never
      selected. Lines offered from the other two fields are not matched either. */
  lemma {:induction false} GoalOptionSelects(raw: Option<Json>, o: string)
    requires GoalLineOptionText(FieldText(raw)) == Some(o) && IsDecimalWith(HandicapValue(FieldText(raw)).value, 2)
    ensures GoalFilterOf(Some(o)).Some?
    ensures GoalMatches(GoalFilterOf(Some(o)).value, raw) <==> JTruthy(raw.value)
    ensures !JTruthy(raw.value) ==> raw.value == JInt(0) || raw.value == JFloat(0.0)
  {
    var v := HandicapValue(FieldText(raw)).value;
    GoalOptionFilter(v);
    if JTruthy(raw.value) {
      assert Some(OrEmptyText(raw)) == FieldText(raw);
    } else {
      FalsyReadsZero(raw);
    }
  }

  /** The filter chosen from the option text of v targets v itself. */
  lemma GoalOptionFilter(v: real)
    requires IsDecimalWith(v, 2)
    ensures GoalFilterOf(Some(GoalLineText(v))) == Some(GoalFilter(v, v >= 4.0))
  {
    GoalLineTextReads(v);
    HandicapOfNumber(GoalLineText(v), v);
  }

  // ---------------------------------------------------------------- stored entries

  /** A stored match entry: the fields the core reads, None when missing. */
  datatype Entry = Entry(
    id: Option<string>,
    handicap: Option<Json>,
    goalLine: Option<Json>,
    goalLineAlt: Option<Json>,
    goalLineDecimal: Option<Json>,
    time: Option<string>,
    timeObj: Option<string>)

  /** A list element: an entry, or anything that is not a dict (skipped). */
  datatype Item = Dict(entry: Entry) | NotDict

  /** The handicap option an entry offers. */
  function HandicapOption(e: Entry): Option<string> {
    NormalizeHalfBucket(FieldText(e.handicap))
  }

  /** The goal-line option an entry offers: goal_line, else goal_line_alt, else
      goal_line_decimal. */
  function GoalLineOption(e: Entry): Option<string> {
    GoalLineOptionText(FieldText(JOr(JOr(e.goalLine, e.goalLineAlt), e.goalLineDecimal)))
  }

  /** The options the entries among `items` offer. */
  function ItemValues(items: seq<Item>, option: Entry -> Option<string>): set<string> {
    if items == [] then {}
    else
      var last := items[|items| - 1];
      ItemValues(items[..|items| - 1], option)
      + (if last.Dict? && option(last.entry).Some? then {option(last.entry).value} else {})
  }

  /** The options of every list (`dataset or []`). */
  function ListValues(lists: seq<Option<seq<Item>>>, option: Entry -> Option<string>): set<string> {
    if lists == [] then {}
    else
      var last := lists[|lists| - 1];
      ListValues(lists[..|lists| - 1], option) + (if last.Some? then ItemValues(last.value, option) else {})
  }

  /** Entry j of list i exists and offers o. */
  predicate Offers(lists: seq<Option<seq<Item>>>, i: int, j: int, option: Entry -> Option<string>, o: string) {
    0 <= i < |lists| && lists[i].Some? && 0 <= j < |lists[i].value|
    && lists[i].value[j].Dict? && option(lists[i].value[j].entry) == Some(o)
  }

  lemma {:induction false} ItemValuesMembers(items: seq<Item>, option: Entry -> Option<string>, o: string)
    ensures o in ItemValues(items, option)
            <==> exists j :: 0 <= j < |items| && items[j].Dict? && option(items[j].entry) == Some(o)
  {
    if items != [] {
      var init := items[..|items| - 1];
      ItemValuesMembers(init, option, o);
      if exists j :: 0 <= j < |items| && items[j].Dict? && option(items[j].entry) == Some(o) {
        var j :| 0 <= j < |items| && items[j].Dict? && option(items[j].entry) == Some(o);
        if j < |init| {
          assert init[j] == items[j];
        }
      }
      if exists j :: 0 <= j < |init| && init[j].Dict? && option(init[j].entry) == Some(o) {
        var j :| 0 <= j < |init| && init[j].Dict? && option(init[j].entry) == Some(o);
        assert items[j] == init[j];
      }
    }
  }

  /** An option is listed exactly when some entry of some list offers it. */
  lemma {:induction false} ListValuesMembers(lists: seq<Option<seq<Item>>>, option: Entry -> Option<string>, o: string)
    ensures o in ListValues(lists, option) <==> exists i, j :: Offers(lists, i, j, option, o)
  {
    if lists != [] {
      var init := lists[..|lists| - 1];
      var k := |lists| - 1;
      ListValuesMembers(init, option, o);
      if lists[k].Some? {
        ItemValuesMembers(lists[k].value, option, o);
      }
      if exists i, j :: Offers(lists, i, j, option, o) {
        var i, j :| Offers(lists, i, j, option, o);
        if i < k {
          assert Offers(init, i, j, option, o);
        } else {
          assert lists[k].value[j].Dict? && option(lists[k].value[j].entry) == Some(o);
        }
      }
      if exists i, j :: Offers(init, i, j, option, o) {
        var i, j :| Offers(init, i, j, option, o);
        assert Offers(lists, i, j, option, o);
      }
      if lists[k].Some? && o in ItemValues(lists[k].value, option) {
        var j :| 0 <= j < |lists[k].value| && lists[k].value[j].Dict? && option(lists[k].value[j].entry) == Some(o);
        assert Offers(lists, k, j, option, o);
      }
    }
  }

  /** The set-building loops of _build_handicap_options_from_lists and
      _build_goal_line_options_from_lists. */
  method CollectOptions(lists: seq<Option<seq<Item>>>, option: Entry -> Option<string>) returns (values: set<string>)
    ensures values == ListValues(lists, option)
  {
    values := {};
    for i := 0 to |lists|
      invariant values == ListValues(lists[..i], option)
    {
      var dataset := if lists[i].Some? then lists[i].value else [];
      for j := 0 to |dataset|
        invariant values == ListValues(lists[..i], option) + ItemValues(dataset[..j], option)
      {
        assert dataset[..j + 1][..j] == dataset[..j];
        match dataset[j]
        case NotDict =>
        case Dict(e) =>
          var normalized := option(e);
          if normalized.Some? {
            values := values + {normalized.value};
          }
      }
      assert dataset[..|dataset|] == dataset;
      assert lists[..i + 1][..i] == lists[..i];
    }
    assert lists[..|lists|] == lists;
  }

  /** The set in some iteration order: each element once. */
  method SetToSeq(values: set<string>) returns (s: seq<string>)
    ensures |s| == |values| && forall x :: x in s <==> x in values
  {
    s := [];
    var rest := values;
    while rest != {}
      invariant rest <= values && |s| + |rest| == |values|
      invariant forall x :: x in s <==> x in values && x !in rest
      decreases |rest|
    {
      var x :| x in rest;
      s := s + [x];
      rest := rest - {x};
    }
  }

  /** The sort key of the option list: float() of the option text. */
  function FloatKey(x: string): Key {
    Key(if PyFloat(x).Some? then PyFloat(x).value else 0.0, "")
  }

  /** The text itself, for the fallback sorted(values). */
  function TextKey(x: string): Key {
    Key(0.0, x)
  }

  /** sorted(values, key=float), or sorted(values) when some value is not a number. */
  method SortOptions(values: set<string>) returns (options: seq<string>)
    ensures |options| == |values| && forall x :: x in options <==> x in values
    ensures (forall x :: x in values ==> PyFloat(x).Some?) ==> Sorted(options, FloatKey, false)
    ensures !(forall x :: x in values ==> PyFloat(x).Some?) ==> Sorted(options, TextKey, false)
  {
    var s := SetToSeq(values);
    if forall x :: x in values ==> PyFloat(x).Some? {
      options := SortBy(s, FloatKey, false);
      SortBySorted(s, FloatKey, false);
      SortByPermutes(s, FloatKey, false);
    } else {
      options := SortBy(s, TextKey, false);
      SortBySorted(s, TextKey, false);
      SortByPermutes(s, TextKey, false);
    }
    forall x ensures x in options <==> x in s {
      assert x in options <==> x in multiset(options);
    }
  }

  lemma {:induction false} FloatKeyOrder(options: seq<string>)
    requires Sorted(options, FloatKey, false) && forall x :: x in options ==> PyFloat(x).Some?
    ensures forall i, j :: 0 <= i < j < |options| ==> PyFloat(options[i]).value <= PyFloat(options[j]).value
  {
    forall i, j | 0 <= i < j < |options|
      ensures PyFloat(options[i]).value <= PyFloat(options[j]).value
    {
      assert InOrder(FloatKey(options[i]), FloatKey(options[j]), false);
    }
  }

  lemma {:induction false} HandicapOptionReads(e: Entry)
    requires HandicapOption(e).Some?
    ensures PyFloat(HandicapOption(e).value).Some? && IsHalf(PyFloat(HandicapOption(e).value).value)
  {
    var v := HandicapValue(FieldText(e.handicap)).value;
    assert HandicapOption(e).value == HalfBucketText(v);
    BucketTextFacts(v);
  }

  lemma {:induction false} GoalLineOptionReads(e: Entry)
    requires GoalLineOption(e).Some?
    ensures PyFloat(GoalLineOption(e).value).Some?
  {
    var v := HandicapValue(FieldText(JOr(JOr(e.goalLine, e.goalLineAlt), e.goalLineDecimal))).value;
    assert GoalLineOption(e).value == GoalLineText(v);
    GoalLineTextParses(v);
    PlainNumberFloat(GoalLineText(v), Hundredths(v));
  }

  /** _build_handicap_options_from_lists: every bucket some entry offers, each once,
      in increasing order of value; each is a whole or half line. */
  method BuildHandicapOptions(lists: seq<Option<seq<Item>>>) returns (options: seq<string>)
    ensures forall o :: o in options <==> exists i, j :: Offers(lists, i, j, HandicapOption, o)
    ensures |options| == |ListValues(lists, HandicapOption)|
    ensures forall o :: o in options ==> PyFloat(o).Some? && IsHalf(PyFloat(o).value)
    ensures forall i, j :: 0 <= i < j < |options| ==> PyFloat(options[i]).value <= PyFloat(options[j]).value
  {
    var values := CollectOptions(lists, HandicapOption);
    forall o | o in values
      ensures PyFloat(o).Some? && IsHalf(PyFloat(o).value)
    {
      ListValuesMembers(lists, HandicapOption, o);
      var i, j :| Offers(lists, i, j, HandicapOption, o);
      HandicapOptionReads(lists[i].value[j].entry);
    }
    options := SortOptions(values);
    FloatKeyOrder(options);
    forall o ensures o in options <==> exists i, j :: Offers(lists, i, j, HandicapOption, o) {
      ListValuesMembers(lists, HandicapOption, o);
    }
  }

  /** _build_goal_line_options_from_lists: every goal-line text some entry offers, each
      once, in increasing order of value. */
  method BuildGoalLineOptions(lists: seq<Option<seq<Item>>>) returns (options: seq<string>)
    ensures forall o :: o in options <==> exists i, j :: Offers(lists, i, j, GoalLineOption, o)
    ensures |options| == |ListValues(lists, GoalLineOption)|
    ensures forall o :: o in options ==> PyFloat(o).Some?
    ensures forall i, j :: 0 <= i < j < |options| ==> PyFloat(options[i]).value <= PyFloat(options[j]).value
  {
    var values := CollectOptions(lists, GoalLineOption);
    forall o | o in values
      ensures PyFloat(o).Some?
    {
      ListValuesMembers(lists, GoalLineOption, o);
      var i, j :| Offers(lists, i, j, GoalLineOption, o);
      GoalLineOptionReads(lists[i].value[j].entry);
    }
    options := SortOptions(values);
    FloatKeyOrder(options);
    forall o ensures o in options <==> exists i, j :: Offers(lists, i, j, GoalLineOption, o) {
      ListValuesMembers(lists, GoalLineOption, o);
    }
  }

  // ---------------------------------------------------------------- filter, sort, page

  /** A parsed time_obj: its place on the time line, where datetime.min is 0, and its
      strftime('%d/%m %H:%M') text. */
  datatype Moment = Moment(instant: nat, shown: string)

  /** An entry copy being processed, with its `_sort_time`. */
  datatype Prepared = Prepared(entry: Entry, sortTime: nat)

  /** _parse_time_obj on the entry's time_obj; the date parser is the `clock` parameter. */
  function ParseTimeObj(e: Entry, clock: string -> Option<Moment>): Option<Moment> {
    if e.timeObj.Some? then clock(e.timeObj.value) else None
  }

  /** _ensure_time_string: an empty or missing time is filled from the parsed time_obj. */
  function EnsureTime(e: Entry, parsed: Option<Moment>): Entry {
    if Truthy(e.time) || parsed.None? then e else e.(time := Some(parsed.value.shown))
  }

  /** The copy with `_sort_time` (datetime.min when time_obj does not parse). */
  function Prepare(e: Entry, clock: string -> Option<Moment>): Prepared {
    var parsed := ParseTimeObj(e, clock);
    Prepared(EnsureTime(e, parsed), if parsed.Some? then parsed.value.instant else 0)
  }

  /** The elements of s that `keep` accepts, in order. */
  function Keep(s: seq<Prepared>, keep: Prepared -> bool): (r: seq<Prepared>)
    ensures |r| <= |s|
  {
    if s == [] then []
    else Keep(s[..|s| - 1], keep) + (if keep(s[|s| - 1]) then [s[|s| - 1]] else [])
  }

  lemma {:induction false} KeepMembers(s: seq<Prepared>, keep: Prepared -> bool)
    ensures forall p :: p in Keep(s, keep) <==> p in s && keep(p)
  {
    if s != [] {
      KeepMembers(s[..|s| - 1], keep);
      assert s == s[..|s| - 1] + [s[|s| - 1]];
    }
  }

  function HandicapKeep(f: HandicapFilter): Prepared -> bool {
    (p: Prepared) => HandicapMatches(f, p.entry.handicap)
  }

  function GoalKeep(g: GoalFilter): Prepared -> bool {
    (p: Prepared) => GoalMatches(g, p.entry.goalLine)
  }

  /** The prepared entries that pass both filters, in their stored order. */
  function Selected(prepared: seq<Prepared>, handicapFilter: Option<string>, goalLineFilter: Option<string>): seq<Prepared> {
    var h := HandicapFilterOf(handicapFilter);
    var g := GoalFilterOf(goalLineFilter);
    var byHandicap := if h.Some? then Keep(prepared, HandicapKeep(h.value)) else prepared;
    if g.Some? then Keep(byHandicap, GoalKeep(g.value)) else byHandicap
  }

  /** The sort key of a prepared entry: its sort time, then its id ('' when missing). */
  function SortKey(p: Prepared): Key {
    Key(p.sortTime as real, if p.entry.id.Some? then p.entry.id.value else "")
  }

  function Min(a: int, b: int): int {
    if a <= b then a else b
  }

  /** The offset (max(offset or 0, 0)) and limit (when given and not negative) applied
      to s. */
  function Window<T>(s: seq<T>, offset: Option<int>, limit: Option<int>): seq<T> {
    var o := if offset.Some? && offset.value > 0 then offset.value else 0;
    var t := if o == 0 then s else if o >= |s| then [] else s[o..];
    if limit.Some? && limit.value >= 0 then t[..Min(limit.value, |t|)] else t
  }

  /** The window is the run of s that starts at the offset (clamped to |s|) and is at
      most `limit` long. */
  lemma {:induction false} WindowSlice<T>(s: seq<T>, offset: Option<int>, limit: Option<int>)
    ensures var lo := Min(if offset.Some? && offset.value > 0 then offset.value else 0, |s|);
            var hi := if limit.Some? && limit.value >= 0 then Min(lo + limit.value, |s|) else |s|;
            lo <= hi && Window(s, offset, limit) == s[lo..hi]
  {
    var o := if offset.Some? && offset.value > 0 then offset.value else 0;
    if o == 0 {
      assert s[0..] == s;
    }
  }

  function Entries(ps: seq<Prepared>): (r: seq<Entry>)
    ensures |r| == |ps| && forall i :: 0 <= i < |ps| ==> r[i] == ps[i].entry
  {
    seq(|ps|, i requires 0 <= i < |ps| => ps[i].entry)
  }

  /** Every stored entry prepared, in order. */
  function PrepareAll(matches: seq<Entry>, clock: string -> Option<Moment>): (r: seq<Prepared>)
    ensures |r| == |matches| && forall i :: 0 <= i < |matches| ==> r[i] == Prepare(matches[i], clock)
  {
    seq(|matches|, i requires 0 <= i < |matches| => Prepare(matches[i], clock))
  }

  /** What _filter_and_slice_matches returns for the stored list `matches`, before
      `_sort_time` is dropped. */
  function Page(matches: seq<Entry>, clock: string -> Option<Moment>, limit: Option<int>, offset: Option<int>,
                handicapFilter: Option<string>, goalLineFilter: Option<string>, sortDesc: bool): seq<Prepared>
  {
    Window(SortBy(Selected(PrepareAll(matches, clock), handicapFilter, goalLineFilter), SortKey, sortDesc), offset, limit)
  }

  /** The preparing loop: a copy of each entry with its sort time and display time. */
  method PrepareEntries(matches: seq<Entry>, clock: string -> Option<Moment>) returns (prepared: seq<Prepared>)
    ensures prepared == PrepareAll(matches, clock)
  {
    prepared := [];
    for i := 0 to |matches|
      invariant |prepared| == i && forall k :: 0 <= k < i ==> prepared[k] == Prepare(matches[k], clock)
    {
      var parsed := ParseTimeObj(matches[i], clock);
      var entry := EnsureTime(matches[i], parsed);
      prepared := prepared + [Prepared(entry, if parsed.Some? then parsed.value.instant else 0)];
    }
  }

  /** One filtering loop: the entries the predicate accepts, in order. */
  method KeepEntries(s: seq<Prepared>, keep: Prepared -> bool) returns (filtered: seq<Prepared>)
    ensures filtered == Keep(s, keep)
  {
    filtered := [];
    for i := 0 to |s|
      invariant filtered == Keep(s[..i], keep)
    {
      assert s[..i + 1][..i] == s[..i];
      if keep(s[i]) {
        filtered := filtered + [s[i]];
      }
    }
    assert s[..|s|] == s;
  }

  /** The two optional filters, handicap first. */
  method FilterEntries(prepared: seq<Prepared>, handicapFilter: Option<string>, goalLineFilter: Option<string>)
    returns (selected: seq<Prepared>)
    ensures selected == Selected(prepared, handicapFilter, goalLineFilter)
  {
    selected := prepared;
    var h := HandicapFilterOf(handicapFilter);
    if h.Some? {
      selected := KeepEntries(selected, HandicapKeep(h.value));
    }
    var g := GoalFilterOf(goalLineFilter);
    if g.Some? {
      selected := KeepEntries(selected, GoalKeep(g.value));
    }
  }

  /** The loop that pops `_sort_time`. */
  method DropSortTimes(ps: seq<Prepared>) returns (page: seq<Entry>)
    ensures page == Entries(ps)
  {
    page := [];
    for i := 0 to |ps|
      invariant |page| == i && forall k :: 0 <= k < i ==> page[k] == ps[k].entry
    {
      page := page + [ps[i].entry];
    }
  }

  /** _filter_and_slice_matches over the stored list of the section: prepare each entry,
      filter, sort by (time, id), skip `offset`, keep `limit`, drop `_sort_time`. */
  method FilterAndSliceMatches(matches: seq<Entry>, clock: string -> Option<Moment>, limit: Option<int>,
                               offset: Option<int>, handicapFilter: Option<string>,
                               goalLineFilter: Option<string>, sortDesc: bool)
    returns (page: seq<Entry>)
    ensures page == Entries(Page(matches, clock, limit, offset, handicapFilter, goalLineFilter, sortDesc))
  {
    var prepared := PrepareEntries(matches, clock);
    prepared := FilterEntries(prepared, handicapFilter, goalLineFilter);
    prepared := SortBy(prepared, SortKey, sortDesc);
    prepared := Window(prepared, offset, limit);
    page := DropSortTimes(prepared);
  }

  /** Preparing changes only the display time, which is filled exactly when it was empty
      and the time_obj parses; entries without a parsable time_obj sort first. */
  lemma PrepareChangesOnlyTime(e: Entry, clock: string -> Option<Moment>)
    ensures Prepare(e, clock).entry.(time := e.time) == e
    ensures Truthy(e.time) ==> Prepare(e, clock).entry == e
    ensures !Truthy(e.time) && e.timeObj.Some? && clock(e.timeObj.value).Some? ==>
              Prepare(e, clock).entry.time == Some(clock(e.timeObj.value).value.shown)
    ensures (e.timeObj.None? || clock(e.timeObj.value).None?) ==>
              Prepare(e, clock) == Prepared(e, 0)
  {
  }

  /** An entry passes the present filters. */
  predicate Passes(p: Prepared, handicapFilter: Option<string>, goalLineFilter: Option<string>) {
    (HandicapFilterOf(handicapFilter).Some? ==> HandicapMatches(HandicapFilterOf(handicapFilter).value, p.entry.handicap))
    && (GoalFilterOf(goalLineFilter).Some? ==> GoalMatches(GoalFilterOf(goalLineFilter).value, p.entry.goalLine))
  }

  /** The filters keep exactly the entries that pass them. */
  lemma SelectedMembers(prepared: seq<Prepared>, handicapFilter: Option<string>, goalLineFilter: Option<string>)
    ensures forall p :: p in Selected(prepared, handicapFilter, goalLineFilter) <==>
                        p in prepared && Passes(p, handicapFilter, goalLineFilter)
  {
    var h := HandicapFilterOf(handicapFilter);
    var g := GoalFilterOf(goalLineFilter);
    var first := if h.Some? then Some(HandicapKeep(h.value)) else None;
    var second := if g.Some? then Some(GoalKeep(g.value)) else None;
    KeepTwice(prepared, first, second);
    var once := if first.Some? then Keep(prepared, first.value) else prepared;
    assert Selected(prepared, handicapFilter, goalLineFilter)
           == if second.Some? then Keep(once, second.value) else once;
    forall p ensures Passes(p, handicapFilter, goalLineFilter)
                     <==> (first.Some? ==> first.value(p)) && (second.Some? ==> second.value(p))
    {
      assert h.Some? ==> first.value(p) == HandicapMatches(h.value, p.entry.handicap);
      assert g.Some? ==> second.value(p) == GoalMatches(g.value, p.entry.goalLine);
    }
  }

  /** Two optional filters in a row keep the entries that pass both. */
  lemma KeepTwice(s: seq<Prepared>, first: Option<Prepared -> bool>, second: Option<Prepared -> bool>)
    ensures var once := if first.Some? then Keep(s, first.value) else s;
            forall p :: p in (if second.Some? then Keep(once, second.value) else once)
                        <==> p in s && (first.Some? ==> first.value(p)) && (second.Some? ==> second.value(p))
  {
    var once := if first.Some? then Keep(s, first.value) else s;
    if first.Some? {
      KeepMembers(s, first.value);
    }
    if second.Some? {
      KeepMembers(once, second.value);
    }
  }

  /** Every entry of the page is a stored entry, prepared, that passes the filters; without
      an offset or a limit every such entry is on the page. */
  lemma {:induction false} PageMembers(matches: seq<Entry>, clock: string -> Option<Moment>, limit: Option<int>,
                                       offset: Option<int>, handicapFilter: Option<string>,
                                       goalLineFilter: Option<string>, sortDesc: bool)
    ensures forall p :: p in Page(matches, clock, limit, offset, handicapFilter, goalLineFilter, sortDesc) ==>
                        p in PrepareAll(matches, clock) && Passes(p, handicapFilter, goalLineFilter)
    ensures offset.None? && limit.None? ==>
              forall p :: p in PrepareAll(matches, clock) && Passes(p, handicapFilter, goalLineFilter) ==>
                          p in Page(matches, clock, limit, offset, handicapFilter, goalLineFilter, sortDesc)
  {
    var all := PrepareAll(matches, clock);
    var selected := Selected(all, handicapFilter, goalLineFilter);
    var sorted := SortBy(selected, SortKey, sortDesc);
    SelectedMembers(all, handicapFilter, goalLineFilter);
    SortByPermutes(selected, SortKey, sortDesc);
    WindowSlice(sorted, offset, limit);
    forall p | p in Page(matches, clock, limit, offset, handicapFilter, goalLineFilter, sortDesc)
      ensures p in selected
    {
      assert p in sorted;
      assert p in multiset(sorted);
    }
    if offset.None? && limit.None? {
      forall p | p in all && Passes(p, handicapFilter, goalLineFilter)
        ensures p in sorted
      {
        assert p in multiset(selected);
      }
    }
  }

  /** The page is in (time, id) order, descending when asked. */
  lemma {:induction false} PageSorted(matches: seq<Entry>, clock: string -> Option<Moment>, limit: Option<int>,
                                      offset: Option<int>, handicapFilter: Option<string>,
                                      goalLineFilter: Option<string>, sortDesc: bool)
    ensures Sorted(Page(matches, clock, limit, offset, handicapFilter, goalLineFilter, sortDesc), SortKey, sortDesc)
  {
    var sorted := SortBy(Selected(PrepareAll(matches, clock), handicapFilter, goalLineFilter), SortKey, sortDesc);
    SortBySorted(Selected(PrepareAll(matches, clock), handicapFilter, goalLineFilter), SortKey, sortDesc);
    WindowSlice(sorted, offset, limit);
  }

  /** The page holds what is left after skipping `offset` of the selected entries, cut to
      `limit` when one is given and not negative. */
  lemma PageLength(matches: seq<Entry>, clock: string -> Option<Moment>, limit: Option<int>,
                   offset: Option<int>, handicapFilter: Option<string>,
                   goalLineFilter: Option<string>, sortDesc: bool)
    ensures var n := |Selected(PrepareAll(matches, clock), handicapFilter, goalLineFilter)|;
            var rest := if offset.Some? && offset.value > 0 then (if offset.value >= n then 0 else n - offset.value) else n;
            |Page(matches, clock, limit, offset, handicapFilter, goalLineFilter, sortDesc)|
              == if limit.Some? && limit.value >= 0 then Min(limit.value, rest) else rest
  {
    var sorted := SortBy(Selected(PrepareAll(matches, clock), handicapFilter, goalLineFilter), SortKey, sortDesc);
    WindowSlice(sorted, offset, limit);
  }

  /** _select_default_match_id: the id of the first upcoming entry, else of the first
      finished one; that is, of the first entry of the two lists together, and None
      when both are empty. */
  function SelectDefaultMatchId(upcoming: seq<Entry>, finished: seq<Entry>): (r: Option<string>)
    ensures upcoming + finished != [] ==> r == (upcoming + finished)[0].id
    ensures upcoming + finished == [] ==> r.None?
  {
    if upcoming != [] then upcoming[0].id
    else if finished != [] then finished[0].id
    else None
  }
}
