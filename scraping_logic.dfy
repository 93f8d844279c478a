/** The feed-row classifier of scripts/scraping_logic.py: _process_match_data splits the
    positional rows of the live-score feed into finished and upcoming matches and orders
    both lists; _sanitize_js_content assembles the `A[n]=[...]` items into one JSON text
    and rewrites it so that every empty slot holds `null`. */
module ScrapingLogic {
  import opened Builtins
  import opened Sorting
  import EstudioScraper

  // ---------------------------------------------------------------- feed rows

  /** `state == -1`: true for the number -1 only (True and False are 1 and 0). */
  predicate IsMinusOne(j: Json) {
    j == JInt(-1) || j == JFloat(-1.0)
  }

  /** `state < 8` for a state that can be compared with a number; a text, list or object
      raises TypeError instead, and the row is skipped. */
  predicate BelowEight(j: Json) {
    match j
    case JBool(b) => true
    case JInt(i) => i < 8
    case JFloat(x) => x < 8.0
    case _ => false
  }

  datatype Status = Finished | Upcoming | Skipped

  /** Where a row goes. A row shorter than 26 raises IndexError while its record is built
      (position 25 is read before the state is compared), so it is skipped. */
  function StatusOf(row: seq<Json>): (st: Status)
    ensures st != Skipped ==> |row| >= 26
  {
    if |row| < 26 then Skipped
    else if IsMinusOne(row[8]) then Finished
    else if row[8] != JNull && BelowEight(row[8]) then Upcoming
    else Skipped
  }

  /** A parsed kick-off time ('%Y-%m-%d %H:%M:%S'): its isoformat() text and, one hour
      later, its '%d/%m %H:%M' and '%H:%M' texts. */
  datatype Stamp = Stamp(iso: string, dayAndTime: string, timeOfDay: string)

  /** The dictionary built for one row. `score` is absent from upcoming records. */
  datatype MatchRecord = MatchRecord(id: Json, homeTeam: Json, awayTeam: Json, handicap: Json,
                                     goalLine: Json, state: Json, score: Option<string>,
                                     timeObj: Option<string>, time: string)

  /** strptime on row[6]; a value that is not text raises TypeError, caught like a bad
      format. The date parser itself is the `clock` parameter. */
  function KickOff(row: seq<Json>, clock: string -> Option<Stamp>): Option<Stamp>
    requires |row| >= 26
  {
    if row[6].JStr? then clock(row[6].s) else None
  }

  /** The record of a classified row: positions 0, 4, 5, 21, 25 and 8 copied; the score
      only in a finished record; time_obj None and time "N/A" exactly when the time does
      not parse. */
  function RecordOf(row: seq<Json>, clock: string -> Option<Stamp>, finished: bool): (r: MatchRecord)
    requires |row| >= 26
    ensures r.id == row[0] && r.homeTeam == row[4] && r.awayTeam == row[5] && r.handicap == row[21]
            && r.goalLine == row[25] && r.state == row[8]
    ensures r.score.Some? <==> finished
    ensures finished ==> r.score == Some(Shown(row[9]) + "-" + Shown(row[10]))
    ensures r.timeObj.None? <==> !row[6].JStr? || clock(row[6].s).None?
    ensures r.timeObj.None? ==> r.time == "N/A"
    ensures r.timeObj.Some? ==>
              var stamp := clock(row[6].s).value;
              r.timeObj == Some(stamp.iso) && r.time == if finished then stamp.dayAndTime else stamp.timeOfDay
  {
    var stamp := KickOff(row, clock);
    MatchRecord(row[0], row[4], row[5], row[21], row[25], row[8],
                if finished then Some(Shown(row[9]) + "-" + Shown(row[10])) else None,
                if stamp.Some? then Some(stamp.value.iso) else None,
                if stamp.None? then "N/A" else if finished then stamp.value.dayAndTime else stamp.value.timeOfDay)
  }

  /** The record a row contributes to the list of status `st`, if any. */
  function Pick(clock: string -> Option<Stamp>, st: Status): seq<Json> -> Option<MatchRecord> {
    (row: seq<Json>) => if StatusOf(row) == st && st != Skipped then Some(RecordOf(row, clock, st == Finished)) else None
  }

  /** The values f gives, in order, for the elements that give one. */
  function Gather<A, B>(xs: seq<A>, f: A -> Option<B>): (r: seq<B>)
    ensures |r| <= |xs|
  {
    if xs == [] then []
    else Gather(xs[..|xs| - 1], f) + (if f(xs[|xs| - 1]).Some? then [f(xs[|xs| - 1]).value] else [])
  }

  lemma {:induction false} GatherMembers<A, B>(xs: seq<A>, f: A -> Option<B>)
    ensures forall r :: r in Gather(xs, f) <==> exists i :: 0 <= i < |xs| && f(xs[i]) == Some(r)
  {
    if xs != [] {
      var init := xs[..|xs| - 1];
      GatherMembers(init, f);
      forall r ensures r in Gather(xs, f) <==> exists i :: 0 <= i < |xs| && f(xs[i]) == Some(r) {
        if r in Gather(init, f) {
          var i :| 0 <= i < |init| && f(init[i]) == Some(r);
          assert xs[i] == init[i];
        }
        if exists i :: 0 <= i < |xs| && f(xs[i]) == Some(r) {
          var i :| 0 <= i < |xs| && f(xs[i]) == Some(r);
          if i < |init| {
            assert init[i] == xs[i];
          }
        }
      }
    }
  }

  /** The score a finished record carries is the one the match study reads back: goal
      counts h and a at positions 9 and 10 give the text "h-a", which unpacks to (h, a). */
  lemma FinishedScoreReads(row: seq<Json>, clock: string -> Option<Stamp>, h: nat, a: nat)
    requires |row| >= 26 && row[9] == JInt(h) && row[10] == JInt(a)
    ensures EstudioScraper.ParseScore(RecordOf(row, clock, true).score) == Some((h, a))
  {
    assert RecordOf(row, clock, true).score == Some(EstudioScraper.ScoreText(h, a));
    EstudioScraper.ScoreRoundTrip(h, a);
  }

  /** The records of the rows with status `st`, in feed order. */
  function Collected(rows: seq<seq<Json>>, clock: string -> Option<Stamp>, st: Status): (r: seq<MatchRecord>)
    ensures |r| <= |rows|
  {
    Gather(rows, Pick(clock, st))
  }

  /** The sort key of a record: its time_obj text, '' when missing. */
  function TimeKey(r: MatchRecord): Key {
    Key(0.0, if r.timeObj.Some? then r.timeObj.value else "")
  }

  /** _process_match_data: one pass over the rows, appending to the two lists, then the
      upcoming list sorted by time and the finished list sorted by time, latest first. */
  method ProcessMatchData(rows: seq<seq<Json>>, clock: string -> Option<Stamp>)
    returns (upcoming: seq<MatchRecord>, finished: seq<MatchRecord>)
    ensures upcoming == SortBy(Collected(rows, clock, Upcoming), TimeKey, false)
    ensures finished == SortBy(Collected(rows, clock, Finished), TimeKey, true)
  {
    upcoming := [];
    finished := [];
    for i := 0 to |rows|
      invariant upcoming == Collected(rows[..i], clock, Upcoming)
      invariant finished == Collected(rows[..i], clock, Finished)
    {
      assert rows[..i + 1][..i] == rows[..i];
      var row := rows[i];
      if |row| >= 26 {
        if IsMinusOne(row[8]) {
          finished := finished + [RecordOf(row, clock, true)];
        } else if row[8] != JNull && BelowEight(row[8]) {
          upcoming := upcoming + [RecordOf(row, clock, false)];
        }
      }
    }
    assert rows[..|rows|] == rows;
    upcoming := SortBy(upcoming, TimeKey, false);
    finished := SortBy(finished, TimeKey, true);
  }

  /** A record is in the finished list exactly when it is the record of a row whose
      state is -1: rows of any other state, and rows too short, are dropped. */
  lemma FinishedMembers(rows: seq<seq<Json>>, clock: string -> Option<Stamp>)
    ensures forall r :: r in SortBy(Collected(rows, clock, Finished), TimeKey, true) <==>
              exists i :: 0 <= i < |rows| && |rows[i]| >= 26 && IsMinusOne(rows[i][8])
                          && r == RecordOf(rows[i], clock, true)
  {
    var collected := Collected(rows, clock, Finished);
    var sorted := SortBy(collected, TimeKey, true);
    GatherMembers(rows, Pick(clock, Finished));
    SortByPermutes(collected, TimeKey, true);
    forall r ensures r in sorted <==> r in collected {
      assert r in sorted <==> r in multiset(sorted);
    }
    forall r ensures r in collected <==> exists i :: 0 <= i < |rows| && |rows[i]| >= 26 && IsMinusOne(rows[i][8])
                                                    && r == RecordOf(rows[i], clock, true) {
      if r in collected {
        var i :| 0 <= i < |rows| && Pick(clock, Finished)(rows[i]) == Some(r);
        PickOf(clock, Finished, rows[i]);
      }
      if exists i :: 0 <= i < |rows| && |rows[i]| >= 26 && IsMinusOne(rows[i][8]) && r == RecordOf(rows[i], clock, true) {
        var i :| 0 <= i < |rows| && |rows[i]| >= 26 && IsMinusOne(rows[i][8]) && r == RecordOf(rows[i], clock, true);
        PickOf(clock, Finished, rows[i]);
      }
    }
  }

  /** A record is in the upcoming list exactly when it is the record of a row whose
      state is a number below 8 other than -1 (or a boolean). */
  lemma UpcomingMembers(rows: seq<seq<Json>>, clock: string -> Option<Stamp>)
    ensures forall r :: r in SortBy(Collected(rows, clock, Upcoming), TimeKey, false) <==>
              exists i :: 0 <= i < |rows| && |rows[i]| >= 26 && !IsMinusOne(rows[i][8])
                          && rows[i][8] != JNull && BelowEight(rows[i][8])
                          && r == RecordOf(rows[i], clock, false)
  {
    var collected := Collected(rows, clock, Upcoming);
    var sorted := SortBy(collected, TimeKey, false);
    GatherMembers(rows, Pick(clock, Upcoming));
    SortByPermutes(collected, TimeKey, false);
    forall r ensures r in sorted <==> r in collected {
      assert r in sorted <==> r in multiset(sorted);
    }
    forall r ensures r in collected <==> exists i :: 0 <= i < |rows| && |rows[i]| >= 26 && !IsMinusOne(rows[i][8])
                                                    && rows[i][8] != JNull && BelowEight(rows[i][8])
                                                    && r == RecordOf(rows[i], clock, false) {
      if r in collected {
        var i :| 0 <= i < |rows| && Pick(clock, Upcoming)(rows[i]) == Some(r);
        PickOf(clock, Upcoming, rows[i]);
      }
      if exists i :: 0 <= i < |rows| && |rows[i]| >= 26 && !IsMinusOne(rows[i][8])
                     && rows[i][8] != JNull && BelowEight(rows[i][8]) && r == RecordOf(rows[i], clock, false) {
        var i :| 0 <= i < |rows| && |rows[i]| >= 26 && !IsMinusOne(rows[i][8])
                 && rows[i][8] != JNull && BelowEight(rows[i][8]) && r == RecordOf(rows[i], clock, false);
        PickOf(clock, Upcoming, rows[i]);
      }
    }
  }

  /** A row gives a record to the list of its own status. */
  lemma PickOf(clock: string -> Option<Stamp>, st: Status, row: seq<Json>)
    ensures Pick(clock, st)(row)
            == if StatusOf(row) == st && st != Skipped then Some(RecordOf(row, clock, st == Finished)) else None
  {
  }

  /** The finished list runs from the latest time_obj back, the upcoming list from the
      earliest on; a missing time_obj counts as ''. */
  lemma ProcessedSorted(rows: seq<seq<Json>>, clock: string -> Option<Stamp>)
    ensures Sorted(SortBy(Collected(rows, clock, Finished), TimeKey, true), TimeKey, true)
    ensures Sorted(SortBy(Collected(rows, clock, Upcoming), TimeKey, false), TimeKey, false)
  {
    SortBySorted(Collected(rows, clock, Finished), TimeKey, true);
    SortBySorted(Collected(rows, clock, Upcoming), TimeKey, false);
  }

  /** Sorting keeps the feed order of records with the same time (list.sort is stable). */
  lemma ProcessedStable(rows: seq<seq<Json>>, clock: string -> Option<Stamp>, k: Key)
    ensures WithKey(SortBy(Collected(rows, clock, Finished), TimeKey, true), TimeKey, k)
            == WithKey(Collected(rows, clock, Finished), TimeKey, k)
    ensures WithKey(SortBy(Collected(rows, clock, Upcoming), TimeKey, false), TimeKey, k)
            == WithKey(Collected(rows, clock, Upcoming), TimeKey, k)
  {
    SortByStable(Collected(rows, clock, Finished), TimeKey, true, k);
    SortByStable(Collected(rows, clock, Upcoming), TimeKey, false, k);
  }

  // ---------------------------------------------------------------- sanitizing

  /** No `a` immediately followed by `b` in s. */
  predicate NoPair(s: string, a: char, b: char) {
    forall i :: 0 <= i < |s| - 1 ==> !(s[i] == a && s[i + 1] == b)
  }

  /** No `a`, `b`, `c` in a row in s. */
  predicate NoTriple(s: string, a: char, b: char, c: char) {
    forall i :: 0 <= i < |s| - 2 ==> !(s[i] == a && s[i + 1] == b && s[i + 2] == c)
  }

  /** re.sub of a two-character literal pattern: the occurrences of `a b` found scanning
      left to right, never overlapping, each replaced by `rep`. */
  function Substitute(s: string, a: char, b: char, rep: string): (r: string)
    ensures s != [] && rep != [] && rep[0] == a ==> r != [] && r[0] == s[0]
    ensures forall c :: c in r ==> c in s || c in rep
  {
    if |s| < 2 then s
    else if s[0] == a && s[1] == b then rep + Substitute(s[2..], a, b, rep)
    else [s[0]] + Substitute(s[1..], a, b, rep)
  }

  /** A substitution leaves no `c d` pair when the input has none outside the pattern
      itself, and the end of the replacement cannot run into a `d`. */
  lemma {:induction false} SubstituteNoPair(s: string, a: char, b: char, rep: string, c: char, d: char)
    requires |rep| >= 2 && rep[0] == a && NoPair(rep, c, d)
    requires (c == a && d == b) || NoPair(s, c, d)
    requires rep[|rep| - 1] != c || NoTriple(s, a, b, d)
    ensures NoPair(Substitute(s, a, b, rep), c, d)
    decreases |s|
  {
    if |s| >= 2 {
      if s[0] == a && s[1] == b {
        var t := Substitute(s[2..], a, b, rep);
        SubstituteNoPair(s[2..], a, b, rep, c, d);
        var r := rep + t;
        forall i | 0 <= i < |r| - 1 ensures !(r[i] == c && r[i + 1] == d) {
          if i == |rep| - 1 && t != [] {
            assert r[i + 1] == s[2];
            if rep[|rep| - 1] == c {
              assert !(s[0] == a && s[1] == b && s[2] == d);
            }
          } else if i >= |rep| {
            assert r[i] == t[i - |rep|] && r[i + 1] == t[i + 1 - |rep|];
          }
        }
      } else {
        var t := Substitute(s[1..], a, b, rep);
        SubstituteNoPair(s[1..], a, b, rep, c, d);
        var r := [s[0]] + t;
        forall i | 0 <= i < |r| - 1 ensures !(r[i] == c && r[i + 1] == d) {
          if i == 0 {
            assert r[1] == s[1];
          } else {
            assert r[i] == t[i - 1] && r[i + 1] == t[i];
          }
        }
      }
    }
  }

  /** One `,,` pass never leaves three commas in a row: each replacement ends in `l,`,
      and a comma it copies is not followed by another. */
  lemma {:induction false} CommaPassNoTriple(s: string)
    ensures NoTriple(Substitute(s, ',', ',', ",null,"), ',', ',', ',')
    ensures |s| >= 2 ==> !(Substitute(s, ',', ',', ",null,")[0] == ',' && Substitute(s, ',', ',', ",null,")[1] == ',')
    decreases |s|
  {
    if |s| >= 2 {
      if s[0] == ',' && s[1] == ',' {
        var t := Substitute(s[2..], ',', ',', ",null,");
        CommaPassNoTriple(s[2..]);
        var r := ",null," + t;
        assert r[1] == 'n';
        forall i | 0 <= i < |r| - 2 ensures !(r[i] == ',' && r[i + 1] == ',' && r[i + 2] == ',') {
          if i == 5 {
            assert r[6] == t[0] && r[7] == t[1];
          } else if i >= 6 {
            assert r[i] == t[i - 6] && r[i + 1] == t[i - 5] && r[i + 2] == t[i - 4];
          }
        }
      } else {
        var t := Substitute(s[1..], ',', ',', ",null,");
        CommaPassNoTriple(s[1..]);
        var r := [s[0]] + t;
        assert r[1] == s[1];
        forall i | 0 <= i < |r| - 2 ensures !(r[i] == ',' && r[i + 1] == ',' && r[i + 2] == ',') {
          if i == 0 {
            assert r[1] == t[0] && r[2] == t[1];
          } else {
            assert r[i] == t[i - 1] && r[i + 1] == t[i] && r[i + 2] == t[i + 1];
          }
        }
      }
    }
  }

  /** The first '>' of s. */
  function IndexOf(s: string, c: char): (r: Option<nat>)
    ensures r.Some? ==> r.value < |s| && s[r.value] == c && c !in s[..r.value]
    ensures r.None? <==> c !in s
  {
    if s == [] then None
    else if s[0] == c then Some(0)
    else
      var k := IndexOf(s[1..], c);
      if k.Some? then
        assert s[..k.value + 1] == [s[0]] + s[1..][..k.value];
        Some(k.value + 1)
      else None
  }

  const FontTag: string := "<font color="
  const FontOpen: string := "<font color=\\\""
  const FontClose: string := "\\\">"

  /** re.sub(r'<font color=([^>]+)>', r'<font color=\\"\1\\">', ...): a colour written
      without quotes, up to the first '>', gets escaped quotes around it. */
  function FontQuote(s: string): (r: string)
    ensures forall c :: c in r ==> c in s || c in FontOpen || c in FontClose
    ensures '<' !in s ==> r == s
    decreases |s|
  {
    if |s| <= |FontTag| then s
    else if s[..|FontTag|] == FontTag && s[|FontTag|] != '>' && IndexOf(s[|FontTag|..], '>').Some? then
      var k := |FontTag| + IndexOf(s[|FontTag|..], '>').value;
      FontOpen + s[|FontTag|..k] + FontClose + FontQuote(s[k + 1..])
    else [s[0]] + FontQuote(s[1..])
  }

  /** An unquoted colour, non-empty and up to the first '>', is quoted, and the rewrite
      goes on after that '>'. */
  lemma FontQuoteTag(c: string, rest: string)
    requires c != [] && '>' !in c
    ensures FontQuote(FontTag + c + ">" + rest) == FontOpen + c + FontClose + FontQuote(rest)
  {
    var s := FontTag + c + ">" + rest;
    var n := |FontTag|;
    assert s[..n] == FontTag && s[n] == c[0];
    var t := s[n..];
    assert t == c + ">" + rest;
    FirstAfter(c, '>', rest);
    var k := n + |c|;
    assert s[n..k] == c && s[k + 1..] == rest;
  }

  /** The first c in x + [c] + y is at |x| when x holds no c. */
  lemma FirstAfter(x: string, c: char, y: string)
    requires c !in x
    ensures IndexOf(x + [c] + y, c) == Some(|x|)
  {
    var t := x + [c] + y;
    assert t[|x|] == c && t[..|x|] == x;
  }

  /** Text without the font tag is left as it is. */
  lemma {:induction false} FontQuoteNoTag(s: string)
    requires !Contains(s, FontTag)
    ensures FontQuote(s) == s
    decreases |s|
  {
    if |s| > |FontTag| {
      assert !OccursAt(s, FontTag, 0);
      assert s[0..|FontTag|] == s[..|FontTag|] != FontTag;
      assert FontQuote(s) == [s[0]] + FontQuote(s[1..]);
      ContainsTail(s, FontTag);
      FontQuoteNoTag(s[1..]);
      assert [s[0]] + s[1..] == s;
    }
  }

  /** The list text rebuilt from the items: each item in brackets, joined by commas,
      the whole in brackets. */
  function Assemble(items: seq<string>): string {
    "[" + JoinItems(items) + "]"
  }

  function JoinItems(items: seq<string>): string {
    if items == [] then ""
    else if |items| == 1 then "[" + items[0] + "]"
    else JoinItems(items[..|items| - 1]) + ",[" + items[|items| - 1] + "]"
  }

  /** The empty-slot rewrites: `,,` twice, then `[,` and `,]`. After them no slot is
      empty: no `,,`, no `[,` and no `,]` is left, whatever the text was. */
  function FillEmptySlots(s: string): (r: string)
    ensures NoPair(r, ',', ',') && NoPair(r, '[', ',') && NoPair(r, ',', ']')
  {
    var once := Substitute(s, ',', ',', ",null,");
    var twice := Substitute(once, ',', ',', ",null,");
    var afterOpen := Substitute(twice, '[', ',', "[null,");
    CommaPassNoTriple(s);
    SubstituteNoPair(once, ',', ',', ",null,", ',', ',');
    SubstituteNoPair(twice, '[', ',', "[null,", '[', ',');
    SubstituteNoPair(twice, '[', ',', "[null,", ',', ',');
    SubstituteNoPair(afterOpen, ',', ']', ",null]", ',', ',');
    SubstituteNoPair(afterOpen, ',', ']', ",null]", '[', ',');
    SubstituteNoPair(afterOpen, ',', ']', ",null]", ',', ']');
    Substitute(afterOpen, ',', ']', ",null]")
  }

  /** Neither the font rewrite nor the slot rewrites bring a single quote back. */
  lemma RewritesKeepQuotesOut(s: string)
    requires '\'' !in s
    ensures '\'' !in FillEmptySlots(FontQuote(s))
  {
    var t := FontQuote(s);
    assert '\'' !in FontOpen && '\'' !in FontClose;
    var once := Substitute(t, ',', ',', ",null,");
    var twice := Substitute(once, ',', ',', ",null,");
    var afterOpen := Substitute(twice, '[', ',', "[null,");
    assert '\'' !in once && '\'' !in twice && '\'' !in afterOpen;
  }

  /** The tail of _sanitize_js_content, given the items of the `A[n]=[...];` assignments
      (None when the A-block is missing). None when there is nothing to assemble;
      otherwise the assembled text with every single quote made double, unquoted font
      colours quoted, and every empty slot filled with null. */
  method SanitizeJsContent(items: Option<seq<string>>) returns (json: Option<string>)
    ensures json.None? <==> items.None? || items.value == []
    ensures json.Some? ==> json.value == FillEmptySlots(FontQuote(ReplaceChar(Assemble(items.value), '\'', '"')))
    ensures json.Some? ==> '\'' !in json.value
    ensures json.Some? ==> NoPair(json.value, ',', ',') && NoPair(json.value, '[', ',') && NoPair(json.value, ',', ']')
  {
    if items.None? || items.value == [] {
      return None;
    }
    var text := Assemble(items.value);
    text := ReplaceChar(text, '\'', '"');
    text := FontQuote(text);
    text := Substitute(text, ',', ',', ",null,");
    text := Substitute(text, ',', ',', ",null,");
    text := Substitute(text, '[', ',', "[null,");
    text := Substitute(text, ',', ']', ",null]");
    json := Some(text);
    var quoted := ReplaceChar(Assemble(items.value), '\'', '"');
    assert '\'' !in quoted;
    RewritesKeepQuotesOut(quoted);
  }
}
