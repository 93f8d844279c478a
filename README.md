# Handicap and goal-line core of the match dashboard

A Dafny model of the deterministic core of the football match dashboard: the
text-to-number parsing, snapping and rendering of Asian-handicap and goal lines; the
cover verdicts and precedent analysis of the match study; the half-line bucketing,
filters, option lists and paging of the dashboard; and the feed-row classifier and
JSON sanitising of the live-score scraper.

Files and modules:

- `builtins.dfy` (`Builtins`) holds the Python built-ins the core relies on. It covers
  `str.strip` over the characters `str.isspace()` accepts; `split` and `replace`;
  `lower` on ASCII and Latin-1 letters; `float()` and `int()` on
  `[sign]digits[.digits]`; `f"{x:.Nf}"` with round-half-even; and `str(float)` in its
  plain decimal form (without the exponent forms).
  Each comes with its round-trip lemmas. It also defines `Json`, the decoded JSON
  values that stored entries and feed rows hold, with Python's truthiness and `str()`.
- `sorting.dfy` (`Sorting`) models `list.sort(key=..., reverse=...)`. It is a stable
  insertion sort on a key made of a number and a text. It is proved sorted, a
  permutation and stable.
- `estudio_scraper.dfy` (`EstudioScraper`) models `src/modules/estudio_scraper.py`:
  - `parse_ah_to_number_of` and `format_ah_as_decimal_string_of`;
  - `check_handicap_cover` and `check_goal_line_cover`;
  - the two precedent analyses and `generar_analisis_completo_mercado`. Each is a
    datatype of narrative cases that carries the formatted line strings.
- `app.dfy` (`App`) models `src/app.py`:
  - `_parse_number_clean`, `_parse_number` and `_parse_handicap_to_float` (a method
    with the segment loop);
  - `_bucket_to_half` and `normalize_handicap_to_half_bucket_str`;
  - the two filter predicates;
  - the two option builders (methods with the nested set-building loops);
  - `_filter_and_slice_matches` (methods with the prepare, filter and pop loops);
  - `_select_default_match_id`.
- `scraping_logic.dfy` (`ScrapingLogic`) models `scripts/scraping_logic.py`:
  `_process_match_data` (a method with the classifying loop and the two sorts) and the
  rewriting tail of `_sanitize_js_content` (a method that rebinds the text step by
  step).

Numbers are Dafny `real`s, and every tolerance of the source (1e-9, 0.05, 1e-6, 0.26,
0.51 as a bound) is kept as an exact literal. Python's `None` and missing keys are
`Option.None`.

The two date parsers are parameters of the model: the dashboard's `clock` (a
`Moment`) and the feed's `clock` (a `Stamp`). So is the stored dataset, which the
source reads from a file.

Where the prose description of the system and the code disagree, the model follows
the code:

- the second split-line parser averages any number of segments and never carries a
  sign, so `"-0/0.5"` is +0.25 on the dashboard and -0.25 in the match study;
- a dashboard value just short of a whole line can bucket past it (1.995 goes to 2.5);
- the "-0.0" handicap option does not select the entries that offered it;
- goal-line options taken from `goal_line_alt` or `goal_line_decimal` are offered,
  but the filter only looks at `goal_line`.

## Model

| member | source | states |
|---|---|---|
| EstudioScraper.ParseAh | src/modules/estudio_scraper.py:67-89 | A line is read only from text that holds a digit, and it is negative only if the text holds a minus sign |
| EstudioScraper.ParseAhRejects | src/modules/estudio_scraper.py:67-89 | The line is unreadable (None, never an error) exactly when it is missing, blank, "-" or "?" after removing spaces, a split that is not in two parts or has a part that is not a number, or unsplit text that is not a number |
| EstudioScraper.ParseAhPlain | src/modules/estudio_scraper.py:86-87 | A plain number text without spaces reads as its decimal value |
| EstudioScraper.ParseAhOfClean | src/modules/estudio_scraper.py:68-88 | Text already free of spaces that is not a sentinel is read as a two-part split line when it holds '/', otherwise as a float |
| EstudioScraper.ParseAhSplitText | src/modules/estudio_scraper.py:72-85 | "p1/b" reads as the split-line value of its halves, with the leading minus of the whole text deciding the sign rule |
| EstudioScraper.SplitLineUnsigned | src/modules/estudio_scraper.py:73-85 | Two unsigned halves give their plain mean ("1/1.5" is 1.25) |
| EstudioScraper.SplitLineNegative | src/modules/estudio_scraper.py:80-81 | A negative first half makes the unsigned second half negative ("-0.5/1" is -0.75) |
| EstudioScraper.SplitLineMinusZero | src/modules/estudio_scraper.py:82-85 | Text starting with '-' whose first half is written "0" makes the second half negative ("-0/b" is -b/2) |
| EstudioScraper.SplitLineLongZero | src/modules/estudio_scraper.py:82-85 | A zero first half written with more than one character ("-0.0") leaves the second half positive |
| EstudioScraper.ZeroHalfExamples | src/modules/estudio_scraper.py:73-85 | "-0/0.5" reads as -0.25 and "-0.0/0.5" as +0.25 |
| EstudioScraper.SnapMagnitude | src/modules/estudio_scraper.py:99-110 | The snapped magnitude is a non-negative quarter line; exact quarters are kept; other fractions move to a half line less than 0.25 away (down below .25, to .5 below .75, up otherwise) |
| EstudioScraper.SignedSnap | src/modules/estudio_scraper.py:98-111 | sign * abs_rounded is a quarter line of the input's sign; quarter inputs are unchanged; others move less than 0.25 |
| EstudioScraper.QuarterFraction | src/modules/estudio_scraper.py:101-105 | A value is a quarter line exactly when its fraction is 0, .25, .5 or .75, the four exact cases of the source |
| EstudioScraper.RenderLine | src/modules/estudio_scraper.py:110-115 | The rendered text is a non-empty number text ending in a digit |
| EstudioScraper.RenderQuarter | src/modules/estudio_scraper.py:110-115 | On a nonzero quarter line one of the 1e-9 tests holds, so the final else is unreachable; the text is an integer, one decimal or two decimals and reads back as the line |
| EstudioScraper.RenderNonZero | src/modules/estudio_scraper.py:111-115 | The integer branch and the decimal branches all give a non-empty number text ending in a digit |
| EstudioScraper.RenderFraction | src/modules/estudio_scraper.py:112-115 | The one- and two-decimal branches give a non-empty number text ending in a digit |
| EstudioScraper.RenderWhole | src/modules/estudio_scraper.py:110-111 | A nonzero whole line is within 1e-9 of its rounding and prints as its integer, which reads back as the line |
| EstudioScraper.RenderHalf | src/modules/estudio_scraper.py:111-112 | A half line fails the integer test, passes the half test and prints with one decimal, which reads back as the line |
| EstudioScraper.RenderQuarterOnly | src/modules/estudio_scraper.py:111-114 | A line at .25 or .75 fails the integer and half tests, passes the quarter test and prints with two decimals, which reads back as the line |
| EstudioScraper.FormattedValue | src/modules/estudio_scraper.py:97-115 | The snapped and rendered value is a non-empty number text |
| EstudioScraper.FormattedValueReparses | src/modules/estudio_scraper.py:97-115 | Reading the rendered text back gives the snapped line |
| EstudioScraper.Format | src/modules/estudio_scraper.py:91-118 | The formatter never returns an empty text |
| EstudioScraper.FormatReparses | src/modules/estudio_scraper.py:91-118 | Formatting a readable line and reading it back gives the line snapped to its quarter; an unreadable line stays unreadable |
| EstudioScraper.SnapIdempotent | src/modules/estudio_scraper.py:98-111 | Snapping a snapped line changes nothing |
| EstudioScraper.FormattedValueOfSnap | src/modules/estudio_scraper.py:97-115 | A line and its snapped value render alike |
| EstudioScraper.FormatOfSentinel | src/modules/estudio_scraper.py:92-93 | "-" and "?" come back unchanged |
| EstudioScraper.FormatOfZero | src/modules/estudio_scraper.py:97 | A zero line is "0" |
| EstudioScraper.FormatOfFormatted | src/modules/estudio_scraper.py:91-118 | A nonzero rendered line formats to itself |
| EstudioScraper.FormatIdempotent | src/modules/estudio_scraper.py:91-118 | Formatting a formatted line gives the same text |
| EstudioScraper.FormatForSheets | src/modules/estudio_scraper.py:116-117 | The spreadsheet form prefixes ' and writes a decimal comma for every readable nonzero line; sentinels, unreadable lines and an exact zero are as in the plain form |
| EstudioScraper.FormatExamples | src/modules/estudio_scraper.py:92-97 | "?" stays "?" even for sheets, " - " is "-", a missing line is "-", "0" is "0" even for sheets |
| EstudioScraper.ParseScore | src/modules/estudio_scraper.py:136 | A score that unpacks has two non-negative goal counts |
| EstudioScraper.ScoreRoundTrip | src/modules/estudio_scraper.py:136 | The text "H-A" of a final score unpacks to (H, A) |
| EstudioScraper.LevelLineHome | src/modules/estudio_scraper.py:137-141 | At a zero line, when the precedent's home side is the main home team (case-insensitively), the verdict follows the home margin: win covers, loss does not, draw pushes |
| EstudioScraper.LevelLineAway | src/modules/estudio_scraper.py:142-145 | Otherwise the verdict follows the away margin |
| EstudioScraper.LevelLineSwap | src/modules/estudio_scraper.py:137-145 | At a zero line, the verdict for score H-A when the main home team is the precedent's home side equals the verdict for A-H when it is not, whatever the favourites and the away side |
| EstudioScraper.QuarterLineSettles | src/modules/estudio_scraper.py:147-159 | On a nonzero quarter line, with the favourite one of the sides, the verdict is CUBIERTO when the margin beats the line, NO CUBIERTO when it falls short and PUSH only on a tie |
| EstudioScraper.QuarterVerdict | src/modules/estudio_scraper.py:154-159 | The 0.05 tolerance decides like an exact comparison on quarter lines |
| EstudioScraper.CoverByMargin | src/modules/estudio_scraper.py:147-159 | On any nonzero quarter line with the precedent's home side as favourite, the verdict compares the home margin with |line|: above covers, below does not, equal pushes |
| EstudioScraper.CoverExamples | src/modules/estudio_scraper.py:134-161 | "2-0" covers a one-goal line, "1-0" pushes, "0-0" does not cover; an unknown favourite or a score with ':' is undetermined |
| EstudioScraper.MalformedCover | src/modules/estudio_scraper.py:134-174 | A score text without '-', with two dashes, or with a character int() rejects does not unpack, and both cover checks give "indeterminado" for it, whatever the line and teams |
| EstudioScraper.UnknownFavourite | src/modules/estudio_scraper.py:147-152 | On a nonzero line, a favourite that matches neither side (case-insensitively), or a missing side name, gives "indeterminado"; and for a score that unpacks that is the only way to get it |
| EstudioScraper.CheckHandicapCover | src/modules/estudio_scraper.py:134-161 | A score that does not unpack is "indeterminado"; at a zero line a score that unpacks always gets a verdict when the precedent's home side is known |
| EstudioScraper.CheckGoalLineCover | src/modules/estudio_scraper.py:163-174 | The verdict is "indeterminado" exactly when the score does not unpack into two integers |
| EstudioScraper.GoalLineMonotone | src/modules/estudio_scraper.py:163-174 | A total over a line is over every lower line, one under a line is under every higher line, and an unreadable score is undetermined for every line |
| EstudioScraper.GoalLineByTotal | src/modules/estudio_scraper.py:165-172 | For a well-formed score the verdict compares the total goals with the line: over, under or push |
| EstudioScraper.GoalsOfScore | src/modules/estudio_scraper.py:227-241 | For a well-formed score the goals item reports the sum of the goals and the goal-line verdict |
| EstudioScraper.AnalyzeGoals | src/modules/estudio_scraper.py:227-243 | The item is "no data" exactly when the result is missing, empty or "?-?"; a report is never red, and it is green exactly for an over or an under, since "NO SUPERADA" contains "SUPERADA" |
| EstudioScraper.LabelTone | src/modules/estudio_scraper.py:233-239 | No goal-line verdict label is painted red; over and under are green, push and undetermined grey |
| EstudioScraper.Compare | src/modules/estudio_scraper.py:186-212 | No comparison exactly when the historic line does not parse; otherwise, with the same favourite (case-insensitively, a missing one as ""), more, less or identical magnitude by |current| against |historic|, and one of the three change cases exactly when the favourite differs |
| EstudioScraper.LevelLinesClaimFavourite | src/modules/estudio_scraper.py:199-210 | With both lines at zero the analysis claims the market established a clear favourite |
| EstudioScraper.AnalyzeHandicap | src/modules/estudio_scraper.py:176-225 | The insufficient-data item appears exactly when the result is missing, empty or "?-?", or the line is missing, empty or "-" |
| EstudioScraper.AnalyzeMarket | src/modules/estudio_scraper.py:245-309 | The analysis exists exactly when both current lines parse; its favourite is the side of the snapped handicap line; the general precedent is "same match" exactly when the first match id is present and equals the sixth |
| App.ParseNumberClean | src/app.py:274-288 | A number is read only from a text that holds a digit |
| App.ParseNumber | src/app.py:290-305 | Whatever the plain parser reads, the clean parser reads as the same number |
| App.CleanReadsPlain | src/app.py:274-305 | Removing '+' never changes a reading that already succeeds: the covered part loses at most a leading '+' |
| App.AnchoredDropsFinalNewline | src/app.py:282 | Anchoring `^...$` under re.search lets the number end just before one final newline |
| App.MapCharsIsReplaceChain | src/app.py:277-281 | The per-character normalisation equals the chain of replace calls |
| App.PlainNumberReads | src/app.py:274-305 | Both parsers read a plain number text as its decimal value |
| App.ParsersAgree | src/app.py:274-305 | The two parsers agree on every text without '+' |
| App.TrailingPlusExample | src/app.py:274-305 | Only the clean parser drops a '+': "1+" is 1 for it and None for the other |
| App.NewlineBeforePlus | src/app.py:280-282 | A newline left at the end after removing '+' is accepted: "d\n+" reads as d |
| App.HandicapValue | src/app.py:307-323 | A line is read only from a text that holds a digit: a missing, blank, digit-free or slashes-only text reads as None |
| App.ParseHandicapToFloat | src/app.py:307-323 | The loop returns the mean of the non-empty segments of a split line (None if one fails or there is none), and otherwise reads the text with every '+' removed |
| App.MeanOfSegments | src/app.py:312-321 | The segment loop returns None at the first unreadable segment and when there is no segment, and otherwise the mean of the segment values |
| App.SegmentsMeanOf | src/app.py:313-321 | Segment values collected in order give the mean of the segments |
| App.HandicapOfNumber | src/app.py:322-323 | A plain number text without '/' reads as itself |
| App.HandicapPairMean | src/app.py:311-321 | Two plain numbers around '/' give their plain mean; no sign is carried over |
| App.HandicapTrailingSlash | src/app.py:312 | Empty segments are dropped: "a/" reads as a |
| App.SplitLineExample | src/app.py:311-321 | "1/1.5" reads as 1.25 |
| App.MinusZeroPair | src/app.py:311-321 | "-0/b" reads as +b/2 |
| App.SplitLinesDisagree | src/app.py:311-321 | The two split-line parsers disagree on "-0/b": +b/2 here and -b/2 in the match study |
| App.MagnitudeNearWhole | src/app.py:332-338 | A fraction under 1e-6 keeps the whole part |
| App.MagnitudeMiddle | src/app.py:339-347 | A fraction from 1e-6 up to just past 0.75 gives the half line above the whole part |
| App.MagnitudeRoundsUp | src/app.py:341-347 | A fraction from 0.750001 to 0.99 gives the next whole line |
| App.MagnitudeOvershoots | src/app.py:341-347 | A fraction above 0.99 and short of 1 - 1e-9 goes past the next whole line to the half line after it |
| App.MagnitudeNudged | src/app.py:332 | A fraction of at least 1 - 1e-9 reaches the next whole line through the 1e-9 nudge |
| App.HalfMagnitudeCases | src/app.py:331-347 | The bucket of a magnitude in closed form, by whole part and fraction |
| App.BucketOdd | src/app.py:330-348 | The sign is reapplied: the bucket of -v is minus the bucket of v |
| App.BucketFixesHalves | src/app.py:337-340 | Whole and half lines are their own bucket |
| App.BucketQuarters | src/app.py:339-340 | A quarter line that is not whole goes to the half line above its whole part (0.25 to 0.5, -0.25 to -0.5) |
| App.BucketZero | src/app.py:328-338 | The zero bucket holds exactly the values within 1e-6 of zero |
| App.BucketToHalf | src/app.py:325-348 | Every bucket is a whole or half line less than 0.51 from the value, with the value's sign (zero stays zero) |
| App.OvershootExample | src/app.py:343-347 | 1.98 buckets to 2.0 but 1.995 to 2.5 |
| App.NormalizeHalfBucket | src/app.py:350-358 | None exactly when the line does not parse; otherwise a text that reads back, through the same parser, as the bucket of the line |
| App.HalfBucketTextReads | src/app.py:350-358 | The bucket text is a number text that reads back as the bucket |
| App.HalfBucketTextDistinguishes | src/app.py:350-358 | Two values have the same bucket text exactly when their buckets agree and so does the sign of a zero bucket |
| App.BucketTextIsFixed | src/app.py:350-358 | The bucket text is the bucket written with one decimal exactly when the value is not a tiny negative that buckets to zero |
| App.NormalizeHalfBucketAgain | src/app.py:350-358 | Normalising a normalised line changes nothing, except that "-0.0" becomes "0.0" |
| App.HandicapFilterOf | src/app.py:85-96 | A handicap filter exists exactly for a non-empty readable text; its bucket is the text of the line's bucket; its target is float() of that bucket, a whole or half line; it uses the range when the target is 2 or more in magnitude; it selects an entry holding the filter's own text |
| App.HandicapMatches | src/app.py:98-107 | An entry matches only if its value is present, truthy and readable as a line |
| App.HandicapExactMatch | src/app.py:98-103 | Below 2, an entry matches exactly when its line is readable and has the filter's bucket and zero sign |
| App.HandicapRangeMatch | src/app.py:104-107 | From 2 on, an entry matches exactly when its bucket is at or beyond the target on the target's side; a value at or beyond the target always matches, and a match is never more than 0.51 short of it |
| App.HandicapOptionSelects | src/app.py:85-109 | Choosing an offered bucket as the filter gives a filter, and it selects the entry it came from exactly when the entry's value is truthy and does not bucket to "-0.0"; a falsy value that offers a bucket is the number 0, offering "0.0" |
| App.GoalLineOptionText | src/app.py:112-122 | None exactly when the line does not read; otherwise a number text that reads back as the line rounded to hundredths |
| App.GoalLineTextParses | src/app.py:119-122 | The goal option text is a number text showing the line to two decimals with trailing zeros dropped |
| App.GoalLineTextReads | src/app.py:119-122 | A line with at most two decimals reads back from its option text |
| App.GoalLineOptionAgain | src/app.py:112-122 | Normalising an option text again gives the same text |
| App.GoalFilterOf | src/app.py:125-134 | A goal filter exists exactly for a non-empty readable text; its target is the line, in range mode from 4 on; it selects an entry holding the filter's own text |
| App.GoalMatches | src/app.py:136-147 | An entry matches only if its value is present, truthy and readable as a line |
| App.GoalExactOnQuarters | src/app.py:143-144 | On quarter lines the 1e-6 test is exact equality |
| App.GoalOptionSelects | src/app.py:112-147 | Choosing the option a goal_line with at most two decimals offers gives a filter, and it selects that entry exactly when the value is truthy; a falsy value that offers one is the number 0 |
| App.FalsyReadsZero | src/app.py:98-99 | A falsy JSON value that still reads as a line is the number 0 (int or float), and it reads as 0; so `raw_value or ''` only drops zeros |
| App.ListValuesMembers | src/app.py:150-174 | An option is collected exactly when some dict entry of some list offers it |
| App.CollectOptions | src/app.py:150-174 | The nested loops collect exactly those options |
| App.SetToSeq | src/app.py:160 | Listing the set gives each element once |
| App.SortOptions | src/app.py:159-162 | The options are the set's elements, each once, ordered by float() when all parse and as text otherwise |
| App.FloatKeyOrder | src/app.py:160 | Ordered by float() key means non-decreasing values |
| App.HandicapOptionReads | src/app.py:156 | Every handicap option reads as a whole or half line |
| App.GoalLineOptionReads | src/app.py:171-172 | Every goal option reads as a number |
| App.BuildHandicapOptions | src/app.py:150-162 | Every bucket offered appears exactly once, in increasing order of value, and each is a whole or half line |
| App.BuildGoalLineOptions | src/app.py:165-178 | Every goal text offered (goal_line, else alt, else decimal) appears exactly once, in increasing order of value |
| App.PrepareEntries | src/app.py:184-190 | The loop prepares each stored entry in order |
| App.PrepareChangesOnlyTime | src/app.py:65-82 | Preparing changes only the display time; it fills an empty time from a parsable time_obj; an entry without a parsable time_obj sorts as datetime.min |
| App.KeepEntries | src/app.py:193-206 | A filtering loop keeps the accepted entries, in order |
| App.KeepMembers | src/app.py:193-206 | A kept entry is one the predicate accepts, and every accepted entry is kept |
| App.FilterEntries | src/app.py:192-206 | The handicap filter then the goal filter, each only when present |
| App.SelectedMembers | src/app.py:192-206 | The filtered entries are exactly the prepared entries that pass every present filter |
| App.WindowSlice | src/app.py:210-224 | Offset and limit cut the run starting at max(offset, 0), clamped, of at most limit entries when limit >= 0 |
| App.DropSortTimes | src/app.py:225-227 | The last loop drops the sort time of each entry |
| App.FilterAndSliceMatches | src/app.py:181-227 | The page is the prepared entries, filtered, sorted by (time, id), offset, limited, with the sort time dropped |
| App.PageMembers | src/app.py:192-227 | Every page entry is a prepared stored entry that passes the filters; without offset or limit every such entry is on the page |
| App.PageSorted | src/app.py:208 | The page is in (time, id) order, descending when sort_desc |
| App.PageLength | src/app.py:210-224 | The page size is what remains after the offset, capped by a non-negative limit |
| App.SelectDefaultMatchId | src/app.py:483-488 | The id of the first entry of the upcoming list followed by the finished list, and None when both are empty |
| Sorting.SortBySorted | src/app.py:208 | list.sort leaves the list in key order, reversed when asked |
| Sorting.SortByPermutes | src/app.py:208 | list.sort permutes the list |
| Sorting.SortByStable | scripts/scraping_logic.py:125-126 | list.sort keeps the order of equal keys |
| ScrapingLogic.StatusOf | scripts/scraping_logic.py:80-122 | A row is classified only if it has all 26 positions the record reads |
| ScrapingLogic.RecordOf | scripts/scraping_logic.py:83-117 | A record copies positions 0, 4, 5, 21, 25 and 8; only a finished record has a score, the text "<position 9>-<position 10>"; time_obj is None exactly when position 6 is not a text the clock parses, and then time is "N/A"; otherwise time_obj is the parsed ISO text and time the day and time (finished) or the time of day (upcoming) |
| ScrapingLogic.FinishedScoreReads | scripts/scraping_logic.py:97 | The score of a finished record with goal counts h and a unpacks, in the match study's cover checks, to (h, a) |
| ScrapingLogic.ProcessMatchData | scripts/scraping_logic.py:76-128 | The loop appends each finished and upcoming record in feed order; the lists are then sorted by time_obj, the finished one latest first |
| ScrapingLogic.GatherMembers | scripts/scraping_logic.py:80-118 | A collected record is the record of some row of that status, and every such record is collected |
| ScrapingLogic.FinishedMembers | scripts/scraping_logic.py:83-122 | The finished list holds exactly the records of the rows with state -1 and 26 positions |
| ScrapingLogic.UpcomingMembers | scripts/scraping_logic.py:109-122 | The upcoming list holds exactly the records of the rows with a numeric or boolean state below 8 other than -1; null, text and other states are dropped |
| ScrapingLogic.ProcessedSorted | scripts/scraping_logic.py:125-126 | Upcoming is ascending by time_obj and finished descending, a missing time_obj counting as '' |
| ScrapingLogic.ProcessedStable | scripts/scraping_logic.py:125-126 | Records with the same time keep their feed order |
| ScrapingLogic.Substitute | scripts/scraping_logic.py:59-62 | re.sub of a two-character pattern keeps the first character and only uses characters of the input or the replacement |
| ScrapingLogic.SubstituteNoPair | scripts/scraping_logic.py:59-62 | A substitution leaves no pair of a given kind when the input has none outside the pattern and the replacement's end cannot run into one |
| ScrapingLogic.CommaPassNoTriple | scripts/scraping_logic.py:59 | One ",," pass never leaves three commas in a row |
| ScrapingLogic.FillEmptySlots | scripts/scraping_logic.py:59-62 | After the two ",," passes and the "[," and ",]" passes no slot is empty: no ",,", "[," or ",]" is left, whatever the text |
| ScrapingLogic.FontQuote | scripts/scraping_logic.py:58 | The font rewrite only uses characters of the input or of the tag it writes, and leaves text without '<' unchanged |
| ScrapingLogic.FontQuoteTag | scripts/scraping_logic.py:58 | An unquoted colour, non-empty and without '>', is wrapped in escaped quotes, and the rewrite goes on after the closing '>' |
| ScrapingLogic.FontQuoteNoTag | scripts/scraping_logic.py:58 | Text that does not contain the font tag is left unchanged |
| ScrapingLogic.RewritesKeepQuotesOut | scripts/scraping_logic.py:56-62 | No rewrite after the quote replacement brings a single quote back |
| ScrapingLogic.SanitizeJsContent | scripts/scraping_logic.py:44-64 | None when the A-block or its items are missing; otherwise the assembled and rewritten text, with no single quote and no empty slot |

## Left out

- Network, HTTP sessions, cloudscraper and asyncio fetching are not modelled. Neither
  are BeautifulSoup and pandas page extraction, the locked time-to-live caches, Flask
  routes and templates, JSON file reading and writing, and the background thread. All
  of this is I/O, concurrency or foreign libraries.
- The HTML and CSS of the narrative strings are left out. Only the case chosen and the
  embedded line strings are modelled.
- Date parsing and formatting (`_parse_time_obj`, `strptime`, `isoformat`, `strftime`,
  the one-hour shift) become the `clock` parameters. `datetime.min` is instant 0.
- The regex extraction of the `A[...]` block and of its items, and `json.loads`, are
  left out. `SanitizeJsContent` starts from the list of items, and None stands for a
  missing block.
- Python `float()` extras (exponents, `inf`, `nan`, `.5`, a trailing point as in
  `1.`, `_` separators) and `int()` with `_` separators are left out. Number texts are
  `[sign]digits[.digits]`.
- Digits and case folding beyond ASCII and Latin-1 are left out. `Builtins.IsDigit` is
  '0' to '9', where Python's `int()`, `float()` and the regex `\d` also accept other
  Unicode decimal digits. `Builtins.Lower` folds ASCII and Latin-1 capitals only,
  where `str.lower()` folds every cased letter. So team names outside Latin-1 that
  differ only in case, and numbers written in other scripts, are not modelled. This
  touches EstudioScraper.FavouriteMargin, EstudioScraper.CheckHandicapCover,
  EstudioScraper.Compare, EstudioScraper.ParseAh, EstudioScraper.Format,
  App.ParseNumberClean, App.ParseNumber and App.HandicapValue.
- EstudioScraper.ParseAh, EstudioScraper.ParseAhRejects, EstudioScraper.Format,
  EstudioScraper.AnalyzeGoals, EstudioScraper.AnalyzeMarket: line texts and match
  results are text or missing (`Option<string>`), and team names are text, as the
  source's `str` annotations and its callers have them. A line or result of any other
  Python type is not modelled. This leaves out three paths:
  - the `isinstance` guards, which give None (src/modules/estudio_scraper.py:68) or
    '-' (src/modules/estudio_scraper.py:92-93) for a line that is not a string;
  - the uncaught AttributeError from `split` on a result that is truthy but not text
    (src/modules/estudio_scraper.py:232, where only ValueError and TypeError are
    caught at :242);
  - the AttributeError from `lower()` on a favourite name of None with a nonzero line
    (src/modules/estudio_scraper.py:199).
- IEEE rounding is not modelled: arithmetic is exact on reals. In particular,
  `App.HalfMagnitudeCases` states the buckets of exact reals.
- App.FieldText: a stored float line field is shown through `Builtins.Repr`, which has
  no exponent form. Python's `str()` writes magnitudes below 1e-4 and from 1e16 up
  with an exponent ("1e-05"), which the number pattern at src/app.py:282 rejects, so
  the source offers no option for such an entry and never selects it, while the model
  reads the value, offers its bucket and can select it. App.OrEmptyText shares this.
- Reals have no signed zero. The one place where a computed -0.0 shows is a negative
  value whose bucket is zero: `sign * bucket` is -0.0 and prints as "-0.0".
  `App.NegativeZero` models that case.
- App.GoalLineOptionText: a plain text that Python reads as negative zero ("-0",
  "-0.0") is offered as "-0" by the source, because `f"{-0.0:.2f}"` keeps the sign.
  The model reads it as 0 and offers "0". A negative value that rounds to zero, such
  as -0.001, is "-0" in both.
- ScrapingLogic.ProcessMatchData:
  - rows are lists of decoded JSON values, so a row that is not a list is not
    modelled;
  - `str()` of lists and objects is carried as text;
  - `str()` of a float is `Builtins.Repr`, without exponent forms.
- App.Entry: the line fields (`handicap`, `goal_line`, `goal_line_alt`,
  `goal_line_decimal`) are decoded JSON values (`Builtins.Json`), but `id`, `time`
  and `time_obj` are text or missing. Numeric ids are not modelled.
- App.FilterAndSliceMatches: with numeric ids, the sort at src/app.py:208 compares an
  int id with the '' of a missing id when two entries have the same time, and Python
  raises TypeError. The model, whose ids are text, has no such error path.
- App.FilterAndSliceMatches: `limit` and `offset` are whole numbers or missing. The
  `int()` conversion of text values and its error path are not modelled.
- `_fetch_sidebar_lists`, `get_main_page_matches` and the other route helpers are not
  modelled. They only pass their arguments to `_filter_and_slice_matches` and the
  option builders.
- The nested helpers of the `api_analisis` route are not modelled. They only rewrite
  ':' to '-' and call `check_handicap_cover`.
