# uoyweek term resolver in Dafny

`uoyweek` prints one status-line label for the current moment. The label names
the academic term (Autumn, Spring or Summer) of the University of York, the week of
that term and the weekday. The label is `Aut/3/Mon` inside a term,
`(Aut/10/Sat)` in the rounded-out week just before or after a term, and `n/a`
otherwise. The program is a single file, `src/main.rs`. This project models all
of its logic:

- **Term construction.** The `term!` macro turns an inclusive pair of days into
  a `start` instant (midnight of the first day) and an `end` instant (midnight
  of the day after the last day). Modelled by `Terms.MakeTerm`.
- **Week rounding.** `loose_start` and `loose_end` walk day by day to a Monday.
  The walks are modelled as the loops `Terms.WalkBackToMonday` and
  `Terms.WalkForwardToMonday`. They are proved equal to the closed forms
  `Civil.MondayOnOrBefore` and `Civil.MondayOnOrAfter`, which `Terms.LooseStart`
  and `Terms.LooseEnd` use.
- **Queries.** `get_term` and `get_strict_term` filter the table and keep the
  last match. Each is modelled as a function returning an `Option` index into
  the table, with the last-match property as its contract. The two filter
  tests are the predicates `Terms.InLoose` (the loose test of
  `src/main.rs:92`) and `Terms.InStrict` (the strict test of
  `src/main.rs:99`).
- **`main`.** The model sorts the table by `start`, resolves the query, computes
  the week number, checks `assert_eq!(strict_term, term)` and prints the line.
  `Status.StatusLine` returns either the printed line or the two terms that make
  the assertion fail.

Instants are local civil times: a day index plus the seconds since local
midnight. Day 0 is 0001-01-01 of the proleptic Gregorian calendar. That day is a
Monday, so the weekday of a day is its index modulo 7. `Civil.DayNumber` converts
a calendar date to its day index. The sample rows are written with literal day
indices, and lemmas check each index against `DayNumber`.

Modules: `Wrappers` (Option, Result), `Civil` (instants, weekdays, Mondays,
calendar dates), `Terms`, `Resolution`, `Sorting`, `Decimal` (text of the week
number), `Status` (week number, label, `main`), `Samples` (table rows of 2023-24
and 2024-25 and concrete runs).

Details of the code that the model keeps as they are:

- A term is not guaranteed to start before it ends. The row at
  `src/main.rs:132` ends before it starts (see Findings). No lemma assumes
  `start < end`.
- The strict test `start <= now <= end` is inclusive at `end`. Midnight after a
  term's last day therefore still counts as inside the term
  (`Terms.MakeTerm`, `Terms.StrictTestAddsOneMidnight`).
- The doc comment of `loose_end` promises `e >= end`. That holds only when `end`
  is a midnight, which is true of every row built by `term!`.
- The code never checks whether the strict query can succeed when the loose
  query fails. For tables whose terms end at midnight, that case is proved
  impossible (`Resolution.StrictAnswerBoundsLoose`).

## Model

| member | source | states |
|---|---|---|
| Civil.LeTotalOrder | src/main.rs:89-101 | Instants compare as a total order: reflexive, antisymmetric, transitive and total, as `DateTime` comparison is |
| Civil.MondayOnOrBefore | src/main.rs:71-78 | The result is a Monday, not after `day`, and fewer than 7 days before it |
| Civil.MondayOnOrAfter | src/main.rs:79-86 | The result is a Monday, not before `day`, and fewer than 7 days after it |
| Civil.MondayOnOrBeforeUnique | src/main.rs:71-78 | Any Monday in the 7 days ending at `day` is the one `MondayOnOrBefore` returns |
| Civil.MondayOnOrAfterUnique | src/main.rs:79-86 | Any Monday in the 7 days starting at `day` is the one `MondayOnOrAfter` returns |
| Civil.WeekIndexIsMonday | src/main.rs:156 | Week index k starts on day 7k, so two days share a week index exactly when they share a Monday |
| Civil.DayNumberFacts | src/main.rs:7-8 | 0001-01-01 is day 0 and a Monday; each day of a month has index one more than the day before; sample month and year ends roll over by one day, as `succ()` does |
| Terms.ShortName | src/main.rs:36-42 | The abbreviation has three letters and is the first three letters of the full name |
| Terms.ShortNameInjective | src/main.rs:36-42 | Different term names have different abbreviations |
| Terms.LooseStart | src/main.rs:71-78 | Returns midnight of a Monday that is not after `start` and fewer than 7 days before `start`'s date; returns midnight of `start`'s own date when that date is a Monday |
| Terms.LooseEnd | src/main.rs:79-86 | Returns midnight of a Monday on or after `end`'s date and fewer than 7 days after it; not before `end` when `end` is a midnight; midnight of `end`'s own date when that date is a Monday |
| Terms.WalkBackToMonday | src/main.rs:72-78 | The backward day-by-day loop stops at the Monday of the day's own week. It takes fewer than 7 steps, and none exactly when the day is a Monday |
| Terms.WalkForwardToMonday | src/main.rs:80-86 | The forward day-by-day loop stops at the first Monday on or after the day. It takes fewer than 7 steps, and none exactly when the day is a Monday |
| Terms.MakeTerm | src/main.rs:4-14 | A row keeps its name, starts and ends at midnights, and its half-open range [start, end) holds exactly the instants dated from the first through the last day; its loose range runs from midnight of the Monday on or before the first day to midnight of the Monday on or after the day after the last day, inverted row or not; the strict test accepts exactly the row's days, plus midnight after the last day whenever the last day is at most one day before the first |
| Terms.MakeTermEmptyExactlyWhenInverted | src/main.rs:4-14 | A row's half-open range holds some instant exactly when its last day is not before its first day |
| Terms.StrictTestAddsOneMidnight | src/main.rs:6-8 | Beyond the row's half-open range the inclusive strict test accepts exactly one instant, midnight after the last day, and only when the last day is at most one day before the first; a row inverted by exactly one day accepts that midnight alone |
| Terms.StrictWithinLoose | src/main.rs:89-101 | Every instant inside a term's strict range is inside its loose range |
| Terms.EmptyLooseRangeMatchesNothing | src/main.rs:89-101 | A term whose loose end is before its loose start contains no instant, strictly or loosely |
| Resolution.LastMatch | src/main.rs:89-101 | Filter-then-last returns the greatest index whose term contains `now`, and None exactly when no term contains it |
| Resolution.GetTerm | src/main.rs:89-94 | Returns Some(i) exactly when term i's loose range contains `now` and no later term's does; returns None exactly when no loose range contains `now` |
| Resolution.GetStrictTerm | src/main.rs:96-101 | Returns Some(i) exactly when term i's strict range contains `now` and no later term's does; returns None exactly when no strict range contains `now` |
| Resolution.LastMatchUnique | src/main.rs:89-101 | Any index with the last-match property is the answer of the query |
| Resolution.StrictAnswerBoundsLoose | src/main.rs:150-159 | If the strict query answers i, the loose query answers some index j >= i |
| Resolution.SeparatedQueriesAgree | src/main.rs:158-159 | When every term ends before the loose start of every later term, the two queries give the same answer whenever the strict one answers |
| Sorting.InsertByStart | src/main.rs:147 | Inserting into a start-sorted sequence keeps it sorted and adds exactly the new term |
| Sorting.SortByStart | src/main.rs:147 | The sorted table is a permutation of the input, and its starts never decrease |
| Sorting.SortKeepsMembers | src/main.rs:147 | Sorting neither adds nor drops a term |
| Sorting.SortKeepsStrictlySortedTable | src/main.rs:147 | A table whose starts strictly increase comes back from the sort unchanged |
| Decimal.NatToDigits | src/main.rs:161 | A natural number is written as a non-empty string of decimal digits with no leading zero |
| Decimal.DigitsRoundTrip | src/main.rs:161 | Reading back a number's digits gives the number |
| Decimal.IntToText | src/main.rs:161 | An integer is written as a non-empty run of digits with no leading zero, after a '-' exactly when it is negative |
| Decimal.IntTextRoundTrip | src/main.rs:161 | Parsing an integer's text gives back the integer |
| Status.WeekNumber | src/main.rs:156 | The week number is 1 exactly when `now` is in the same Monday-based week as the start |
| Status.WeekNumberCountsWeeks | src/main.rs:156 | The week number is the count of whole weeks from the Monday of the start's week to the Monday of `now`'s week, plus one |
| Status.WeekNumberPositiveInLooseRange | src/main.rs:150-156 | Inside a term's loose range the week number is at least 1 |
| Status.WeekNumberMatchesIsoWithinYear | src/main.rs:152-156 | When `now` and the start both lie in the ISO year running from the Monday of its week 1 up to the Monday of the next year's week 1, the ISO-week subtraction gives the Monday-based week number |
| Status.IsoSubtractionAcrossYears | src/main.rs:152-156 | When the start lies in one ISO year of 52 or 53 weeks and `now` lies on or after the next year's week 1, the ISO-week subtraction against that week 1 falls short of the Monday-based week number by that year's number of weeks, the limitation the FIXME describes |
| Status.FirstWeekIsWeekOne | src/main.rs:156 | Any instant in the week of the term's loose start shows week 1 |
| Status.DayAbbrev | src/main.rs:157 | The weekday abbreviation has three letters |
| Status.DayAbbrevInjective | src/main.rs:157 | Different weekdays have different abbreviations |
| Status.Render | src/main.rs:160-168 | The line is `n/a` exactly for no term, starts with '(' exactly for a loose-only match, and the loose-only line is the strict line in parentheses |
| Status.NameOfShortInverts | src/main.rs:36-42 | Every term name's abbreviation reads back as that name |
| Status.DayOfAbbrevInverts | src/main.rs:157 | Every weekday's abbreviation reads back as that weekday |
| Status.FieldsRoundTrip | src/main.rs:161 | `Short/N/Day` splits back into its name, week number and weekday |
| Status.RenderRoundTrip | src/main.rs:160-168 | Every printed line parses back to the label that produced it, so different labels print different lines |
| Status.Classify | src/main.rs:150-169 | The result is no term exactly when the loose query finds none; otherwise it shows the loose term's name, the week number from that term's start and `now`'s weekday. It is a strict label only if that term strictly contains `now`, and loose-only exactly when no term strictly contains `now`. The assertion fails exactly when both queries answer and the strict answer's term differs from the loose answer's term, and the failure carries those two terms in that order; the strict label is shown exactly when both queries answer with the same term |
| Status.StatusLine | src/main.rs:147-170 | A run prints `n/a` exactly when no row's loose range contains `now`; it stops on the assertion exactly when, on the sorted table, both queries answer with different terms, and it then names two different rows of the table; it prints the parenthesised form exactly when some row's loose range contains `now` and no row's strict range does; any other printed line shows the abbreviation of the loose answer's term on the sorted table, the week number from that term's start and `now`'s weekday, bare or in parentheses |
| Status.SameTermsSameMatch | src/main.rs:147-150 | Reordering the table does not change whether some row's loose range contains `now` |
| Status.SameTermsSameStrictMatch | src/main.rs:147-151 | Reordering the table does not change whether some row's strict range contains `now` |
| Status.SeparatedTableNeverFails | src/main.rs:158-159 | When the sorted table is separated, the run always prints, and a strict match prints the unparenthesised form |
| Samples.Dates2023 | src/main.rs:127-128 | The day indices used for the 2023-24 Autumn and Spring rows are those of their dates |
| Samples.Dates2023More | src/main.rs:129 | The day indices used for the 2023-24 Summer row and the query days are those of their dates |
| Samples.Dates2024 | src/main.rs:131-132 | The day indices used for the 2024-25 Autumn and Spring rows are those of their dates |
| Samples.Dates2024More | src/main.rs:133 | The day indices used for the 2024-25 Summer row and the query days are those of their dates |
| Samples.Table2023WellFormed | src/main.rs:126-129 | The 2023-24 rows are already in start order, end at midnight and are separated |
| Samples.SampleLines | src/main.rs:161-164 | The scenario labels print as `Aut/3/Mon`, `(Aut/10/Sat)` and `Spr/5/Mon` |
| Samples.StrictMatchRows | src/main.rs:126-129 | At 14:00 on 2023-10-09 only the Autumn 2023 row contains `now`, strictly and loosely |
| Samples.StrictMatchQueries | src/main.rs:126-129 | At 14:00 on 2023-10-09 both queries find the Autumn 2023 row |
| Samples.ScenarioStrictMatch | src/main.rs:126-129 | At 14:00 on 2023-10-09 the run prints `Aut/3/Mon` |
| Samples.LooseOnlyRows | src/main.rs:126-129 | At 09:00 on 2023-12-02 only the Autumn 2023 row's loose range contains `now`, and not its strict range |
| Samples.LooseOnlyQueries | src/main.rs:126-129 | At 09:00 on 2023-12-02 only the loose query finds the Autumn 2023 row |
| Samples.ScenarioLooseOnlyMatch | src/main.rs:126-129 | At 09:00 on 2023-12-02 the run prints `(Aut/10/Sat)` |
| Samples.ScenarioSummerBreak | src/main.rs:126-129 | At noon on 2024-07-15 the run prints `n/a` |
| Samples.Table2024AsWrittenWellFormed | src/main.rs:130-133 | The 2024-25 rows as written are in start order, end at midnight and are separated |
| Samples.Table2024AsWrittenNeverFails | src/main.rs:130-133 | The 2024-25 rows as written never make the assertion fail |
| Samples.Table2024WellFormed | src/main.rs:130-133 | The corrected 2024-25 rows are in start order, end at midnight and are separated |
| Samples.Spring2025AsWrittenPrintsNa | src/main.rs:132 | With the row as written, every instant of 2025-01-06 through 2025-03-14 prints `n/a` |
| Samples.Spring2025CorrectedQueries | src/main.rs:130-133 | With the row corrected, both queries find the Spring row on every day of the term |
| Samples.Spring2025CorrectedInTerm | src/main.rs:130-133 | With the row corrected, every instant of the Spring 2025 term prints `Spr`, its week number and its weekday, without parentheses |
| Samples.Spring2025CorrectedSample | src/main.rs:130-133 | With the row corrected, noon on 2025-02-03 prints `Spr/5/Mon` |

## Left out

- Time zones: the source builds instants in the Europe/London zone (`chrono_tz`) and converts the UTC clock into it (`from_utc_datetime`). The model works on local civil day and second directly. DST days are 23 or 25 hours long, but London's changes happen at 01:00 and 02:00. `now` is only ever compared with midnights, so comparing civil times gives the same answers as comparing instants.
- Reading the clock (`Utc::now`): `now` is a parameter of `Status.StatusLine`.
- `println!`: the printed line is returned as a string inside `Status.Outcome`. The message `assert_eq!` prints on failure is not modelled; the failing outcome carries the two terms it compares.
- ISO-8601 week numbering: the model does not convert dates to ISO years. The week number is the difference of Monday-based week indices plus one. `Status.IsoWeekIn` takes the Monday of the ISO year's week 1 as a parameter, to relate the model to the source's ISO-week subtraction within one ISO year and across a year boundary.
- `format("%a")` is modelled only as the table of English weekday abbreviations.
- The full 30-row table (`src/main.rs:105-146`) is data. Only the six rows of 2023-24 and 2024-25 appear, in `Samples`.
- `longname` is unused by the program. It is modelled only as `Terms.LongName`, the full name whose first three letters `Terms.ShortName` returns.
- Civil.DayNumberFacts: day-to-day rollover across month and year ends is checked only for sample dates, not proved for all dates. The general proof needs leap-year reasoning from chrono's calendar code, which is not part of this model.
- Terms.StrictWithinLoose: requires the term to end at a midnight. A term ending at another time of day can fail it, because `loose_end` keeps only the date. Every term built by `term!` ends at a midnight.
- Sorting.SortByStart: the source sorts with `sort_unstable_by_key`, which leaves the order of rows sharing a start instant unspecified. The model's insertion sort is stable, so it fixes one such order. Its contract promises only what the source does: sorted by start, and a permutation. No two rows of the table share a start.
- 32-bit arithmetic: the week number is computed in `i32` from ISO week numbers of at most 53, so it cannot overflow. The model uses unbounded integers.

## Findings

| source | as written | input that shows it | evidently intended | confidence | as-written member | corrected member |
|---|---|---|---|---|---|---|
| src/main.rs:132 | `Spring: 2025-01-06 to 2024-03-14`: the row ends ten months before it starts, so its strict and loose ranges are both empty | any instant from 2025-01-06 through 2025-03-14, e.g. 2025-02-03 12:00, prints `n/a` | `Spring: 2025-01-06 to 2025-03-14`, so that 2025-02-03 12:00 prints `Spr/5/Mon` | high (not executed) | Samples.Spring2025AsWrittenPrintsNa | Samples.Spring2025CorrectedInTerm |
