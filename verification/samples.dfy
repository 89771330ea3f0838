/** Rows of the term table for the academic years 2023-24 and 2024-25, and
    what the status line shows for instants in and around them. */
module Samples {
  import opened Wrappers
  import opened Civil
  import opened Terms
  import opened Resolution
  import opened Sorting
  import opened Status
  import opened Decimal

  /** Local time h:mi on the given day. */
  function At(day: int, h: nat, mi: nat): Instant
    requires h < 24 && mi < 60
  {
    Instant(day, h * 3600 + mi * 60)
  }

  /** The day indices of the dates of the 2023-24 rows and queries. */
  lemma Dates2023()
    ensures DayNumber(2023, 9, 25) == 738787 && DayNumber(2023, 12, 1) == 738854
    ensures DayNumber(2024, 1, 8) == 738892 && DayNumber(2024, 3, 15) == 738959
  {
  }

  lemma Dates2023More()
    ensures DayNumber(2024, 4, 15) == 738990 && DayNumber(2024, 6, 21) == 739057
    ensures DayNumber(2023, 10, 9) == 738801 && DayNumber(2023, 12, 2) == 738855
  {
  }

  /** The day indices of the dates of the 2024-25 rows and queries. */
  lemma Dates2024()
    ensures DayNumber(2024, 9, 23) == 739151 && DayNumber(2024, 11, 29) == 739218
    ensures DayNumber(2025, 1, 6) == 739256 && DayNumber(2024, 3, 14) == 738958
  {
  }

  lemma Dates2024More()
    ensures DayNumber(2025, 3, 14) == 739323 && DayNumber(2025, 4, 22) == 739362
    ensures DayNumber(2025, 6, 27) == 739428 && DayNumber(2025, 2, 3) == 739284
    ensures DayNumber(2024, 7, 15) == 739081
  {
  }

  const Table2023: seq<Term> := [
    MakeTerm(Autumn, 738787, 738854),  // 2023-09-25 to 2023-12-01
    MakeTerm(Spring, 738892, 738959),  // 2024-01-08 to 2024-03-15
    MakeTerm(Summer, 738990, 739057)   // 2024-04-15 to 2024-06-21
  ]

  /** The 2024-25 rows as the table has them: the Spring row ends on
      2024-03-14, ten months before it starts. */
  const Table2024AsWritten: seq<Term> := [
    MakeTerm(Autumn, 739151, 739218),  // 2024-09-23 to 2024-11-29
    MakeTerm(Spring, 739256, 738958),  // 2025-01-06 to 2024-03-14
    MakeTerm(Summer, 739362, 739428)   // 2025-04-22 to 2025-06-27
  ]

  /** The 2024-25 rows with the Spring row ending on 2025-03-14. */
  const Table2024: seq<Term> := [
    MakeTerm(Autumn, 739151, 739218),  // 2024-09-23 to 2024-11-29
    MakeTerm(Spring, 739256, 739323),  // 2025-01-06 to 2025-03-14
    MakeTerm(Summer, 739362, 739428)   // 2025-04-22 to 2025-06-27
  ]

  /** The rows of 2023-24 are in start order, end at midnight and are
      separated, so sorting keeps them and the assertion cannot fail. */
  lemma Table2023WellFormed()
    ensures SortByStart(Table2023) == Table2023
    ensures EndsAtMidnight(Table2023) && Separated(Table2023)
  {
    Table2023InStartOrder();
    SortKeepsStrictlySortedTable(Table2023);
    Table2023Separated();
  }

  lemma Table2023InStartOrder()
    ensures forall i, j :: 0 <= i < j < |Table2023| ==> Lt(Table2023[i].start, Table2023[j].start)
  {
  }

  lemma Table2023Separated()
    ensures EndsAtMidnight(Table2023) && Separated(Table2023)
  {
    assert Lt(Table2023[0].end, LooseStart(Table2023[1]));
    assert Lt(Table2023[1].end, LooseStart(Table2023[2]));
    assert Lt(Table2023[0].end, LooseStart(Table2023[2]));
  }

  /** The lines shown in the scenarios below. */
  lemma SampleLines()
    ensures Render(InTerm(Autumn, 3, 0)) == "Aut/3/Mon"
    ensures Render(NearTerm(Autumn, 10, 5)) == "(Aut/10/Sat)"
    ensures Render(InTerm(Spring, 5, 0)) == "Spr/5/Mon"
  {
    assert IntToText(10) == "10";
  }

  /** At 14:00 on 2023-10-09, the Monday of the Autumn term's third week,
      the term is found strictly and loosely. */
  lemma StrictMatchQueries(now: Instant)
    requires now == At(738801, 14, 0)
    ensures GetTerm(Table2023, now) == Some(0) && GetStrictTerm(Table2023, now) == Some(0)
  {
    StrictMatchRows(now);
    LastMatchUnique(Loose, Table2023, now, 0);
    LastMatchUnique(Strict, Table2023, now, 0);
  }

  lemma StrictMatchRows(now: Instant)
    requires now == At(738801, 14, 0)
    ensures InStrict(Table2023[0], now) && InLoose(Table2023[0], now)
    ensures !InLoose(Table2023[1], now) && !InLoose(Table2023[2], now)
    ensures !InStrict(Table2023[1], now) && !InStrict(Table2023[2], now)
  {
  }

  lemma ScenarioStrictMatch(now: Instant)
    requires now == At(738801, 14, 0)
    ensures StatusLine(Table2023, now) == Printed("Aut/3/Mon")
  {
    StrictMatchQueries(now);
    assert WeekNumber(now.day, Table2023[0].start.day) == 3;
    assert Classify(Table2023, now) == Success(InTerm(Autumn, 3, 0));
    Table2023WellFormed();
    StatusLineOfSortedTable(Table2023, now, InTerm(Autumn, 3, 0));
    SampleLines();
  }

  /** At 09:00 on Saturday 2023-12-02, the day after the Autumn term's last
      day, only the rounded-out range contains the instant. */
  lemma LooseOnlyQueries(now: Instant)
    requires now == At(738855, 9, 0)
    ensures GetTerm(Table2023, now) == Some(0) && GetStrictTerm(Table2023, now).None?
  {
    LooseOnlyRows(now);
    LastMatchUnique(Loose, Table2023, now, 0);
  }

  lemma LooseOnlyRows(now: Instant)
    requires now == At(738855, 9, 0)
    ensures InLoose(Table2023[0], now) && !InStrict(Table2023[0], now)
    ensures !InLoose(Table2023[1], now) && !InLoose(Table2023[2], now)
  {
  }

  lemma ScenarioLooseOnlyMatch(now: Instant)
    requires now == At(738855, 9, 0)
    ensures StatusLine(Table2023, now) == Printed("(Aut/10/Sat)")
  {
    LooseOnlyQueries(now);
    assert WeekNumber(now.day, Table2023[0].start.day) == 10;
    assert Classify(Table2023, now) == Success(NearTerm(Autumn, 10, 5));
    Table2023WellFormed();
    StatusLineOfSortedTable(Table2023, now, NearTerm(Autumn, 10, 5));
    SampleLines();
  }

  /** At noon on 2024-07-15, in the summer break, no rounded-out range
      contains the instant. */
  lemma ScenarioSummerBreak(now: Instant)
    requires now == At(739081, 12, 0)
    ensures StatusLine(Table2023, now) == Printed("n/a")
  {
    assert forall j :: 0 <= j < |Table2023| ==> !InLoose(Table2023[j], now);
  }

  /** The 2024-25 rows as written never trip the assertion: the inverted
      Spring row simply matches nothing. */
  lemma Table2024AsWrittenNeverFails(now: Instant)
    ensures StatusLine(Table2024AsWritten, now).Printed?
  {
    Table2024AsWrittenWellFormed();
    SeparatedTableNeverFails(Table2024AsWritten, now);
  }

  lemma Table2024AsWrittenWellFormed()
    ensures SortByStart(Table2024AsWritten) == Table2024AsWritten
    ensures EndsAtMidnight(Table2024AsWritten) && Separated(Table2024AsWritten)
  {
    Table2024AsWrittenInStartOrder();
    SortKeepsStrictlySortedTable(Table2024AsWritten);
    Table2024AsWrittenSeparated();
  }

  lemma Table2024AsWrittenInStartOrder()
    ensures forall i, j :: 0 <= i < j < |Table2024AsWritten| ==> Lt(Table2024AsWritten[i].start, Table2024AsWritten[j].start)
  {
  }

  lemma Table2024AsWrittenSeparated()
    ensures EndsAtMidnight(Table2024AsWritten) && Separated(Table2024AsWritten)
  {
    assert Lt(Table2024AsWritten[0].end, LooseStart(Table2024AsWritten[1]));
    assert Lt(Table2024AsWritten[1].end, LooseStart(Table2024AsWritten[2]));
    assert Lt(Table2024AsWritten[0].end, LooseStart(Table2024AsWritten[2]));
  }

  lemma Table2024WellFormed()
    ensures SortByStart(Table2024) == Table2024
    ensures EndsAtMidnight(Table2024) && Separated(Table2024)
  {
    Table2024InStartOrder();
    SortKeepsStrictlySortedTable(Table2024);
    Table2024Separated();
  }

  lemma Table2024InStartOrder()
    ensures forall i, j :: 0 <= i < j < |Table2024| ==> Lt(Table2024[i].start, Table2024[j].start)
  {
  }

  lemma Table2024Separated()
    ensures EndsAtMidnight(Table2024) && Separated(Table2024)
  {
    assert Lt(Table2024[0].end, LooseStart(Table2024[1]));
    assert Lt(Table2024[1].end, LooseStart(Table2024[2]));
    assert Lt(Table2024[0].end, LooseStart(Table2024[2]));
  }

  /** With the rows as written, every instant from 2025-01-06 to 2025-03-14,
      the days of the Spring 2025 term, prints `n/a`. */
  lemma Spring2025AsWrittenPrintsNa(now: Instant)
    requires 739256 <= now.day <= 739323
    ensures StatusLine(Table2024AsWritten, now) == Printed("n/a")
  {
    EmptyLooseRangeMatchesNothing(Table2024AsWritten[1], now);
    assert !InLoose(Table2024AsWritten[0], now) && !InLoose(Table2024AsWritten[2], now);
    assert forall j :: 0 <= j < |Table2024AsWritten| ==> !InLoose(Table2024AsWritten[j], now);
  }

  /** With the Spring row corrected, every instant of the Spring 2025 term
      shows `Spr`, its Monday-based week and its weekday, unparenthesised. */
  lemma Spring2025CorrectedInTerm(now: Instant)
    requires 739256 <= now.day <= 739323
    ensures StatusLine(Table2024, now)
         == Printed(Render(InTerm(Spring, WeekNumber(now.day, 739256), Weekday(now.day))))
  {
    Spring2025CorrectedQueries(now);
    Table2024WellFormed();
    StatusLineOfSortedTable(Table2024, now, InTerm(Spring, WeekNumber(now.day, 739256), Weekday(now.day)));
  }

  /** On the corrected rows, both queries find the Spring row throughout
      its days. */
  lemma Spring2025CorrectedQueries(now: Instant)
    requires 739256 <= now.day <= 739323
    ensures GetTerm(Table2024, now) == Some(1) && GetStrictTerm(Table2024, now) == Some(1)
  {
    assert InStrict(Table2024[1], now) && InLoose(Table2024[1], now);
    assert !InLoose(Table2024[2], now) && !InStrict(Table2024[2], now);
    LastMatchUnique(Loose, Table2024, now, 1);
    LastMatchUnique(Strict, Table2024, now, 1);
  }

  /** On the corrected rows, noon on 2025-02-03, the fifth Monday of the
      Spring term, shows week 5. */
  lemma Spring2025CorrectedSample(now: Instant)
    requires now == At(739284, 12, 0)
    ensures StatusLine(Table2024, now) == Printed("Spr/5/Mon")
  {
    Spring2025CorrectedQueries(now);
    assert WeekNumber(now.day, Table2024[1].start.day) == 5;
    assert Classify(Table2024, now) == Success(InTerm(Spring, 5, 0));
    Table2024WellFormed();
    StatusLineOfSortedTable(Table2024, now, InTerm(Spring, 5, 0));
    SampleLines();
  }
}
