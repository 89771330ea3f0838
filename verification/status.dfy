/** The status line: resolve `now` against the sorted table, check that the
    strict and loose answers agree, and print the term, week and weekday. */
module Status {
  import opened Wrappers
  import opened Civil
  import opened Terms
  import opened Resolution
  import opened Sorting
  import opened Decimal

  /** Week number of `day` in a term starting on `startDay`: the difference
      of their Monday-based week indices, plus one. */
  function WeekNumber(day: int, startDay: int): (n: int)
    ensures n == 1 <==> MondayOnOrBefore(day) == MondayOnOrBefore(startDay)
  {
    WeekIndexIsMonday(day);
    WeekIndexIsMonday(startDay);
    WeekIndex(day) - WeekIndex(startDay) + 1
  }

  /** The week number counts whole weeks elapsed between the Monday of the
      start's week and the Monday of `day`'s week, plus one. */
  lemma WeekNumberCountsWeeks(day: int, startDay: int)
    ensures (MondayOnOrBefore(day) - MondayOnOrBefore(startDay)) % 7 == 0
    ensures WeekNumber(day, startDay) == (MondayOnOrBefore(day) - MondayOnOrBefore(startDay)) / 7 + 1
  {
    WeekIndexIsMonday(day);
    WeekIndexIsMonday(startDay);
    var a, b := WeekIndex(day), WeekIndex(startDay);
    assert MondayOnOrBefore(day) - MondayOnOrBefore(startDay) == 7 * (a - b);
  }

  /** Inside a term's loose range the week number is at least one. */
  lemma WeekNumberPositiveInLooseRange(t: Term, now: Instant)
    requires InLoose(t, now)
    ensures WeekNumber(now.day, t.start.day) >= 1
  {
    WeekIndexIsMonday(now.day);
    WeekIndexIsMonday(t.start.day);
    MondayOnOrBeforeUnique(t.start.day, LooseStart(t).day);
    assert MondayOnOrBefore(t.start.day) <= now.day;
    assert MondayOnOrBefore(t.start.day) <= MondayOnOrBefore(now.day);
  }

  /** ISO week number of `day` within the ISO year whose week 1 begins on
      the Monday `week1`; ISO years are made of whole Monday-based weeks. */
  function IsoWeekIn(day: int, week1: int): int {
    (day - week1) / 7 + 1
  }

  /** When `now` and the start fall in the same ISO year, the one running
      from the Monday `week1` up to the Monday `nextWeek1` that begins the
      next, subtracting their ISO week numbers gives the Monday-based week
      number. */
  lemma WeekNumberMatchesIsoWithinYear(day: int, startDay: int, week1: int, nextWeek1: int)
    requires Weekday(week1) == Monday && Weekday(nextWeek1) == Monday
    requires week1 <= startDay < nextWeek1 && week1 <= day < nextWeek1
    ensures IsoWeekIn(day, week1) - IsoWeekIn(startDay, week1) + 1 == WeekNumber(day, startDay)
  {
    var q := week1 / 7;
    assert week1 == 7 * q;
    assert (day - week1) / 7 == day / 7 - q;
    assert (startDay - week1) / 7 == startDay / 7 - q;
  }

  /** When `now` has moved into the next ISO year, whose week 1 begins on
      `nextWeek1`, the subtraction of ISO week numbers falls short of the
      Monday-based week number by the number of weeks in the start's ISO
      year (52 or 53). */
  lemma IsoSubtractionAcrossYears(day: int, startDay: int, week1: int, nextWeek1: int)
    requires Weekday(week1) == Monday && Weekday(nextWeek1) == Monday
    requires week1 <= startDay < nextWeek1 <= day
    requires (nextWeek1 - week1) / 7 == 52 || (nextWeek1 - week1) / 7 == 53
    ensures IsoWeekIn(day, nextWeek1) - IsoWeekIn(startDay, week1) + 1
         == WeekNumber(day, startDay) - (nextWeek1 - week1) / 7
    ensures IsoWeekIn(day, nextWeek1) - IsoWeekIn(startDay, week1) + 1 < WeekNumber(day, startDay)
  {
    var q, q' := week1 / 7, nextWeek1 / 7;
    assert week1 == 7 * q && nextWeek1 == 7 * q';
    assert (day - nextWeek1) / 7 == day / 7 - q';
    assert (startDay - week1) / 7 == startDay / 7 - q;
    assert (nextWeek1 - week1) / 7 == q' - q;
  }

  /** `format("%a")`. */
  function DayAbbrev(w: DayOfWeek): (s: string)
    ensures |s| == 3
  {
    ["Mon", "Tue", "Wed", "Thu", "Fri", "Sat", "Sun"][w]
  }

  /** Different weekdays never share an abbreviation. */
  lemma DayAbbrevInjective(w: DayOfWeek, w': DayOfWeek)
    requires DayAbbrev(w) == DayAbbrev(w')
    ensures w == w'
  {
  }

  /** What the status line says. */
  datatype Label =
    | NotInTerm
    | InTerm(name: TermName, week: int, day: DayOfWeek)
    | NearTerm(name: TermName, week: int, day: DayOfWeek)

  function Fields(name: TermName, week: int, day: DayOfWeek): string {
    ShortName(name) + "/" + IntToText(week) + "/" + DayAbbrev(day)
  }

  /** The printed line: `n/a`, `Short/N/Day`, or the same in parentheses
      when `now` is only in the rounded-out week of a term. */
  function Render(l: Label): (s: string)
    ensures l.NotInTerm? <==> s == "n/a"
    ensures l.NearTerm? <==> |s| > 0 && s[0] == '('
    ensures l.InTerm? ==> s == Fields(l.name, l.week, l.day)
    ensures l.NearTerm? ==> s == "(" + Fields(l.name, l.week, l.day) + ")"
  {
    match l
    case NotInTerm => "n/a"
    case InTerm(n, w, d) => Fields(n, w, d)
    case NearTerm(n, w, d) => "(" + Fields(n, w, d) + ")"
  }

  function NameOfShort(s: string): Option<TermName> {
    if s == "Aut" then Some(Autumn)
    else if s == "Spr" then Some(Spring)
    else if s == "Sum" then Some(Summer)
    else None
  }

  function DayOfAbbrev(s: string): Option<DayOfWeek> {
    if s == "Mon" then Some(0)
    else if s == "Tue" then Some(1)
    else if s == "Wed" then Some(2)
    else if s == "Thu" then Some(3)
    else if s == "Fri" then Some(4)
    else if s == "Sat" then Some(5)
    else if s == "Sun" then Some(6)
    else None
  }

  datatype FieldValues = FieldValues(name: TermName, week: int, day: DayOfWeek)

  /** Split `Short/N/Day` back into its three fields. */
  function ParseFields(s: string): Option<FieldValues> {
    if |s| < 9 || s[3] != '/' || s[|s| - 4] != '/' then None
    else
      match (NameOfShort(s[..3]), ParseInt(s[4..|s| - 4]), DayOfAbbrev(s[|s| - 3..]))
      case (Some(n), Some(w), Some(d)) => Some(FieldValues(n, w, d))
      case _ => None
  }

  /** Read a status line back into the label it shows. */
  function ParseLine(s: string): Option<Label> {
    if s == "n/a" then Some(NotInTerm)
    else if |s| >= 2 && s[0] == '(' && s[|s| - 1] == ')' then
      match ParseFields(s[1..|s| - 1])
      case Some(f) => Some(NearTerm(f.name, f.week, f.day))
      case None => None
    else
      match ParseFields(s)
      case Some(f) => Some(InTerm(f.name, f.week, f.day))
      case None => None
  }

  /** Reading an abbreviation gives back the term name it abbreviates. */
  lemma NameOfShortInverts(name: TermName)
    ensures NameOfShort(ShortName(name)) == Some(name)
  {
  }

  /** Reading a weekday abbreviation gives back the weekday. */
  lemma DayOfAbbrevInverts(day: DayOfWeek)
    ensures DayOfAbbrev(DayAbbrev(day)) == Some(day)
  {
  }

  lemma FieldsRoundTrip(name: TermName, week: int, day: DayOfWeek)
    ensures ParseFields(Fields(name, week, day)) == Some(FieldValues(name, week, day))
  {
    var a, w, d := ShortName(name), IntToText(week), DayAbbrev(day);
    var s := Fields(name, week, day);
    assert s == a + "/" + w + "/" + d;
    assert |s| == |w| + 8;
    assert s[..3] == a;
    assert s[4..|s| - 4] == w;
    assert s[|s| - 3..] == d;
    NameOfShortInverts(name);
    DayOfAbbrevInverts(day);
    IntTextRoundTrip(week);
  }

  /** Every label is printed as a line that reads back as that label. */
  lemma RenderRoundTrip(l: Label)
    ensures ParseLine(Render(l)) == Some(l)
  {
    match l
    case NotInTerm =>
    case InTerm(n, w, d) =>
      FieldsRoundTrip(n, w, d);
      var s := Render(l);
      assert s[0] != '(';
    case NearTerm(n, w, d) =>
      FieldsRoundTrip(n, w, d);
      var s := Render(l);
      assert s[1..|s| - 1] == Fields(n, w, d);
  }

  /** The values the status line needs from the loose answer, or the two
      different terms that make `assert_eq!(strict_term, term)` fail. */
  function Classify(terms: seq<Term>, now: Instant): (r: Result<Label, (Term, Term)>)
    ensures r == Success(NotInTerm) <==> GetTerm(terms, now).None?
    ensures r.Success? && !r.value.NotInTerm? ==>
      && GetTerm(terms, now).Some?
      && r.value.name == terms[GetTerm(terms, now).value].name
      && r.value.week == WeekNumber(now.day, terms[GetTerm(terms, now).value].start.day)
      && r.value.day == Weekday(now.day)
    ensures r.Success? && r.value.InTerm? ==> InStrict(terms[GetTerm(terms, now).value], now)
    ensures r.Success? && r.value.NearTerm? <==>
      GetTerm(terms, now).Some? && forall j :: 0 <= j < |terms| ==> !InStrict(terms[j], now)
    ensures r.Failure? ==> r.error.0 != r.error.1 && InStrict(r.error.0, now) && InLoose(r.error.1, now)
    ensures r.Failure? <==>
      && GetTerm(terms, now).Some? && GetStrictTerm(terms, now).Some?
      && terms[GetStrictTerm(terms, now).value] != terms[GetTerm(terms, now).value]
    ensures r.Failure? ==>
      r.error == (terms[GetStrictTerm(terms, now).value], terms[GetTerm(terms, now).value])
    ensures r.Success? && r.value.InTerm? <==>
      && GetTerm(terms, now).Some? && GetStrictTerm(terms, now).Some?
      && terms[GetStrictTerm(terms, now).value] == terms[GetTerm(terms, now).value]
  {
    match GetTerm(terms, now)
    case None => Success(NotInTerm)
    case Some(i) =>
      var term := terms[i];
      var week := WeekNumber(now.day, term.start.day);
      var day := Weekday(now.day);
      match GetStrictTerm(terms, now)
      case Some(k) =>
        if terms[k] != term then Failure((terms[k], term))
        else Success(InTerm(term.name, week, day))
      case None => Success(NearTerm(term.name, week, day))
  }

  /** What one run prints, or the assertion that stops it. */
  datatype Outcome = Printed(line: string) | AssertionFailed(strict: Term, loose: Term)

  /** One run of the program at local time `now` over the literal table:
      sort by start, resolve, check, print. */
  function StatusLine(table: seq<Term>, now: Instant): (o: Outcome)
    ensures o == Printed("n/a") <==> forall j :: 0 <= j < |table| ==> !InLoose(table[j], now)
    ensures o.AssertionFailed? ==> o.strict in table && o.loose in table && o.strict != o.loose
    ensures o.AssertionFailed? <==>
      var s := SortByStart(table);
      && GetTerm(s, now).Some? && GetStrictTerm(s, now).Some?
      && s[GetStrictTerm(s, now).value] != s[GetTerm(s, now).value]
    ensures (o.Printed? && |o.line| > 0 && o.line[0] == '(') <==>
      && (exists j :: 0 <= j < |table| && InLoose(table[j], now))
      && (forall j :: 0 <= j < |table| ==> !InStrict(table[j], now))
    ensures o.Printed? && o.line != "n/a" ==>
      var s := SortByStart(table);
      && GetTerm(s, now).Some?
      && var t := s[GetTerm(s, now).value];
         var f := Fields(t.name, WeekNumber(now.day, t.start.day), Weekday(now.day));
         o.line == f || o.line == "(" + f + ")"
  {
    var terms := SortByStart(table);
    SortKeepsMembers(table);
    SameTermsSameMatch(table, terms, now);
    SameTermsSameStrictMatch(table, terms, now);
    var c := Classify(terms, now);
    if c.Success? then Printed(Render(c.value)) else AssertionFailed(c.error.0, c.error.1)
  }

  /** Two tables holding the same terms have a row containing `now` alike. */
  lemma SameTermsSameMatch(a: seq<Term>, b: seq<Term>, now: Instant)
    requires forall t :: t in a <==> t in b
    ensures (exists j :: 0 <= j < |a| && InLoose(a[j], now)) <==> (exists j :: 0 <= j < |b| && InLoose(b[j], now))
  {
    if j :| 0 <= j < |a| && InLoose(a[j], now) {
      assert a[j] in b;
      var k :| 0 <= k < |b| && b[k] == a[j];
      assert InLoose(b[k], now);
    }
    if j :| 0 <= j < |b| && InLoose(b[j], now) {
      assert b[j] in a;
      var k :| 0 <= k < |a| && a[k] == b[j];
      assert InLoose(a[k], now);
    }
  }

  /** Two tables holding the same terms have a row strictly containing `now`
      alike. */
  lemma SameTermsSameStrictMatch(a: seq<Term>, b: seq<Term>, now: Instant)
    requires forall t :: t in a <==> t in b
    ensures (exists j :: 0 <= j < |a| && InStrict(a[j], now)) <==> (exists j :: 0 <= j < |b| && InStrict(b[j], now))
  {
    if j :| 0 <= j < |a| && InStrict(a[j], now) {
      assert a[j] in b;
      var k :| 0 <= k < |b| && b[k] == a[j];
      assert InStrict(b[k], now);
    }
    if j :| 0 <= j < |b| && InStrict(b[j], now) {
      assert b[j] in a;
      var k :| 0 <= k < |a| && a[k] == b[j];
      assert InStrict(a[k], now);
    }
  }

  /** On a table already in start order, the run prints the rendering of
      what `Classify` finds in the table itself. */
  lemma StatusLineOfSortedTable(table: seq<Term>, now: Instant, l: Label)
    requires SortByStart(table) == table
    requires Classify(table, now) == Success(l)
    ensures StatusLine(table, now) == Printed(Render(l))
  {
  }

  /** A table that sorts into a separated table never trips the assertion,
      and a strict match prints the unparenthesised form. */
  lemma SeparatedTableNeverFails(table: seq<Term>, now: Instant)
    requires EndsAtMidnight(SortByStart(table)) && Separated(SortByStart(table))
    ensures StatusLine(table, now).Printed?
    ensures GetStrictTerm(SortByStart(table), now).Some? ==>
      StatusLine(table, now).line[0] != '(' && StatusLine(table, now).line != "n/a"
  {
    var terms := SortByStart(table);
    if GetStrictTerm(terms, now).Some? {
      SeparatedQueriesAgree(terms, now);
    }
  }

  /** At an instant of the term's first week the week number shown is 1. */
  lemma FirstWeekIsWeekOne(t: Term, now: Instant)
    requires MondayOnOrBefore(now.day) == LooseStart(t).day
    ensures WeekNumber(now.day, t.start.day) == 1
  {
    MondayOnOrBeforeUnique(t.start.day, LooseStart(t).day);
  }
}
