/** Terms: a named academic period with a strict range (the curated first
    and last days) and a loose range (the strict range rounded out to whole
    Monday-to-Monday weeks). */
module Terms {
  import opened Civil

  datatype TermName = Autumn | Spring | Summer

  function LongName(n: TermName): string {
    match n
    case Autumn => "Autumn"
    case Spring => "Spring"
    case Summer => "Summer"
  }

  /** The three-letter abbreviation shown on the status line: the first
      three letters of the full name, different for every term name. */
  function ShortName(n: TermName): (s: string)
    ensures |s| == 3 && s == LongName(n)[..3]
  {
    match n
    case Autumn => "Aut"
    case Spring => "Spr"
    case Summer => "Sum"
  }

  /** Different term names never share an abbreviation. */
  lemma ShortNameInjective(n: TermName, n': TermName)
    requires ShortName(n) == ShortName(n')
    ensures n == n'
  {
  }

  /** `start` is the first instant of the term; `end` is the first instant
      after it. Nothing forces `start` to come before `end`: a mistyped row
      of the table gives a term whose `end` is earlier than its `start`. */
  datatype Term = Term(name: TermName, start: Instant, end: Instant)

  /** `now` lies in the half-open range from the term's start up to, but
      not including, its end. */
  predicate During(t: Term, now: Instant) {
    Le(t.start, now) && Lt(now, t.end)
  }

  /** A table row "name: first to last", both days inclusive: the term
      starts at midnight of its first day and ends at midnight of the day
      after its last day. */
  function MakeTerm(name: TermName, firstDay: int, lastDay: int): (r: Term)
    ensures r.name == name && r.start.sec == 0 && r.end.sec == 0
    ensures forall now: Instant :: During(r, now) <==> firstDay <= now.day <= lastDay
    ensures LooseStart(r) == Midnight(MondayOnOrBefore(firstDay))
    ensures LooseEnd(r) == Midnight(MondayOnOrAfter(lastDay + 1))
    ensures forall now: Instant :: InStrict(r, now) <==>
      (firstDay <= now.day <= lastDay) || (firstDay <= lastDay + 1 && now == Midnight(lastDay + 1))
  {
    Term(name, Midnight(firstDay), Midnight(lastDay + 1))
  }

  /** Midnight of the Monday on or before the start's date. */
  function LooseStart(t: Term): (s: Instant)
    ensures s.sec == 0 && Weekday(s.day) == Monday
    ensures Le(s, t.start) && t.start.day - s.day < 7
    ensures Weekday(t.start.day) == Monday ==> s == Midnight(t.start.day)
  {
    Midnight(MondayOnOrBefore(t.start.day))
  }

  /** Midnight of the Monday on or after the end's date. */
  function LooseEnd(t: Term): (e: Instant)
    ensures e.sec == 0 && Weekday(e.day) == Monday
    ensures t.end.day <= e.day < t.end.day + 7
    ensures t.end.sec == 0 ==> Le(t.end, e)
    ensures Weekday(t.end.day) == Monday ==> e == Midnight(t.end.day)
  {
    Midnight(MondayOnOrAfter(t.end.day))
  }

  /** The strict test of the source: `start <= now <= end`. It is inclusive
      at `end`, so the midnight after the last day still passes it. */
  predicate InStrict(t: Term, now: Instant) {
    Le(t.start, now) && Le(now, t.end)
  }

  /** The loose test: `loose_start <= now <= loose_end`. */
  predicate InLoose(t: Term, now: Instant) {
    Le(LooseStart(t), now) && Le(now, LooseEnd(t))
  }

  /** The loop of `loose_start`: step back one day at a time until the day
      is a Monday. It takes fewer than seven steps, none when `day` is
      already a Monday, and stops at the Monday of `day`'s own week. */
  method WalkBackToMonday(day: int) returns (m: int, steps: nat)
    ensures m == MondayOnOrBefore(day)
    ensures steps == day - m && steps < 7
    ensures steps == 0 <==> Weekday(day) == Monday
  {
    m, steps := day, 0;
    while Weekday(m) != Monday
      invariant steps == day - m
      invariant MondayOnOrBefore(m) == MondayOnOrBefore(day)
      decreases m - MondayOnOrBefore(day)
    {
      m, steps := m - 1, steps + 1;
    }
    MondayOnOrBeforeUnique(m, m);
  }

  /** The loop of `loose_end`: step forward one day at a time until the day
      is a Monday. */
  method WalkForwardToMonday(day: int) returns (m: int, steps: nat)
    ensures m == MondayOnOrAfter(day)
    ensures steps == m - day && steps < 7
    ensures steps == 0 <==> Weekday(day) == Monday
  {
    m, steps := day, 0;
    while Weekday(m) != Monday
      invariant steps == m - day
      invariant MondayOnOrAfter(m) == MondayOnOrAfter(day)
      decreases MondayOnOrAfter(day) - m
    {
      m, steps := m + 1, steps + 1;
    }
    MondayOnOrAfterUnique(m, m);
  }

  /** A row contains some instant of its own days exactly when its last day
      is not before its first day; an inverted row contains none. */
  lemma MakeTermEmptyExactlyWhenInverted(name: TermName, firstDay: int, lastDay: int)
    ensures (exists now: Instant :: During(MakeTerm(name, firstDay, lastDay), now)) <==> firstDay <= lastDay
  {
    if firstDay <= lastDay {
      assert During(MakeTerm(name, firstDay, lastDay), Midnight(firstDay));
    }
  }

  /** Because the strict test is inclusive at `end`, it admits one instant
      more than the half-open range of a row: midnight after the last day,
      whenever the last day is at most one day before the first. A row
      inverted by exactly one day has an empty half-open range, so that
      midnight is the only instant it admits. */
  lemma StrictTestAddsOneMidnight(name: TermName, firstDay: int, lastDay: int, now: Instant)
    ensures var t := MakeTerm(name, firstDay, lastDay);
      (InStrict(t, now) && !During(t, now)) <==> (firstDay <= lastDay + 1 && now == Midnight(lastDay + 1))
  {
  }

  /** Every instant of the strict range lies in the loose range, for a term
      that ends at a midnight as every table row does. */
  lemma StrictWithinLoose(t: Term, now: Instant)
    requires t.end.sec == 0
    requires InStrict(t, now)
    ensures InLoose(t, now)
  {
  }

  /** A row whose rounded-out range is empty matches nothing, strictly or
      loosely. This is what happens to a row whose end date is typed many
      weeks before its start date. */
  lemma EmptyLooseRangeMatchesNothing(t: Term, now: Instant)
    requires Lt(LooseEnd(t), LooseStart(t))
    ensures !InLoose(t, now) && !InStrict(t, now)
  {
  }
}
