/** The two term queries: keep the terms that contain `now`, loosely or
    strictly, and answer with the last one kept. Answers are indices into
    the table. */
module Resolution {
  import opened Wrappers
  import opened Civil
  import opened Terms

  datatype Containment = Loose | Strict

  predicate Contains(mode: Containment, t: Term, now: Instant) {
    match mode
    case Loose => InLoose(t, now)
    case Strict => InStrict(t, now)
  }

  /** Filter-then-last: the greatest index whose term contains `now`, or
      None when no term does. */
  function LastMatch(mode: Containment, terms: seq<Term>, now: Instant): (r: Option<nat>)
    ensures r.Some? ==> r.value < |terms| && Contains(mode, terms[r.value], now)
    ensures r.Some? ==> forall j :: r.value < j < |terms| ==> !Contains(mode, terms[j], now)
    ensures r.None? <==> forall j :: 0 <= j < |terms| ==> !Contains(mode, terms[j], now)
    decreases |terms|
  {
    if |terms| == 0 then None
    else if Contains(mode, terms[|terms| - 1], now) then Some(|terms| - 1)
    else LastMatch(mode, terms[..|terms| - 1], now)
  }

  /** `get_term`: the last term whose loose range contains `now`. */
  function GetTerm(terms: seq<Term>, now: Instant): (r: Option<nat>)
    ensures r.Some? ==> r.value < |terms| && InLoose(terms[r.value], now)
    ensures r.Some? ==> forall j :: r.value < j < |terms| ==> !InLoose(terms[j], now)
    ensures r.None? <==> forall j :: 0 <= j < |terms| ==> !InLoose(terms[j], now)
  {
    LastMatch(Loose, terms, now)
  }

  /** `get_strict_term`: the last term whose strict range contains `now`. */
  function GetStrictTerm(terms: seq<Term>, now: Instant): (r: Option<nat>)
    ensures r.Some? ==> r.value < |terms| && InStrict(terms[r.value], now)
    ensures r.Some? ==> forall j :: r.value < j < |terms| ==> !InStrict(terms[j], now)
    ensures r.None? <==> forall j :: 0 <= j < |terms| ==> !InStrict(terms[j], now)
  {
    LastMatch(Strict, terms, now)
  }

  /** Any index with the last-match property is the answer: the
      characterisation in the contract of `LastMatch` fixes it uniquely. */
  lemma LastMatchUnique(mode: Containment, terms: seq<Term>, now: Instant, i: nat)
    requires i < |terms| && Contains(mode, terms[i], now)
    requires forall j :: i < j < |terms| ==> !Contains(mode, terms[j], now)
    ensures LastMatch(mode, terms, now) == Some(i)
  {
  }

  /** Every term of the table ends at a midnight, as each row built from
      inclusive days does. */
  predicate EndsAtMidnight(terms: seq<Term>) {
    forall k :: 0 <= k < |terms| ==> terms[k].end.sec == 0
  }

  /** If some term strictly contains `now`, some term loosely contains it,
      and the loose answer is not earlier in the table than the strict one. */
  lemma StrictAnswerBoundsLoose(terms: seq<Term>, now: Instant)
    requires EndsAtMidnight(terms)
    requires GetStrictTerm(terms, now).Some?
    ensures GetTerm(terms, now).Some?
    ensures GetTerm(terms, now).value >= GetStrictTerm(terms, now).value
  {
    var i := GetStrictTerm(terms, now).value;
    StrictWithinLoose(terms[i], now);
  }

  /** The table is separated when every term ends before the loose start of
      every later term. Sorted, non-overlapping rows a few weeks apart are
      separated, and so is a row whose loose range is empty. */
  predicate Separated(terms: seq<Term>) {
    forall i, k :: 0 <= i < k < |terms| ==> Lt(terms[i].end, LooseStart(terms[k]))
  }

  /** On a separated table the two queries agree whenever the strict one
      answers: the equality the program asserts before printing. */
  lemma SeparatedQueriesAgree(terms: seq<Term>, now: Instant)
    requires EndsAtMidnight(terms) && Separated(terms)
    requires GetStrictTerm(terms, now).Some?
    ensures GetTerm(terms, now) == GetStrictTerm(terms, now)
  {
    var i := GetStrictTerm(terms, now).value;
    StrictWithinLoose(terms[i], now);
    forall k | i < k < |terms|
      ensures !InLoose(terms[k], now)
    {
      assert Lt(terms[i].end, LooseStart(terms[k]));
    }
    LastMatchUnique(Loose, terms, now, i);
  }
}
