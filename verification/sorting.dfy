/** Sorting the table by start instant before it is queried. */
module Sorting {
  import opened Civil
  import opened Terms

  predicate SortedByStart(s: seq<Term>) {
    forall i, j :: 0 <= i < j < |s| ==> Le(s[i].start, s[j].start)
  }

  /** Insert `t` into a sorted sequence, before the first term that does
      not start earlier than it. */
  function InsertByStart(t: Term, s: seq<Term>): (r: seq<Term>)
    requires SortedByStart(s)
    ensures SortedByStart(r)
    ensures multiset(r) == multiset(s) + multiset{t}
    ensures |r| == |s| + 1
    ensures forall k :: 0 <= k < |r| ==> r[k] == t || r[k] in s
  {
    if |s| == 0 then [t]
    else if Le(t.start, s[0].start) then [t] + s
    else
      var rest := InsertByStart(t, s[1..]);
      assert s == [s[0]] + s[1..];
      assert forall k :: 0 <= k < |rest| ==> Le(s[0].start, rest[k].start) by {
        forall k | 0 <= k < |rest|
          ensures Le(s[0].start, rest[k].start)
        {
          if rest[k] != t {
            var j :| 0 <= j < |s[1..]| && s[1..][j] == rest[k];
            assert s[j + 1] == rest[k];
          }
        }
      }
      [s[0]] + rest
  }

  /** `sort_unstable_by_key(|term| term.start())`: a rearrangement of the
      table whose start instants never decrease. */
  function SortByStart(s: seq<Term>): (r: seq<Term>)
    ensures SortedByStart(r)
    ensures multiset(r) == multiset(s)
    ensures |r| == |s|
  {
    if |s| == 0 then []
    else
      assert s == [s[0]] + s[1..];
      InsertByStart(s[0], SortByStart(s[1..]))
  }

  /** Sorting neither adds nor drops a term. */
  lemma SortKeepsMembers(s: seq<Term>)
    ensures forall t :: t in SortByStart(s) <==> t in s
  {
    var r := SortByStart(s);
    forall t
      ensures t in r <==> t in s
    {
      assert t in r <==> t in multiset(r);
      assert t in s <==> t in multiset(s);
    }
  }

  /** A table that is already in start order, with no two rows starting at
      the same instant, comes back from the sort unchanged. */
  lemma {:induction false} SortKeepsStrictlySortedTable(s: seq<Term>)
    requires forall i, j :: 0 <= i < j < |s| ==> Lt(s[i].start, s[j].start)
    ensures SortByStart(s) == s
  {
    if |s| > 0 {
      SortKeepsStrictlySortedTable(s[1..]);
      assert SortByStart(s[1..]) == s[1..];
      if |s| > 1 {
        assert Le(s[0].start, s[1].start);
      }
      assert s == [s[0]] + s[1..];
    }
  }
}
