/** Merging overlapping and touching matches into maximal intervals. */
module Intervals {
  import opened Vocabulary

  datatype Interval = Interval(start: int, end: int)

  predicate Covered(matches: seq<MatchItem>, k: int) {
    exists m <- matches :: m.position <= k < m.endPos
  }

  predicate CoveredBy(ivs: seq<Interval>, k: int) {
    exists iv <- ivs :: iv.start <= k < iv.end
  }

  ghost predicate AllNonempty(matches: seq<MatchItem>) {
    forall m <- matches :: m.position < m.endPos
  }

  /** Nonempty intervals in ascending order with a gap between any two. */
  ghost predicate Separated(ivs: seq<Interval>) {
    && (forall a | 0 <= a < |ivs| :: ivs[a].start < ivs[a].end)
    && (forall a, b | 0 <= a < b < |ivs| :: ivs[a].end < ivs[b].start)
  }

  /** The canonical union of the matches. */
  ghost predicate Canonical(ivs: seq<Interval>, matches: seq<MatchItem>) {
    Separated(ivs) && forall k :: Covered(matches, k) <==> CoveredBy(ivs, k)
  }

  ghost predicate SortedByPosition(s: seq<MatchItem>) {
    forall a, b | 0 <= a < b < |s| :: s[a].position <= s[b].position
  }

  /** `sorted` is some outcome of an unstable sort: matches that start together may come in any order. */
  ghost predicate SortedCopy(matches: seq<MatchItem>, sorted: seq<MatchItem>) {
    SortedByPosition(sorted) && multiset(sorted) == multiset(matches)
  }

  /** Stands for the library sort; callers rely on nothing but `SortedCopy`. */
  method SortByPosition(matches: seq<MatchItem>) returns (sorted: seq<MatchItem>)
    ensures SortedCopy(matches, sorted)
  {
    sorted := [];
    for i := 0 to |matches|
      invariant SortedCopy(matches[..i], sorted)
    {
      assert matches[..i + 1] == matches[..i] + [matches[i]];
      InsertKeeps(sorted, matches[i]);
      InsertSorts(sorted, matches[i]);
      sorted := Insert(sorted, matches[i]);
    }
    assert matches[..|matches|] == matches;
  }

  function Insert(s: seq<MatchItem>, m: MatchItem): seq<MatchItem> {
    if s == [] || Last(s).position <= m.position then s + [m] else Insert(Init(s), m) + [Last(s)]
  }

  lemma {:induction false} InsertKeeps(s: seq<MatchItem>, m: MatchItem)
    ensures multiset(Insert(s, m)) == multiset(s) + multiset{m}
  {
    if s != [] && Last(s).position > m.position {
      InsertKeeps(Init(s), m);
      assert s == Init(s) + [Last(s)];
    }
  }

  lemma {:induction false} InsertBelow(s: seq<MatchItem>, m: MatchItem, top: int)
    requires m.position <= top && forall a | 0 <= a < |s| :: s[a].position <= top
    ensures forall a | 0 <= a < |Insert(s, m)| :: Insert(s, m)[a].position <= top
  {
    if s != [] && Last(s).position > m.position {
      InsertBelow(Init(s), m, top);
    }
  }

  lemma {:induction false} InsertSorts(s: seq<MatchItem>, m: MatchItem)
    requires SortedByPosition(s)
    ensures SortedByPosition(Insert(s, m))
  {
    if s != [] && Last(s).position > m.position {
      InsertSorts(Init(s), m);
      InsertBelow(Init(s), m, Last(s).position);
    }
  }

  /** Appends one match to intervals that are already merged. */
  function Extend(ivs: seq<Interval>, m: MatchItem): seq<Interval>
    requires ivs != []
  {
    var last := Last(ivs);
    if m.position > last.end then ivs + [Interval(m.position, m.endPos)]
    else if m.endPos > last.end then Init(ivs) + [Interval(last.start, m.endPos)]
    else ivs
  }

  /** Merging a sorted list from left to right. */
  function Merge(sorted: seq<MatchItem>): (ivs: seq<Interval>)
    requires sorted != []
    ensures ivs != []
  {
    if |sorted| == 1 then [Interval(sorted[0].position, sorted[0].endPos)]
    else Extend(Merge(Init(sorted)), Last(sorted))
  }

  method MergeIntervals(matches: seq<MatchItem>) returns (intervals: seq<Interval>, ghost sorted: seq<MatchItem>)
    ensures SortedCopy(matches, sorted)
    ensures intervals == if matches == [] then [] else Merge(sorted)
    ensures AllNonempty(matches) ==> Canonical(intervals, matches)
  {
    if |matches| == 0 {
      return [], [];
    }
    var copy := SortByPosition(matches);
    sorted := copy;
    assert |copy| == |multiset(matches)| == |matches|;
    intervals := [Interval(copy[0].position, copy[0].endPos)];
    for i := 1 to |copy|
      invariant intervals == Merge(copy[..i])
    {
      var m := copy[i];
      var last := Last(intervals);
      assert Init(copy[..i + 1]) == copy[..i];
      if m.position <= last.end {
        if m.endPos > last.end {
          intervals := intervals[|intervals| - 1 := Interval(last.start, m.endPos)];
        }
      } else {
        intervals := intervals + [Interval(m.position, m.endPos)];
      }
    }
    assert copy[..|copy|] == copy;
    if AllNonempty(matches) {
      SameMembers(matches, sorted);
      MergeIsCanonical(sorted);
    }
  }

  lemma SameMembers(a: seq<MatchItem>, b: seq<MatchItem>)
    requires multiset(a) == multiset(b)
    ensures forall m :: m in a <==> m in b
    ensures forall k :: Covered(a, k) <==> Covered(b, k)
  {
    forall m ensures m in a <==> m in b {
      assert m in multiset(a) <==> m in multiset(b);
    }
  }

  lemma {:induction false} MergeIsCanonical(sorted: seq<MatchItem>)
    requires sorted != [] && SortedByPosition(sorted) && AllNonempty(sorted)
    ensures Canonical(Merge(sorted), sorted)
    ensures Last(Merge(sorted)).start <= Last(sorted).position
  {
    if |sorted| == 1 {
      SingleIsCanonical(sorted);
    } else {
      hide Canonical, SortedByPosition, AllNonempty, Extend;
      var before, m := Init(sorted), Last(sorted);
      assert sorted == before + [m];
      SortedTail(before, m);
      MergeIsCanonical(before);
      ExtendIsCanonical(Merge(before), before, m);
    }
  }

  lemma SingleIsCanonical(sorted: seq<MatchItem>)
    requires |sorted| == 1 && AllNonempty(sorted)
    ensures Canonical(Merge(sorted), sorted) && Last(Merge(sorted)).start <= Last(sorted).position
  {
    assert sorted[0] in sorted;
  }

  lemma SortedTail(before: seq<MatchItem>, m: MatchItem)
    requires before != [] && SortedByPosition(before + [m]) && AllNonempty(before + [m])
    ensures SortedByPosition(before) && AllNonempty(before)
    ensures Last(before).position <= m.position < m.endPos
  {
    var sorted, n := before + [m], |before|;
    assert sorted[n] == m && sorted[n] in sorted && sorted[n - 1] == Last(before);
    assert forall k | 0 <= k < n :: before[k] == sorted[k];
    forall x <- before ensures x in sorted {
    }
  }

  lemma ExtendIsCanonical(ivs: seq<Interval>, matches: seq<MatchItem>, m: MatchItem)
    requires ivs != [] && Canonical(ivs, matches)
    requires m.position < m.endPos && Last(ivs).start <= m.position
    ensures Canonical(Extend(ivs, m), matches + [m])
    ensures Last(Extend(ivs, m)).start <= m.position
  {
    hide Extend, Separated, Covered, CoveredBy;
    ExtendIsSeparated(ivs, m);
    forall k ensures Covered(matches + [m], k) <==> CoveredBy(Extend(ivs, m), k) {
      ExtendCovers(ivs, m, k);
      CoveredSnoc(matches, m, k);
    }
  }

  lemma ExtendIsSeparated(ivs: seq<Interval>, m: MatchItem)
    requires ivs != [] && Separated(ivs) && m.position < m.endPos && Last(ivs).start <= m.position
    ensures Separated(Extend(ivs, m)) && Last(Extend(ivs, m)).start <= m.position
  {
  }

  lemma ExtendCovers(ivs: seq<Interval>, m: MatchItem, k: int)
    requires ivs != [] && Last(ivs).start <= m.position
    ensures CoveredBy(Extend(ivs, m), k) <==> CoveredBy(ivs, k) || m.position <= k < m.endPos
  {
    hide CoveredBy;
    var last := Last(ivs);
    assert ivs == Init(ivs) + [last];
    CoverOfSnoc(Init(ivs), last, k);
    CoverOfSnoc(ivs, Interval(m.position, m.endPos), k);
    CoverOfSnoc(Init(ivs), Interval(last.start, m.endPos), k);
  }

  lemma CoveredSnoc(matches: seq<MatchItem>, m: MatchItem, k: int)
    ensures Covered(matches + [m], k) <==> Covered(matches, k) || m.position <= k < m.endPos
  {
    assert m in matches + [m];
  }

  lemma CoverOfSnoc(ivs: seq<Interval>, iv: Interval, k: int)
    ensures CoveredBy(ivs + [iv], k) <==> CoveredBy(ivs, k) || iv.start <= k < iv.end
  {
    assert iv in ivs + [iv];
  }

  /** Two separated lists that cover the same positions are the same list. */
  lemma {:induction false} SeparatedIsUnique(a: seq<Interval>, b: seq<Interval>)
    requires Separated(a) && Separated(b)
    requires forall k :: CoveredBy(a, k) <==> CoveredBy(b, k)
    ensures a == b
  {
    if a == [] || b == [] {
      assert a != [] ==> CoveredBy(a, a[0].start);
      assert b != [] ==> CoveredBy(b, b[0].start);
    } else {
      TailsAgree(a, b);
      SeparatedIsUnique(a[1..], b[1..]);
      assert a == [a[0]] + a[1..] && b == [b[0]] + b[1..];
    }
  }

  lemma CoverOfTail(ivs: seq<Interval>, k: int)
    requires Separated(ivs) && ivs != []
    ensures CoveredBy(ivs[1..], k) <==> CoveredBy(ivs, k) && k > ivs[0].end
  {
    if CoveredBy(ivs, k) && k > ivs[0].end {
      var a :| 0 <= a < |ivs| && ivs[a].start <= k < ivs[a].end;
      assert ivs[1..][a - 1] == ivs[a];
    }
    if CoveredBy(ivs[1..], k) {
      var a :| 0 <= a < |ivs[1..]| && ivs[1..][a].start <= k < ivs[1..][a].end;
      assert ivs[a + 1] in ivs;
    }
  }

  lemma FirstAgrees(a: seq<Interval>, b: seq<Interval>)
    requires Separated(a) && Separated(b) && a != [] && b != []
    requires forall k :: CoveredBy(a, k) <==> CoveredBy(b, k)
    ensures a[0].start >= b[0].start
    ensures a[0].start == b[0].start ==> a[0].end <= b[0].end
  {
    assert a[0] in a && CoveredBy(a, a[0].start);
    var x :| 0 <= x < |b| && b[x].start <= a[0].start < b[x].end;
    assert !CoveredBy(b, b[0].end);
    assert a[0].start == b[0].start && a[0].end > b[0].end ==> CoveredBy(a, b[0].end);
  }

  lemma TailsAgree(a: seq<Interval>, b: seq<Interval>)
    requires Separated(a) && Separated(b) && a != [] && b != []
    requires forall k :: CoveredBy(a, k) <==> CoveredBy(b, k)
    ensures a[0] == b[0]
    ensures Separated(a[1..]) && Separated(b[1..])
    ensures forall k :: CoveredBy(a[1..], k) <==> CoveredBy(b[1..], k)
  {
    FirstAgrees(a, b);
    FirstAgrees(b, a);
    forall k ensures CoveredBy(a[1..], k) <==> CoveredBy(b[1..], k) {
      CoverOfTail(a, k);
      CoverOfTail(b, k);
    }
  }

  /** The union does not depend on the order of the matches, nor on how the sort breaks ties. */
  lemma MergeIgnoresOrder(a: seq<MatchItem>, b: seq<MatchItem>)
    requires a != [] && b != [] && multiset(a) == multiset(b) && AllNonempty(a)
    requires SortedByPosition(a) && SortedByPosition(b)
    ensures Merge(a) == Merge(b)
  {
    SameMembers(a, b);
    MergeIsCanonical(a);
    MergeIsCanonical(b);
    SeparatedIsUnique(Merge(a), Merge(b));
  }

  /** Any list of intervals that is separated and covers the same positions is the merged one. */
  lemma CanonicalIsMerged(sorted: seq<MatchItem>, ivs: seq<Interval>)
    requires sorted != [] && SortedByPosition(sorted) && AllNonempty(sorted)
    ensures Canonical(ivs, sorted) <==> ivs == Merge(sorted)
  {
    MergeIsCanonical(sorted);
    if Canonical(ivs, sorted) {
      SeparatedIsUnique(ivs, Merge(sorted));
    }
  }

  /** One particular sorted copy. */
  function Sorted(matches: seq<MatchItem>): (sorted: seq<MatchItem>)
    ensures |sorted| == |matches|
  {
    if matches == [] then [] else
      InsertLength(Sorted(Init(matches)), Last(matches));
      Insert(Sorted(Init(matches)), Last(matches))
  }

  lemma {:induction false} InsertLength(s: seq<MatchItem>, m: MatchItem)
    ensures |Insert(s, m)| == |s| + 1
  {
    if s != [] && Last(s).position > m.position {
      InsertLength(Init(s), m);
    }
  }

  lemma {:induction false} SortedIsSorted(matches: seq<MatchItem>)
    ensures SortedByPosition(Sorted(matches))
  {
    hide Insert;
    if matches != [] {
      SortedIsSorted(Init(matches));
      InsertSorts(Sorted(Init(matches)), Last(matches));
    }
  }

  lemma {:induction false} SortedKeeps(matches: seq<MatchItem>)
    ensures multiset(Sorted(matches)) == multiset(matches)
  {
    hide Insert;
    if matches != [] {
      SortedKeeps(Init(matches));
      InsertKeeps(Sorted(Init(matches)), Last(matches));
      assert matches == Init(matches) + [Last(matches)];
    }
  }

  /** The union of the matches as a function of the matches alone. */
  function UnionOf(matches: seq<MatchItem>): seq<Interval> {
    if matches == [] then [] else Merge(Sorted(matches))
  }

  lemma UnionIsCanonical(matches: seq<MatchItem>, ivs: seq<Interval>)
    requires AllNonempty(matches)
    ensures Canonical(ivs, matches) <==> ivs == UnionOf(matches)
  {
    if matches == [] {
      assert ivs != [] && Separated(ivs) ==> CoveredBy(ivs, ivs[0].start);
    } else {
      SortedIsSorted(matches);
      SortedKeeps(matches);
      SameMembers(matches, Sorted(matches));
      CanonicalIsMerged(Sorted(matches), ivs);
    }
  }
}
