/** Overlapping and touching regions become one
    (`crates/krit-assist/src/context.rs`). */
module Intervals {
  import opened Utf8
  import opened Wrappers

  datatype Interval = Interval(start: nat, end: nat, category: Text)

  predicate Ordered(s: seq<Interval>) {
    forall i :: 0 <= i < |s| ==> s[i].start <= s[i].end
  }

  predicate Contains(r: Interval, b: int) {
    r.start <= b < r.end
  }

  predicate Covered(s: seq<Interval>, b: int) {
    exists i :: 0 <= i < |s| && Contains(s[i], b)
  }

  // ----- The sort: by start, then by end descending, stable

  predicate Leq(a: Interval, b: Interval) {
    a.start < b.start || (a.start == b.start && a.end >= b.end)
  }

  predicate Sorted(s: seq<Interval>) {
    forall i, j :: 0 <= i < j < |s| ==> Leq(s[i], s[j])
  }

  function Insert(x: Interval, s: seq<Interval>): seq<Interval> {
    if s == [] || Leq(x, s[0]) then [x] + s else [s[0]] + Insert(x, s[1..])
  }

  /** `sort_by_key` on `(start, Reverse(end))`. */
  function Sort(s: seq<Interval>): seq<Interval> {
    if s == [] then [] else Insert(s[0], Sort(s[1..]))
  }

  lemma {:induction false} InsertSorted(x: Interval, s: seq<Interval>)
    requires Sorted(s)
    ensures Sorted(Insert(x, s)) && multiset(Insert(x, s)) == multiset(s) + multiset{x}
    decreases |s|
  {
    if s != [] && !Leq(x, s[0]) {
      InsertSorted(x, s[1..]);
      var rest := Insert(x, s[1..]);
      assert s == [s[0]] + s[1..];
      forall k | 0 <= k < |rest| ensures Leq(s[0], rest[k]) {
        InsertedFrom(x, s[1..], k);
        assert rest[k] != x ==> exists j :: 0 < j < |s| && s[j] == rest[k];
      }
    }
  }

  lemma InsertedFrom(x: Interval, s: seq<Interval>, k: nat)
    requires multiset(Insert(x, s)) == multiset(s) + multiset{x} && k < |Insert(x, s)|
    ensures Insert(x, s)[k] == x || Insert(x, s)[k] in s
  {
    var y := Insert(x, s)[k];
    assert y in multiset(Insert(x, s));
    assert y in multiset(s) ==> y in s;
  }

  lemma {:induction false} SortSorts(s: seq<Interval>)
    ensures Sorted(Sort(s)) && multiset(Sort(s)) == multiset(s)
  {
    if s != [] {
      SortSorts(s[1..]);
      InsertSorted(s[0], Sort(s[1..]));
      assert s == [s[0]] + s[1..];
    }
  }

  lemma CoveredByMultiset(a: seq<Interval>, c: seq<Interval>, b: int)
    requires multiset(a) == multiset(c)
    ensures Covered(a, b) <==> Covered(c, b)
  {
    if i :| 0 <= i < |a| && Contains(a[i], b) {
      assert a[i] in multiset(c);
      var j :| 0 <= j < |c| && c[j] == a[i];
      assert Contains(c[j], b);
    }
    if i :| 0 <= i < |c| && Contains(c[i], b) {
      assert c[i] in multiset(a);
      var j :| 0 <= j < |a| && a[j] == c[i];
      assert Contains(a[j], b);
    }
  }

  // ----- The contributor that opens a region

  /** Of the intervals that start at `p`, the longest; of those, the first. */
  function Opening(s: seq<Interval>, p: nat): Option<Interval> {
    if s == [] then None
    else
      var rest := Opening(s[1..], p);
      if s[0].start != p then rest
      else if rest.None? || s[0].end >= rest.value.end then Some(s[0])
      else rest
  }

  lemma {:induction false} OpeningStarts(s: seq<Interval>, p: nat)
    ensures Opening(s, p).Some? ==> Opening(s, p).value in s && Opening(s, p).value.start == p
  {
    if s != [] { OpeningStarts(s[1..], p); }
  }

  lemma {:induction false} OpeningOfInsert(x: Interval, s: seq<Interval>, p: nat)
    ensures Opening(Insert(x, s), p) == Opening([x] + s, p)
    decreases |s|
  {
    assert ([x] + s)[1..] == s;
    if s != [] && !Leq(x, s[0]) {
      OpeningOfInsert(x, s[1..], p);
      assert Insert(x, s)[1..] == Insert(x, s[1..]);
      assert ([x] + s[1..])[1..] == s[1..];
    }
  }

  /** The sort is stable, so it does not change which contributor opens. */
  lemma {:induction false} OpeningOfSort(s: seq<Interval>, p: nat)
    ensures Opening(Sort(s), p) == Opening(s, p)
  {
    if s != [] {
      OpeningOfSort(s[1..], p);
      OpeningOfInsert(s[0], Sort(s[1..]), p);
      assert ([s[0]] + Sort(s[1..]))[1..] == Sort(s[1..]);
    }
  }

  lemma OpeningOfSorted(s: seq<Interval>, i: nat)
    requires Sorted(s) && i < |s| && forall j :: 0 <= j < i ==> s[j].start < s[i].start
    ensures Opening(s, s[i].start) == Some(s[i])
    decreases i
  {
    if i > 0 {
      assert s[0].start < s[i].start;
      OpeningOfSorted(s[1..], i - 1);
    } else if |s| > 1 {
      OpeningStarts(s[1..], s[0].start);
      if Opening(s[1..], s[0].start).Some? {
        var k :| 0 <= k < |s[1..]| && s[1..][k] == Opening(s[1..], s[0].start).value;
        assert Leq(s[0], s[k + 1]);
      }
    }
  }

  // ----- The merge

  /** Every region ends strictly before the next one starts. */
  predicate Separated(s: seq<Interval>) {
    forall i, j :: 0 <= i < j < |s| ==> s[i].end < s[j].start
  }

  /** Each region keeps the category of the contributor that opens it. */
  predicate OpenedBy(merged: seq<Interval>, s: seq<Interval>) {
    forall i :: 0 <= i < |merged| ==>
      Opening(s, merged[i].start).Some? && Opening(s, merged[i].start).value.category == merged[i].category
  }

  predicate EndsAmong(s: seq<Interval>, end: nat) {
    exists k :: 0 <= k < |s| && s[k].end == end
  }

  /** Each region ends where some contributor ends. */
  predicate ClosedBy(merged: seq<Interval>, s: seq<Interval>) {
    forall i :: 0 <= i < |merged| ==> EndsAmong(s, merged[i].end)
  }

  lemma CoveredSnoc(s: seq<Interval>, x: Interval, b: int)
    ensures Covered(s + [x], b) <==> Covered(s, b) || Contains(x, b)
  {
    var t := s + [x];
    if i :| 0 <= i < |s| && Contains(s[i], b) { assert Contains(t[i], b); }
    if Contains(x, b) { assert Contains(t[|s|], b); }
    if i :| 0 <= i < |t| && Contains(t[i], b) {
      if i < |s| { assert Contains(s[i], b); }
    }
  }

  /** Extending the last region by one that starts inside or right after it. */
  lemma CoveredExtend(s: seq<Interval>, last: Interval, x: Interval, end: nat, b: int)
    requires last.start <= x.start <= last.end <= end && end == (if x.end > last.end then x.end else last.end)
    ensures Covered(s + [last.(end := end)], b) <==> Covered(s + [last], b) || Contains(x, b)
  {
    CoveredSnoc(s, last, b);
    CoveredSnoc(s, last.(end := end), b);
  }

  /** What the loop keeps after taking in `taken` of the sorted intervals. */
  ghost predicate Merging(merged: seq<Interval>, taken: seq<Interval>, sorted: seq<Interval>) {
    && Ordered(merged) && Separated(merged) && OpenedBy(merged, sorted) && ClosedBy(merged, sorted)
    && (forall b :: Covered(merged, b) <==> Covered(taken, b))
    && (taken == [] ==> merged == [])
    && (taken != [] ==> merged != [] && merged[|merged| - 1].start <= taken[|taken| - 1].start)
    && (forall i :: 0 <= i < |taken| ==> merged != [] && taken[i].end <= merged[|merged| - 1].end)
  }

  lemma MergeExtend(merged: seq<Interval>, sorted: seq<Interval>, i: nat, end: nat)
    requires Sorted(sorted) && Ordered(sorted) && i < |sorted| && Merging(merged, sorted[..i], sorted)
    requires merged != [] && sorted[i].start <= merged[|merged| - 1].end
    requires end == (if sorted[i].end > merged[|merged| - 1].end then sorted[i].end else merged[|merged| - 1].end)
    ensures Merging(merged[..|merged| - 1] + [merged[|merged| - 1].(end := end)], sorted[..i + 1], sorted)
  {
    var front, last, x := merged[..|merged| - 1], merged[|merged| - 1], sorted[i];
    assert merged == front + [last];
    assert sorted[..i + 1] == sorted[..i] + [x];
    assert i > 0 && Leq(sorted[i - 1], x) && sorted[..i][i - 1] == sorted[i - 1];
    forall b ensures Covered(front + [last.(end := end)], b) <==> Covered(sorted[..i + 1], b) {
      CoveredExtend(front, last, x, end, b);
      CoveredSnoc(sorted[..i], x, b);
    }
    var merged' := front + [last.(end := end)];
    assert EndsAmong(sorted, x.end) && EndsAmong(sorted, last.end);
    forall k | 0 <= k < |merged'| ensures EndsAmong(sorted, merged'[k].end) {
      if k < |front| { assert merged'[k] == merged[k]; }
    }
    forall k | 0 <= k < |merged'|
      ensures Opening(sorted, merged'[k].start).Some?
      ensures Opening(sorted, merged'[k].start).value.category == merged'[k].category
    {
      assert merged'[k].start == merged[k].start && merged'[k].category == merged[k].category;
    }
  }

  lemma PushApart(merged: seq<Interval>, x: Interval)
    requires Ordered(merged) && Separated(merged) && x.start <= x.end
    requires merged != [] ==> merged[|merged| - 1].end < x.start
    ensures Ordered(merged + [x]) && Separated(merged + [x])
  {
    forall k | 0 <= k < |merged| ensures merged[k].end < x.start {
      if k < |merged| - 1 { assert merged[k].end < merged[|merged| - 1].start; }
    }
  }

  lemma PushFrom(merged: seq<Interval>, x: Interval, sorted: seq<Interval>)
    requires OpenedBy(merged, sorted) && ClosedBy(merged, sorted)
    requires Opening(sorted, x.start) == Some(x) && EndsAmong(sorted, x.end)
    ensures OpenedBy(merged + [x], sorted) && ClosedBy(merged + [x], sorted)
  {
    var merged' := merged + [x];
    forall k | 0 <= k < |merged'|
      ensures Opening(sorted, merged'[k].start).Some?
      ensures Opening(sorted, merged'[k].start).value.category == merged'[k].category
      ensures EndsAmong(sorted, merged'[k].end)
    {
      assert k < |merged| ==> merged'[k] == merged[k];
    }
  }

  /** What opens after everything merged so far also begins after it. */
  lemma PushIsFirst(merged: seq<Interval>, sorted: seq<Interval>, i: nat)
    requires Sorted(sorted) && Ordered(sorted) && i < |sorted| && Merging(merged, sorted[..i], sorted)
    requires merged != [] ==> merged[|merged| - 1].end < sorted[i].start
    ensures Opening(sorted, sorted[i].start) == Some(sorted[i])
    ensures forall j :: 0 <= j < i ==> sorted[j].end < sorted[i].start
  {
    forall j | 0 <= j < i ensures sorted[j].end < sorted[i].start {
      assert sorted[..i][j] == sorted[j];
    }
    assert forall j :: 0 <= j < i ==> sorted[j].start <= sorted[j].end;
    OpeningOfSorted(sorted, i);
  }

  lemma PushCovers(merged: seq<Interval>, taken: seq<Interval>, x: Interval, b: int)
    requires Covered(merged, b) <==> Covered(taken, b)
    ensures Covered(merged + [x], b) <==> Covered(taken + [x], b)
  {
    CoveredSnoc(merged, x, b);
    CoveredSnoc(taken, x, b);
  }

  lemma MergePush(merged: seq<Interval>, sorted: seq<Interval>, i: nat)
    requires Sorted(sorted) && Ordered(sorted) && i < |sorted| && Merging(merged, sorted[..i], sorted)
    requires merged != [] ==> merged[|merged| - 1].end < sorted[i].start
    ensures Merging(merged + [sorted[i]], sorted[..i + 1], sorted)
  {
    var x, taken := sorted[i], sorted[..i];
    assert sorted[..i + 1] == taken + [x];
    PushApart(merged, x);
    PushIsFirst(merged, sorted, i);
    assert EndsAmong(sorted, x.end);
    PushFrom(merged, x, sorted);
    forall b ensures Covered(merged + [x], b) <==> Covered(taken + [x], b) { PushCovers(merged, taken, x, b); }
    assert forall j :: 0 <= j < |taken| ==> taken[j] == sorted[j];
  }

  /** `merge_sensitive_intervals`: the regions of the result are apart, they
      cover exactly the bytes the input covers, and each carries the category of
      the contributor that opens it.  The test for a wider contributor never
      succeeds, because the region already contains the candidate. */
  method MergeSensitiveIntervals(intervals: seq<Interval>) returns (merged: seq<Interval>)
    requires Ordered(intervals)
    ensures Ordered(merged) && Separated(merged) && OpenedBy(merged, intervals) && ClosedBy(merged, intervals)
    ensures forall b :: Covered(merged, b) <==> Covered(intervals, b)
  {
    var sorted := Sort(intervals);
    SortSorts(intervals);
    SameMembers(intervals, sorted);
    merged := [];
    for i := 0 to |sorted|
      invariant Merging(merged, sorted[..i], sorted)
    {
      var x := sorted[i];
      if merged != [] && x.start <= merged[|merged| - 1].end {
        var last := merged[|merged| - 1];
        var end := if x.end > last.end then x.end else last.end;
        MergeExtend(merged, sorted, i, end);
        var existingWidth, candidateWidth := end - last.start, x.end - x.start;
        var category :=
          if last.category != x.category && candidateWidth > existingWidth then x.category else last.category;
        merged := merged[..|merged| - 1] + [Interval(last.start, end, category)];
      } else {
        MergePush(merged, sorted, i);
        merged := merged + [x];
      }
    }
    assert sorted[..|sorted|] == sorted;
    forall b ensures Covered(merged, b) <==> Covered(intervals, b) { CoveredByMultiset(intervals, sorted, b); }
    forall i | 0 <= i < |merged|
      ensures Opening(intervals, merged[i].start).Some?
      ensures Opening(intervals, merged[i].start).value.category == merged[i].category
    {
      OpeningOfSort(intervals, merged[i].start);
    }
    forall i | 0 <= i < |merged| ensures EndsAmong(intervals, merged[i].end) {
      SameEnds(intervals, sorted, merged[i].end);
    }
  }

  lemma SameEnds(a: seq<Interval>, c: seq<Interval>, end: nat)
    requires multiset(a) == multiset(c) && EndsAmong(c, end)
    ensures EndsAmong(a, end)
  {
    var k :| 0 <= k < |c| && c[k].end == end;
    assert c[k] in multiset(a);
    var j :| 0 <= j < |a| && a[j] == c[k];
  }

  lemma SameMembers(a: seq<Interval>, c: seq<Interval>)
    requires multiset(a) == multiset(c) && Ordered(a)
    ensures Ordered(c)
  {
    forall i | 0 <= i < |c| ensures c[i].start <= c[i].end {
      assert c[i] in multiset(a);
    }
  }
}
