/** Rewriting a selected slice so that sensitive regions become markers
    (`crates/krit-assist/src/context.rs`). */
module RedactSlice {
  import opened Utf8
  import opened Intervals

  datatype Redaction = Redaction(start: nat, end: nat, category: Text, replacement: Text)

  /** `<redacted:category>` */
  function Marker(category: Text): Text {
    [0x3C, 0x72, 0x65, 0x64, 0x61, 0x63, 0x74, 0x65, 0x64, 0x3A] + category + [0x3E]
  }

  // ----- What the slice should be

  /** The sensitive regions cut to the selection; what is left empty is dropped. */
  function Clipped(sensitive: seq<Interval>, lo: nat, hi: nat): seq<Interval> {
    if sensitive == [] then []
    else
      var r := sensitive[0];
      var start := if r.start > lo then r.start else lo;
      var end := if r.end < hi then r.end else hi;
      (if start < end then [Interval(start, end, r.category)] else []) + Clipped(sensitive[1..], lo, hi)
  }

  /** Byte by byte: a byte outside every region is kept, and the first byte of
      each run of sensitive bytes becomes the marker of the region that opens
      the run. */
  function Reference(source: Text, regions: seq<Interval>, lo: nat, hi: nat, p: nat): Text
    requires lo <= p <= hi <= |source|
    decreases hi - p
  {
    if p == hi then [] else Piece(source[p], regions, lo, p) + Reference(source, regions, lo, hi, p + 1)
  }

  /** What the byte at `p` leaves. */
  function Piece(byte: Byte, regions: seq<Interval>, lo: nat, p: nat): Text {
    if !Covered(regions, p) then [byte]
    else if (p == lo || !Covered(regions, p - 1)) && Opening(regions, p).Some?
    then Marker(Opening(regions, p).value.category)
    else []
  }

  // ----- Clipping

  lemma {:induction false} ClippedOrdered(sensitive: seq<Interval>, lo: nat, hi: nat)
    ensures Ordered(Clipped(sensitive, lo, hi))
    ensures forall i :: 0 <= i < |Clipped(sensitive, lo, hi)| ==>
              var r := Clipped(sensitive, lo, hi)[i]; lo <= r.start < r.end <= hi
  {
    if sensitive != [] { ClippedOrdered(sensitive[1..], lo, hi); }
  }

  lemma CoveredCons(r: Interval, s: seq<Interval>, b: int)
    ensures Covered([r] + s, b) <==> Contains(r, b) || Covered(s, b)
  {
    var t := [r] + s;
    if Contains(r, b) { assert Contains(t[0], b); }
    if i :| 0 <= i < |s| && Contains(s[i], b) { assert Contains(t[i + 1], b); }
    if i :| 0 <= i < |t| && Contains(t[i], b) {
      if i > 0 { assert Contains(s[i - 1], b); }
    }
  }

  /** Clipping keeps exactly the sensitive bytes of the selection. */
  lemma {:induction false} ClippedCovers(sensitive: seq<Interval>, lo: nat, hi: nat, b: int)
    ensures Covered(Clipped(sensitive, lo, hi), b) <==> lo <= b < hi && Covered(sensitive, b)
  {
    if sensitive != [] {
      var r, rest := sensitive[0], sensitive[1..];
      ClippedCovers(rest, lo, hi, b);
      assert sensitive == [r] + rest;
      CoveredCons(r, rest, b);
      var start := if r.start > lo then r.start else lo;
      var end := if r.end < hi then r.end else hi;
      CoveredCons(Interval(start, end, r.category), Clipped(rest, lo, hi), b);
      assert [] + Clipped(rest, lo, hi) == Clipped(rest, lo, hi);
    }
  }

  // ----- Runs

  /** A stretch of uncovered bytes is copied. */
  lemma {:induction false} PlainRun(source: Text, regions: seq<Interval>, lo: nat, hi: nat, a: nat, b: nat)
    requires lo <= a <= b <= hi <= |source| && forall p :: a <= p < b ==> !Covered(regions, p)
    ensures Reference(source, regions, lo, hi, a) == source[a..b] + Reference(source, regions, lo, hi, b)
    decreases b - a
  {
    if a < b {
      PlainRun(source, regions, lo, hi, a + 1, b);
      FirstOfRun(source, a, b, Reference(source, regions, lo, hi, b));
      assert Reference(source, regions, lo, hi, a) == [source[a]] + Reference(source, regions, lo, hi, a + 1);
    } else {
      assert source[a..b] == [];
    }
  }

  lemma FirstOfRun(source: Text, a: nat, b: nat, rest: Text)
    requires a < b <= |source|
    ensures source[a..b] + rest == [source[a]] + (source[a + 1..b] + rest)
  {
  }

  /** The inside of a run leaves nothing. */
  lemma {:induction false} InsideRun(source: Text, regions: seq<Interval>, lo: nat, hi: nat, a: nat, b: nat)
    requires lo < a <= b <= hi <= |source| && forall p :: a - 1 <= p < b ==> Covered(regions, p)
    ensures Reference(source, regions, lo, hi, a) == Reference(source, regions, lo, hi, b)
    decreases b - a
  {
    if a < b { InsideRun(source, regions, lo, hi, a + 1, b); }
  }

  lemma CoveredRun(source: Text, regions: seq<Interval>, lo: nat, hi: nat, a: nat, b: nat)
    requires lo <= a < b <= hi <= |source| && forall p :: a <= p < b ==> Covered(regions, p)
    requires (a == lo || !Covered(regions, a - 1)) && Opening(regions, a).Some?
    ensures Reference(source, regions, lo, hi, a) ==
            Marker(Opening(regions, a).value.category) + Reference(source, regions, lo, hi, b)
  {
    InsideRun(source, regions, lo, hi, a + 1, b);
  }

  /** Between two merged regions, and before the first, no byte is sensitive. */
  lemma GapIsPlain(merged: seq<Interval>, i: nat, cursor: nat, p: int)
    requires Ordered(merged) && Separated(merged) && i <= |merged|
    requires i == 0 || cursor == merged[i - 1].end
    requires cursor <= p && (i < |merged| ==> p < merged[i].start)
    ensures !Covered(merged, p)
  {
    forall k | 0 <= k < |merged| ensures !Contains(merged[k], p) {
      if k + 1 < i { assert merged[k].end < merged[i - 1].start; }
      if k > i { assert merged[i].end < merged[k].start; }
    }
  }

  lemma RegionIsCovered(merged: seq<Interval>, i: nat, p: int)
    requires i < |merged| && Contains(merged[i], p)
    ensures Covered(merged, p)
  {
  }

  lemma BeforeRegion(merged: seq<Interval>, i: nat)
    requires Ordered(merged) && Separated(merged) && i < |merged|
    ensures !Covered(merged, merged[i].start - 1)
  {
    forall k | 0 <= k < |merged| ensures !Contains(merged[k], merged[i].start - 1) {
      if k < i { assert merged[k].end < merged[i].start; }
      if k > i { assert merged[i].end < merged[k].start; }
    }
  }

  // ----- The rewriter

  predicate OnBoundaries(source: Text, s: seq<Interval>) {
    forall i :: 0 <= i < |s| ==> IsBoundary(source, s[i].start) && IsBoundary(source, s[i].end)
  }

  /** The listed redactions are exactly the merged regions. */
  predicate Lists(redactions: seq<Redaction>, merged: seq<Interval>) {
    && |redactions| == |merged|
    && forall i :: 0 <= i < |merged| ==>
         redactions[i] == Redaction(merged[i].start, merged[i].end, merged[i].category, Marker(merged[i].category))
  }

  /** The regions are the union of the overlaps, merged. */
  ghost predicate MergedFrom(regions: seq<Interval>, overlaps: seq<Interval>) {
    && Ordered(regions) && Separated(regions) && OpenedBy(regions, overlaps)
    && forall b :: Covered(regions, b) <==> Covered(overlaps, b)
  }

  /** The loop over the merged regions. */
  method Rewrite(source: Text, ghost overlaps: seq<Interval>, regions: seq<Interval>, lo: nat, hi: nat)
    returns (output: Text, redactions: seq<Redaction>)
    requires lo <= hi <= |source| && MergedFrom(regions, overlaps)
    requires forall k :: 0 <= k < |overlaps| ==> lo <= overlaps[k].start < overlaps[k].end <= hi
    ensures output == Reference(source, overlaps, lo, hi, lo) && Lists(redactions, regions)
  {
    output, redactions := [], [];
    var cursor := lo;
    for i := 0 to |regions|
      invariant Rewriting(source, overlaps, regions, lo, hi, i, cursor, output, redactions)
    {
      var r := regions[i];
      var replacement := Marker(r.category);
      RewriteStep(source, overlaps, regions, lo, hi, i, cursor, output, redactions);
      output := output + source[cursor..r.start];
      output := output + replacement;
      redactions := redactions + [Redaction(r.start, r.end, r.category, replacement)];
      cursor := r.end;
    }
    LastStretch(source, overlaps, regions, lo, hi, cursor);
    output := output + source[cursor..hi];
    assert regions[..|regions|] == regions;
  }

  /** Where the loop stands before region `i`. */
  ghost predicate Rewriting(source: Text, overlaps: seq<Interval>, regions: seq<Interval>, lo: nat, hi: nat, i: nat,
                            cursor: nat, output: Text, redactions: seq<Redaction>) {
    && lo <= cursor <= hi <= |source| && i <= |regions|
    && cursor == (if i == 0 then lo else regions[i - 1].end)
    && output + Reference(source, overlaps, lo, hi, cursor) == Reference(source, overlaps, lo, hi, lo)
    && Lists(redactions, regions[..i])
  }

  lemma RewriteStep(source: Text, overlaps: seq<Interval>, regions: seq<Interval>, lo: nat, hi: nat, i: nat,
                    cursor: nat, output: Text, redactions: seq<Redaction>)
    requires MergedFrom(regions, overlaps) && i < |regions|
    requires forall k :: 0 <= k < |overlaps| ==> lo <= overlaps[k].start < overlaps[k].end <= hi
    requires Rewriting(source, overlaps, regions, lo, hi, i, cursor, output, redactions)
    ensures var r := regions[i];
            && cursor <= r.start <= |source|
            && Rewriting(source, overlaps, regions, lo, hi, i + 1, r.end,
                         output + source[cursor..r.start] + Marker(r.category),
                         redactions + [Redaction(r.start, r.end, r.category, Marker(r.category))])
  {
    var r := regions[i];
    RegionInSelection(overlaps, regions, lo, hi, i);
    OneRegion(source, overlaps, regions, lo, hi, i, cursor);
    ListsSnoc(redactions, regions, i);
    JoinFour(output, source[cursor..r.start], Marker(r.category), Reference(source, overlaps, lo, hi, r.end));
  }

  lemma JoinFour(a: Text, b: Text, c: Text, d: Text)
    ensures a + (b + c + d) == a + b + c + d
  {
  }

  /** `redact_slice`: the output is the reference, byte for byte, and the listed
      redactions cover exactly the sensitive bytes of the selection. */
  method RedactSlice(source: Text, sensitive: seq<Interval>, lo: nat, hi: nat)
    returns (output: Text, redactions: seq<Redaction>, ghost merged: seq<Interval>)
    requires lo <= hi <= |source|
    ensures output == Reference(source, Clipped(sensitive, lo, hi), lo, hi, lo)
    ensures Ordered(merged) && Separated(merged) && Lists(redactions, merged)
    ensures forall b :: Covered(merged, b) <==> lo <= b < hi && Covered(sensitive, b)
    ensures IsBoundary(source, lo) && IsBoundary(source, hi) && OnBoundaries(source, sensitive) ==>
              OnBoundaries(source, merged)
  {
    var overlaps := Clipped(sensitive, lo, hi);
    ClippedOrdered(sensitive, lo, hi);
    var regions := MergeSensitiveIntervals(overlaps);
    merged := regions;
    output, redactions := Rewrite(source, overlaps, regions, lo, hi);
    forall b ensures Covered(merged, b) <==> lo <= b < hi && Covered(sensitive, b) {
      ClippedCovers(sensitive, lo, hi, b);
    }
    if IsBoundary(source, lo) && IsBoundary(source, hi) && OnBoundaries(source, sensitive) {
      ClippedBoundaries(source, sensitive, lo, hi);
      MergedBoundaries(source, overlaps, regions);
    }
  }

  lemma {:induction false} ClippedBoundaries(source: Text, sensitive: seq<Interval>, lo: nat, hi: nat)
    requires IsBoundary(source, lo) && IsBoundary(source, hi) && OnBoundaries(source, sensitive)
    ensures OnBoundaries(source, Clipped(sensitive, lo, hi))
  {
    if sensitive != [] { ClippedBoundaries(source, sensitive[1..], lo, hi); }
  }

  /** So every index the rewriter slices at is a character boundary. */
  lemma MergedBoundaries(source: Text, overlaps: seq<Interval>, merged: seq<Interval>)
    requires OnBoundaries(source, overlaps) && OpenedBy(merged, overlaps) && ClosedBy(merged, overlaps)
    ensures OnBoundaries(source, merged)
  {
    forall i | 0 <= i < |merged|
      ensures IsBoundary(source, merged[i].start) && IsBoundary(source, merged[i].end)
    {
      OpeningStarts(overlaps, merged[i].start);
      var k :| 0 <= k < |overlaps| && overlaps[k] == Opening(overlaps, merged[i].start).value;
      assert EndsAmong(overlaps, merged[i].end);
      var l :| 0 <= l < |overlaps| && overlaps[l].end == merged[i].end;
    }
  }

  // ----- What the reference means

  /** Nothing sensitive leaks: two sources that agree on every byte outside the
      regions have the same redacted slice. */
  lemma {:induction false} NothingLeaks(a: Text, c: Text, regions: seq<Interval>, lo: nat, hi: nat, p: nat)
    requires lo <= p <= hi <= |a| == |c|
    requires forall i :: p <= i < hi && !Covered(regions, i) ==> a[i] == c[i]
    ensures Reference(a, regions, lo, hi, p) == Reference(c, regions, lo, hi, p)
    decreases hi - p
  {
    if p < hi { NothingLeaks(a, c, regions, lo, hi, p + 1); }
  }

  /** Nothing else is lost: sources whose slices agree agree on every byte
      outside the regions. */
  lemma {:induction false} NothingIsLost(a: Text, c: Text, regions: seq<Interval>, lo: nat, hi: nat, p: nat, i: nat)
    requires lo <= p <= i < hi <= |a| == |c| && !Covered(regions, i)
    requires Reference(a, regions, lo, hi, p) == Reference(c, regions, lo, hi, p)
    ensures a[i] == c[i]
    decreases hi - p
  {
    var before, after := Piece(a[p], regions, lo, p), Piece(c[p], regions, lo, p);
    SamePieceLength(a[p], c[p], regions, lo, p);
    SameEnds(before, Reference(a, regions, lo, hi, p + 1), after, Reference(c, regions, lo, hi, p + 1));
    if i == p {
      assert before == [a[i]] && after == [c[i]];
    } else {
      NothingIsLost(a, c, regions, lo, hi, p + 1, i);
    }
  }

  lemma SamePieceLength(a: Byte, c: Byte, regions: seq<Interval>, lo: nat, p: nat)
    ensures |Piece(a, regions, lo, p)| == |Piece(c, regions, lo, p)|
  {
  }

  lemma SameEnds(a: Text, b: Text, c: Text, d: Text)
    requires a + b == c + d && |a| == |c|
    ensures a == c && b == d
  {
    assert a == (a + b)[..|a|] && b == (a + b)[|a|..];
    assert c == (c + d)[..|c|] && d == (c + d)[|c|..];
  }

  lemma ListsSnoc(redactions: seq<Redaction>, merged: seq<Interval>, i: nat)
    requires i < |merged| && Lists(redactions, merged[..i])
    ensures var m := merged[i];
            Lists(redactions + [Redaction(m.start, m.end, m.category, Marker(m.category))], merged[..i + 1])
  {
    assert merged[..i + 1] == merged[..i] + [merged[i]];
  }

  /** A merged region lies in the selection and is not empty. */
  lemma RegionInSelection(overlaps: seq<Interval>, merged: seq<Interval>, lo: nat, hi: nat, i: nat)
    requires i < |merged| && Ordered(merged) && Separated(merged) && OpenedBy(merged, overlaps)
    requires forall b :: Covered(merged, b) <==> Covered(overlaps, b)
    requires forall k :: 0 <= k < |overlaps| ==> lo <= overlaps[k].start < overlaps[k].end <= hi
    ensures lo <= merged[i].start < merged[i].end <= hi
    ensures i > 0 ==> merged[i - 1].end < merged[i].start
  {
    var m := merged[i];
    OpeningStarts(overlaps, m.start);
    var k :| 0 <= k < |overlaps| && overlaps[k] == Opening(overlaps, m.start).value;
    assert Contains(overlaps[k], m.start);
    assert Covered(merged, m.start);
    var j :| 0 <= j < |merged| && Contains(merged[j], m.start);
    assert j == i;
    RegionIsCovered(merged, i, m.end - 1);
    var l :| 0 <= l < |overlaps| && Contains(overlaps[l], m.end - 1);
  }

  lemma OneRegion(source: Text, overlaps: seq<Interval>, merged: seq<Interval>, lo: nat, hi: nat, i: nat, cursor: nat)
    requires lo <= cursor <= hi <= |source| && i < |merged|
    requires Ordered(merged) && Separated(merged) && OpenedBy(merged, overlaps)
    requires forall b :: Covered(merged, b) <==> Covered(overlaps, b)
    requires lo <= merged[i].start < merged[i].end <= hi
    requires (i == 0 && cursor == lo) || (i > 0 && cursor == merged[i - 1].end < merged[i].start)
    ensures cursor <= merged[i].start
    ensures Reference(source, overlaps, lo, hi, cursor) ==
            source[cursor..merged[i].start] + Marker(merged[i].category) +
            Reference(source, overlaps, lo, hi, merged[i].end)
  {
    var m := merged[i];
    forall p | cursor <= p < m.start ensures !Covered(overlaps, p) { GapIsPlain(merged, i, cursor, p); }
    PlainRun(source, overlaps, lo, hi, cursor, m.start);
    forall p | m.start <= p < m.end ensures Covered(overlaps, p) { RegionIsCovered(merged, i, p); }
    BeforeRegion(merged, i);
    CoveredRun(source, overlaps, lo, hi, m.start, m.end);
  }

  lemma LastStretch(source: Text, overlaps: seq<Interval>, merged: seq<Interval>, lo: nat, hi: nat, cursor: nat)
    requires lo <= cursor <= hi <= |source| && Ordered(merged) && Separated(merged)
    requires forall b :: Covered(merged, b) <==> Covered(overlaps, b)
    requires merged != [] ==> cursor == merged[|merged| - 1].end
    ensures Reference(source, overlaps, lo, hi, cursor) == source[cursor..hi]
  {
    forall p | cursor <= p < hi ensures !Covered(overlaps, p) { GapIsPlain(merged, |merged|, cursor, p); }
    PlainRun(source, overlaps, lo, hi, cursor, hi);
  }
}
