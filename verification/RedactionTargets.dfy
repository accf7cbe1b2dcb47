/** The bounded set of regions one value contributes: exact spans that spill to
    ranges, and ranges that collapse to a hull
    (`crates/krit-assist/src/context.rs`). */
module RedactionTargets {

  const MAX_TRACKED_BINDING_SPANS := 64
  const MAX_TRACKED_BINDING_RANGES := 64

  type Range = (nat, nat)

  /** The value of a `RedactionTargets`. */
  datatype Targets = Targets(spans: seq<Range>, ranges: seq<Range>, untraceable: bool, overflowed: bool)
  {
    /** `targets`: spans and ranges alike. */
    function Regions(): seq<Range> {
      spans + ranges
    }

    predicate Bounded() {
      && |spans| <= MAX_TRACKED_BINDING_SPANS
      && |ranges| <= MAX_TRACKED_BINDING_RANGES
      && (overflowed ==> spans == [])
    }
  }

  const NOTHING := Targets([], [], false, false)
  const UNTRACEABLE := Targets([], [], true, false)

  predicate Inside(range: Range, b: int) {
    range.0 <= b < range.1
  }

  predicate Covers(regions: seq<Range>, b: int) {
    exists i :: 0 <= i < |regions| && Inside(regions[i], b)
  }

  // ----- Operations on values

  function LeastStart(ranges: seq<Range>): (start: nat)
    requires ranges != []
    ensures exists i :: 0 <= i < |ranges| && ranges[i].0 == start
    ensures forall i :: 0 <= i < |ranges| ==> start <= ranges[i].0
  {
    if |ranges| == 1 then ranges[0].0
    else
      var rest := LeastStart(ranges[1..]);
      if ranges[0].0 <= rest then ranges[0].0
      else
        assert exists i :: 0 <= i < |ranges[1..]| && ranges[1..][i].0 == rest;
        rest
  }

  function GreatestEnd(ranges: seq<Range>): (end: nat)
    requires ranges != []
    ensures exists i :: 0 <= i < |ranges| && ranges[i].1 == end
    ensures forall i :: 0 <= i < |ranges| ==> ranges[i].1 <= end
  {
    if |ranges| == 1 then ranges[0].1
    else
      var rest := GreatestEnd(ranges[1..]);
      if ranges[0].1 >= rest then ranges[0].1
      else
        assert exists i :: 0 <= i < |ranges[1..]| && ranges[1..][i].1 == rest;
        rest
  }

  function AddRange(t: Targets, range: Range): Targets {
    if range in t.ranges then t
    else
      var ranges := t.ranges + [range];
      if |ranges| > MAX_TRACKED_BINDING_RANGES then t.(ranges := [(LeastStart(ranges), GreatestEnd(ranges))])
      else t.(ranges := ranges)
  }

  function AddRanges(t: Targets, ranges: seq<Range>): Targets
    decreases |ranges|
  {
    if ranges == [] then t else AddRanges(AddRange(t, ranges[0]), ranges[1..])
  }

  function SpillToRanges(t: Targets): Targets {
    AddRanges(t.(overflowed := true, spans := []), t.spans)
  }

  function AddSpan(t: Targets, span: Range): Targets {
    if t.overflowed then AddRange(t, span)
    else if |t.spans| >= MAX_TRACKED_BINDING_SPANS then AddRange(SpillToRanges(t), span)
    else if span in t.spans then t
    else t.(spans := t.spans + [span])
  }

  function AddSpans(t: Targets, spans: seq<Range>): Targets
    decreases |spans|
  {
    if spans == [] then t else AddSpans(AddSpan(t, spans[0]), spans[1..])
  }

  function Merge(t: Targets, other: Targets): Targets {
    AddSpans(AddRanges(t, other.ranges), other.spans)
  }

  // ----- Coverage

  /** `t'` covers all that `t` covers, and all of `added`. */
  ghost predicate Absorbs(t: Targets, added: seq<Range>, t': Targets) {
    forall b :: Covers(t.Regions(), b) || Covers(added, b) ==> Covers(t'.Regions(), b)
  }

  lemma CoversAt(regions: seq<Range>, i: nat, b: int)
    requires i < |regions| && Inside(regions[i], b)
    ensures Covers(regions, b)
  {
  }

  lemma CoversConcat(a: seq<Range>, c: seq<Range>, b: int)
    ensures Covers(a + c, b) <==> Covers(a, b) || Covers(c, b)
  {
    if i :| 0 <= i < |a| && Inside(a[i], b) { CoversAt(a + c, i, b); }
    if i :| 0 <= i < |c| && Inside(c[i], b) { CoversAt(a + c, |a| + i, b); }
    if i :| 0 <= i < |a + c| && Inside((a + c)[i], b) {
      if i < |a| { CoversAt(a, i, b); } else { CoversAt(c, i - |a|, b); }
    }
  }

  lemma RangeInHull(ranges: seq<Range>, b: int)
    requires ranges != [] && Covers(ranges, b)
    ensures Covers([(LeastStart(ranges), GreatestEnd(ranges))], b)
  {
    CoversAt([(LeastStart(ranges), GreatestEnd(ranges))], 0, b);
  }

  lemma AddRangeAbsorbs(t: Targets, range: Range)
    requires t.Bounded()
    ensures AddRange(t, range).Bounded() && Absorbs(t, [range], AddRange(t, range))
    ensures AddRange(t, range).overflowed == t.overflowed && AddRange(t, range).spans == t.spans
  {
    var t' := AddRange(t, range);
    forall b | Covers(t.Regions(), b) || Covers([range], b) ensures Covers(t'.Regions(), b) {
      CoversConcat(t.spans, t.ranges, b);
      CoversConcat(t'.spans, t'.ranges, b);
      if range in t.ranges {
        var i :| 0 <= i < |t.ranges| && t.ranges[i] == range;
        if Covers([range], b) { CoversAt(t.ranges, i, b); }
      } else {
        var ranges := t.ranges + [range];
        CoversConcat(t.ranges, [range], b);
        if |ranges| > MAX_TRACKED_BINDING_RANGES && Covers(ranges, b) { RangeInHull(ranges, b); }
      }
    }
  }

  lemma {:induction false} AddRangesAbsorbs(t: Targets, ranges: seq<Range>)
    requires t.Bounded()
    ensures AddRanges(t, ranges).Bounded() && Absorbs(t, ranges, AddRanges(t, ranges))
    ensures AddRanges(t, ranges).overflowed == t.overflowed && AddRanges(t, ranges).spans == t.spans
    decreases |ranges|
  {
    if ranges != [] {
      var next := AddRange(t, ranges[0]);
      AddRangeAbsorbs(t, ranges[0]);
      AddRangesAbsorbs(next, ranges[1..]);
      forall b | Covers(t.Regions(), b) || Covers(ranges, b) ensures Covers(AddRanges(t, ranges).Regions(), b) {
        assert ranges == [ranges[0]] + ranges[1..];
        CoversConcat([ranges[0]], ranges[1..], b);
      }
    }
  }

  lemma SpillAbsorbs(t: Targets)
    requires t.Bounded()
    ensures SpillToRanges(t).Bounded() && SpillToRanges(t).overflowed && Absorbs(t, [], SpillToRanges(t))
  {
    var base := t.(overflowed := true, spans := []);
    AddRangesAbsorbs(base, t.spans);
    forall b | Covers(t.Regions(), b) || Covers([], b) ensures Covers(SpillToRanges(t).Regions(), b) {
      CoversConcat(t.spans, t.ranges, b);
      CoversConcat(base.spans, base.ranges, b);
    }
  }

  /** Recording a span keeps the bounds and loses no coverage. */
  lemma AddSpanAbsorbs(t: Targets, span: Range)
    requires t.Bounded()
    ensures AddSpan(t, span).Bounded() && Absorbs(t, [span], AddSpan(t, span))
  {
    if t.overflowed {
      AddRangeAbsorbs(t, span);
    } else if |t.spans| >= MAX_TRACKED_BINDING_SPANS {
      SpillAbsorbs(t);
      AddRangeAbsorbs(SpillToRanges(t), span);
    } else {
      var t' := AddSpan(t, span);
      forall b | Covers(t.Regions(), b) || Covers([span], b) ensures Covers(t'.Regions(), b) {
        CoversConcat(t.spans, t.ranges, b);
        CoversConcat(t'.spans, t'.ranges, b);
        if span in t.spans {
          var i :| 0 <= i < |t.spans| && t.spans[i] == span;
          if Covers([span], b) { CoversAt(t.spans, i, b); }
        } else {
          CoversConcat(t.spans, [span], b);
        }
      }
    }
  }

  lemma {:induction false} AddSpansAbsorbs(t: Targets, spans: seq<Range>)
    requires t.Bounded()
    ensures AddSpans(t, spans).Bounded() && Absorbs(t, spans, AddSpans(t, spans))
    decreases |spans|
  {
    if spans != [] {
      var next := AddSpan(t, spans[0]);
      AddSpanAbsorbs(t, spans[0]);
      AddSpansAbsorbs(next, spans[1..]);
      forall b | Covers(t.Regions(), b) || Covers(spans, b) ensures Covers(AddSpans(t, spans).Regions(), b) {
        assert spans == [spans[0]] + spans[1..];
        CoversConcat([spans[0]], spans[1..], b);
      }
    }
  }

  /** Merging drops nothing in either direction, whichever side overflowed. */
  lemma MergeAbsorbs(t: Targets, other: Targets)
    requires t.Bounded()
    ensures Merge(t, other).Bounded() && Absorbs(t, other.Regions(), Merge(t, other))
  {
    AddRangesAbsorbs(t, other.ranges);
    AddSpansAbsorbs(AddRanges(t, other.ranges), other.spans);
    forall b | Covers(t.Regions(), b) || Covers(other.Regions(), b) ensures Covers(Merge(t, other).Regions(), b) {
      CoversConcat(other.spans, other.ranges, b);
    }
  }

  // ----- Whether a value is traceable does not change

  lemma {:induction false} AddRangesKeepTrace(t: Targets, ranges: seq<Range>)
    ensures AddRanges(t, ranges).untraceable == t.untraceable
    decreases |ranges|
  {
    if ranges != [] { AddRangesKeepTrace(AddRange(t, ranges[0]), ranges[1..]); }
  }

  lemma AddSpanKeepsTrace(t: Targets, span: Range)
    ensures AddSpan(t, span).untraceable == t.untraceable
  {
    AddRangesKeepTrace(t.(overflowed := true, spans := []), t.spans);
  }

  lemma {:induction false} AddSpansKeepTrace(t: Targets, spans: seq<Range>)
    ensures AddSpans(t, spans).untraceable == t.untraceable
    decreases |spans|
  {
    if spans != [] {
      AddSpanKeepsTrace(t, spans[0]);
      AddSpansKeepTrace(AddSpan(t, spans[0]), spans[1..]);
    }
  }

  lemma MergeKeepsTrace(t: Targets, other: Targets)
    ensures Merge(t, other).untraceable == t.untraceable
  {
    AddRangesKeepTrace(t, other.ranges);
    AddSpansKeepTrace(AddRanges(t, other.ranges), other.spans);
  }

  // ----- Any sequence of contributions

  datatype Contribution = Span(span: Range) | RangeOf(range: Range) | Value(value: Targets)

  function Contributed(c: Contribution): seq<Range> {
    match c
    case Span(span) => [span]
    case RangeOf(range) => [range]
    case Value(value) => value.Regions()
  }

  function Add(t: Targets, c: Contribution): Targets {
    match c
    case Span(span) => AddSpan(t, span)
    case RangeOf(range) => AddRange(t, range)
    case Value(value) => Merge(t, value)
  }

  function AddAll(t: Targets, contributions: seq<Contribution>): Targets
    decreases |contributions|
  {
    if contributions == [] then t else AddAll(Add(t, contributions[0]), contributions[1..])
  }

  lemma AddAbsorbs(t: Targets, c: Contribution)
    requires t.Bounded()
    ensures Add(t, c).Bounded() && Absorbs(t, Contributed(c), Add(t, c))
  {
    match c
    case Span(span) => AddSpanAbsorbs(t, span);
    case RangeOf(range) => AddRangeAbsorbs(t, range);
    case Value(value) => MergeAbsorbs(t, value);
  }

  predicate Holding(t: Targets, b: int) {
    t.Bounded() && Covers(t.Regions(), b)
  }

  lemma AddHolds(t: Targets, c: Contribution, b: int)
    requires t.Bounded() && (Covers(t.Regions(), b) || Covers(Contributed(c), b))
    ensures Holding(Add(t, c), b)
  {
    AddAbsorbs(t, c);
  }

  lemma AddKeepsBounds(t: Targets, c: Contribution)
    requires t.Bounded()
    ensures Add(t, c).Bounded()
  {
    AddAbsorbs(t, c);
  }

  /** However many contributions a value takes, it stays bounded and covers
      every byte any of them covered. */
  lemma {:induction false} EveryContributionStaysCovered(t: Targets, contributions: seq<Contribution>, i: nat, b: int)
    requires t.Bounded() && i < |contributions| && Covers(Contributed(contributions[i]), b)
    ensures Holding(AddAll(t, contributions), b)
    decreases |contributions|
  {
    if i == 0 {
      AddHolds(t, contributions[0], b);
      StaysCovered(Add(t, contributions[0]), contributions[1..], b);
    } else {
      AddKeepsBounds(t, contributions[0]);
      EveryContributionStaysCovered(Add(t, contributions[0]), contributions[1..], i - 1, b);
    }
  }

  lemma {:induction false} StaysCovered(t: Targets, contributions: seq<Contribution>, b: int)
    requires Holding(t, b)
    ensures Holding(AddAll(t, contributions), b)
    decreases |contributions|
  {
    if contributions != [] {
      AddHolds(t, contributions[0], b);
      StaysCovered(Add(t, contributions[0]), contributions[1..], b);
    }
  }

  // ----- Where regions may begin and end

  predicate RegionOk(range: Range, boundary: int -> bool) {
    range.0 <= range.1 && boundary(range.0) && boundary(range.1)
  }

  predicate AllOk(regions: seq<Range>, boundary: int -> bool) {
    forall i :: 0 <= i < |regions| ==> RegionOk(regions[i], boundary)
  }

  /** Spilling and collapsing never invent an endpoint. */
  lemma AddRangeOk(t: Targets, range: Range, boundary: int -> bool)
    requires AllOk(t.Regions(), boundary) && RegionOk(range, boundary)
    ensures AllOk(AddRange(t, range).Regions(), boundary)
  {
    var t' := AddRange(t, range);
    forall i | 0 <= i < |t.ranges| ensures RegionOk(t.ranges[i], boundary) {
      assert t.Regions()[|t.spans| + i] == t.ranges[i];
    }
    var ranges := t.ranges + [range];
    assert AllOk(ranges, boundary);
    if |ranges| > MAX_TRACKED_BINDING_RANGES {
      HullOk(ranges, boundary);
    }
    assert AllOk(t'.ranges, boundary);
    forall i | 0 <= i < |t'.Regions()| ensures RegionOk(t'.Regions()[i], boundary) {
      if i < |t'.spans| {
        assert t'.Regions()[i] == t.Regions()[i];
      } else {
        assert t'.Regions()[i] == t'.ranges[i - |t'.spans|];
      }
    }
  }

  lemma HullOk(ranges: seq<Range>, boundary: int -> bool)
    requires ranges != [] && AllOk(ranges, boundary)
    ensures RegionOk((LeastStart(ranges), GreatestEnd(ranges)), boundary)
  {
    var i :| 0 <= i < |ranges| && ranges[i].0 == LeastStart(ranges);
    var j :| 0 <= j < |ranges| && ranges[j].1 == GreatestEnd(ranges);
    assert RegionOk(ranges[i], boundary) && RegionOk(ranges[j], boundary);
  }

  lemma {:induction false} AddRangesOk(t: Targets, ranges: seq<Range>, boundary: int -> bool)
    requires AllOk(t.Regions(), boundary) && AllOk(ranges, boundary)
    ensures AllOk(AddRanges(t, ranges).Regions(), boundary)
    decreases |ranges|
  {
    if ranges != [] {
      AddRangeOk(t, ranges[0], boundary);
      AddRangesOk(AddRange(t, ranges[0]), ranges[1..], boundary);
    }
  }

  lemma RegionsSplit(t: Targets, boundary: int -> bool)
    ensures AllOk(t.Regions(), boundary) <==> AllOk(t.spans, boundary) && AllOk(t.ranges, boundary)
  {
    assert forall i :: 0 <= i < |t.spans| ==> t.Regions()[i] == t.spans[i];
    assert forall i :: 0 <= i < |t.ranges| ==> t.Regions()[|t.spans| + i] == t.ranges[i];
    if AllOk(t.Regions(), boundary) {
      forall i | 0 <= i < |t.ranges| ensures RegionOk(t.ranges[i], boundary) {
        assert RegionOk(t.Regions()[|t.spans| + i], boundary);
      }
      forall i | 0 <= i < |t.spans| ensures RegionOk(t.spans[i], boundary) {
        assert RegionOk(t.Regions()[i], boundary);
      }
    }
  }

  lemma SpillOk(t: Targets, boundary: int -> bool)
    requires AllOk(t.Regions(), boundary)
    ensures AllOk(SpillToRanges(t).Regions(), boundary)
  {
    var base := t.(overflowed := true, spans := []);
    RegionsSplit(t, boundary);
    RegionsSplit(base, boundary);
    AddRangesOk(base, t.spans, boundary);
  }

  lemma AddSpanOk(t: Targets, span: Range, boundary: int -> bool)
    requires AllOk(t.Regions(), boundary) && RegionOk(span, boundary)
    ensures AllOk(AddSpan(t, span).Regions(), boundary)
  {
    if t.overflowed {
      AddRangeOk(t, span, boundary);
    } else if |t.spans| >= MAX_TRACKED_BINDING_SPANS {
      SpillOk(t, boundary);
      AddRangeOk(SpillToRanges(t), span, boundary);
    } else {
      RegionsSplit(t, boundary);
      RegionsSplit(AddSpan(t, span), boundary);
    }
  }

  lemma {:induction false} AddSpansOk(t: Targets, spans: seq<Range>, boundary: int -> bool)
    requires AllOk(t.Regions(), boundary) && AllOk(spans, boundary)
    ensures AllOk(AddSpans(t, spans).Regions(), boundary)
    decreases |spans|
  {
    if spans != [] {
      AddSpanOk(t, spans[0], boundary);
      AddSpansOk(AddSpan(t, spans[0]), spans[1..], boundary);
    }
  }

  lemma MergeOk(t: Targets, other: Targets, boundary: int -> bool)
    requires AllOk(t.Regions(), boundary) && AllOk(other.Regions(), boundary)
    ensures AllOk(Merge(t, other).Regions(), boundary)
  {
    RegionsSplit(other, boundary);
    AddRangesOk(t, other.ranges, boundary);
    AddSpansOk(AddRanges(t, other.ranges), other.spans, boundary);
  }

  // ----- The structure updated in place

  /** `RedactionTargets` as the source keeps it, with its vectors reassigned by
      each method. */
  class TargetSet {
    var spans: seq<Range>
    var ranges: seq<Range>
    var untraceable: bool
    var overflowed: bool

    function Value(): Targets
      reads this
    {
      Targets(spans, ranges, untraceable, overflowed)
    }

    constructor ()
      ensures Value() == NOTHING
    {
      spans, ranges, untraceable, overflowed := [], [], false, false;
    }

    method RecordRange(range: Range)
      modifies this`ranges
      ensures Value() == AddRange(old(Value()), range)
    {
      if range in ranges {
        return;
      }
      ranges := ranges + [range];
      if |ranges| > MAX_TRACKED_BINDING_RANGES {
        var start, end := Hull(ranges);
        ranges := [(start, end)];
      }
    }

    method Spill()
      modifies this
      ensures Value() == SpillToRanges(old(Value()))
    {
      overflowed := true;
      var taken := spans;
      spans := [];
      ghost var base := Value();
      for i := 0 to |taken|
        invariant AddRanges(Value(), taken[i..]) == AddRanges(base, taken)
      {
        assert taken[i..][1..] == taken[i + 1..];
        RecordRange(taken[i]);
      }
    }

    method RecordSpan(span: Range)
      modifies this
      ensures Value() == AddSpan(old(Value()), span)
    {
      if overflowed {
        RecordRange(span);
        return;
      }
      if |spans| >= MAX_TRACKED_BINDING_SPANS {
        Spill();
        RecordRange(span);
        return;
      }
      if span !in spans {
        spans := spans + [span];
      }
    }

    method Absorb(other: Targets)
      modifies this
      ensures Value() == Merge(old(Value()), other)
    {
      for i := 0 to |other.ranges|
        invariant AddRanges(Value(), other.ranges[i..]) == AddRanges(old(Value()), other.ranges)
      {
        assert other.ranges[i..][1..] == other.ranges[i + 1..];
        RecordRange(other.ranges[i]);
      }
      ghost var middle := Value();
      for i := 0 to |other.spans|
        invariant AddSpans(Value(), other.spans[i..]) == AddSpans(middle, other.spans)
      {
        assert other.spans[i..][1..] == other.spans[i + 1..];
        RecordSpan(other.spans[i]);
      }
    }
  }

  /** The covering hull of the ranges, by one pass over them. */
  method Hull(ranges: seq<Range>) returns (start: nat, end: nat)
    requires ranges != []
    ensures start == LeastStart(ranges) && end == GreatestEnd(ranges)
  {
    start, end := ranges[0].0, ranges[0].1;
    for i := 1 to |ranges|
      invariant exists k :: 0 <= k < i && ranges[k].0 == start
      invariant exists k :: 0 <= k < i && ranges[k].1 == end
      invariant forall k :: 0 <= k < i ==> start <= ranges[k].0 && ranges[k].1 <= end
    {
      start := if ranges[i].0 < start then ranges[i].0 else start;
      end := if ranges[i].1 > end then ranges[i].1 else end;
    }
  }
}
