/** Spans of source text: what lies between a literal's delimiters, and the
    smallest character range around a byte range
    (`crates/krit-assist/src/context.rs`). */
module SourceSpans {
  import opened Utf8
  import opened Wrappers
  import opened RedactionTargets

  const QUOTE: Byte := 0x22

  function Boundaries(source: Text): int -> bool {
    (i: int) => IsBoundary(source, i)
  }

  /** `literal_content_span`: inside the quotes, if the span is quoted. */
  function LiteralContentSpan(source: Text, start: nat, end: nat): (content: Option<Range>)
    ensures content.Some? ==> start < content.value.0 <= content.value.1 < end <= |source|
  {
    if end >= start + 2 && end <= |source| && source[start] == QUOTE && source[end - 1] == QUOTE
    then Some((start + 1, end - 1))
    else None
  }

  predicate HasTripleQuotes(source: Text, start: nat, end: nat) {
    && start + 6 <= end <= |source|
    && source[start..start + 3] == [QUOTE, QUOTE, QUOTE] && source[end - 3..end] == [QUOTE, QUOTE, QUOTE]
  }

  /** `template_content_span`: three quotes at each end are cut off, or else
      one. */
  function TemplateContentSpan(source: Text, start: nat, end: nat): (content: Option<Range>)
    ensures content.Some? ==> start < content.value.0 <= content.value.1 < end <= |source|
  {
    if !(start <= end && IsBoundary(source, start) && IsBoundary(source, end)) then None
    else if HasTripleQuotes(source, start, end) then Some((start + 3, end - 3))
    else LiteralContentSpan(source, start, end)
  }

  lemma ContentOnBoundaries(source: Text, start: nat, end: nat)
    requires WellFormed(source)
    ensures var content := LiteralContentSpan(source, start, end);
            content.Some? ==> IsBoundary(source, content.value.0) && IsBoundary(source, content.value.1)
  {
    if LiteralContentSpan(source, start, end).Some? {
      AsciiIsBoundary(source, start);
      AsciiIsBoundary(source, end - 1);
    }
  }

  lemma TemplateOnBoundaries(source: Text, start: nat, end: nat)
    requires WellFormed(source)
    ensures var content := TemplateContentSpan(source, start, end);
            content.Some? ==> IsBoundary(source, content.value.0) && IsBoundary(source, content.value.1)
  {
    if HasTripleQuotes(source, start, end) {
      assert source[start + 2] == source[start..start + 3][2] && source[end - 3] == source[end - 3..end][0];
      AsciiIsBoundary(source, start + 2);
      AsciiIsBoundary(source, end - 3);
    } else {
      ContentOnBoundaries(source, start, end);
    }
  }

  // ----- Character ranges

  function CharRange(source: Text, start: nat, end: nat): (range: Option<Range>)
    ensures range.Some? <==> start < end <= |source|
    ensures range.Some? ==>
              && range.value.0 <= start < end <= range.value.1 <= |source|
              && IsBoundary(source, range.value.0) && IsBoundary(source, range.value.1)
  {
    if start >= end || end > |source| then None
    else Some((BoundaryBefore(source, start), BoundaryAfter(source, end)))
  }

  /** `char_boundary_range`: clamp outward to boundaries. */
  method CharBoundaryRange(source: Text, start: nat, end: nat) returns (range: Option<Range>)
    ensures range == CharRange(source, start, end)
  {
    if start >= end || end > |source| {
      return None;
    }
    var s, e := start, end;
    while s > 0 && !IsBoundary(source, s)
      invariant 0 <= s <= start && BoundaryBefore(source, s) == BoundaryBefore(source, start)
    {
      s := s - 1;
    }
    while e < |source| && !IsBoundary(source, e)
      invariant end <= e <= |source| && BoundaryAfter(source, e) == BoundaryAfter(source, end)
    {
      e := e + 1;
    }
    assert s < e;  // so the source's last test always passes
    return Some((s, e));
  }

  /** No smaller range on boundaries contains the bytes. */
  lemma CharRangeIsLeast(source: Text, start: nat, end: nat, lo: nat, hi: nat)
    requires start < end <= |source| && lo <= start && end <= hi
    requires IsBoundary(source, lo) && IsBoundary(source, hi)
    ensures var range := CharRange(source, start, end).value; lo <= range.0 && range.1 <= hi
  {
  }

  /** Same length, same character boundaries. */
  predicate SameCharacters(source: Text, other: Text) {
    |source| == |other| && forall i :: 0 <= i <= |source| ==> (IsBoundary(source, i) <==> IsBoundary(other, i))
  }

  lemma SameCharRange(source: Text, other: Text, start: nat, end: nat)
    requires SameCharacters(source, other)
    ensures CharRange(source, start, end) == CharRange(other, start, end)
  {
    if start < end <= |source| {
      var a, c := CharRange(source, start, end).value, CharRange(other, start, end).value;
      CharRangeIsLeast(source, start, end, c.0, c.1);
      CharRangeIsLeast(other, start, end, a.0, a.1);
    }
  }
}
