/** Validation of proposed edits and their application to the base text
    (`crates/krit-assist/src/proposal.rs`). */
module Proposal {
  import opened Utf8
  import opened Wrappers
  import opened TextPosition

  const MAX_EDITS := 64
  const MAX_EDIT_BYTES := 256 * 1024
  const MAX_EDIT_TEXT_BYTES := 64 * 1024
  const MAX_SOURCE_BYTES := 1024 * 1024

  datatype Edit = Edit(range: TextRange, newText: Text)

  datatype EditError =
    | EditCount
    | InvalidRange
    | EscapesSelection
    | TextLimit
    | TotalLimit
    | Unsorted
    | Overlap

  // ----- Terminal controls

  /** The six bits a continuation byte carries. */
  function Payload(b: Byte): nat
    requires IsContinuation(b)
  {
    b - 0x80
  }

  /** The code point of the character `s` begins with. */
  function CodePoint(s: Text): nat
    requires HeadLength(s) > 0
  {
    var lead: int := s[0];
    match HeadLength(s)
    case 1 => lead
    case 2 => 0x40 * (lead - 0xC0) + Payload(s[1])
    case 3 => 0x1000 * (lead - 0xE0) + 0x40 * Payload(s[1]) + Payload(s[2])
    case 4 => 0x40000 * (lead - 0xF0) + 0x1000 * Payload(s[1]) + 0x40 * Payload(s[2]) + Payload(s[3])
  }

  predicate IsTerminalControl(c: nat) {
    || ((c < 0x20 || 0x7F <= c < 0xA0) && c != 0x0A && c != 0x09)
    || c == 0x061C || c == 0x200E || c == 0x200F || 0x202A <= c <= 0x202E || 0x2066 <= c <= 0x2069
  }

  /** Every character of a `str` is looked at; other bytes are passed over. */
  predicate HoldsTerminalControl(s: Text)
    decreases |s|
  {
    if s == [] then false
    else if HeadLength(s) == 0 then HoldsTerminalControl(s[1..])
    else IsTerminalControl(CodePoint(s)) || HoldsTerminalControl(s[HeadLength(s)..])
  }

  // ----- What a valid list of edits is

  /** `validate_text_range` as a check on ranges of one source. */
  function RangesOf(source: Text): TextRange -> bool
    requires WellFormed(source)
  {
    range => ValidRange(source, range)
  }

  /** All that the checks on a list of edits use of it. */
  ghost predicate RunsForward(valid: TextRange -> bool) {
    forall range :: valid(range) ==> range.startByte <= range.endByte
  }

  predicate EditOk(valid: TextRange -> bool, selection: TextRange, edit: Edit)
  {
    && valid(edit.range)
    && selection.startByte <= edit.range.startByte && edit.range.endByte <= selection.endByte
    && |edit.newText| <= MAX_EDIT_TEXT_BYTES && !HoldsTerminalControl(edit.newText)
  }

  /** `a` ends before `b` begins, and they are not the same insertion point. */
  predicate Before(a: Edit, b: Edit) {
    && a.range.endByte <= b.range.startByte
    && (a.range.startByte < b.range.startByte || a.range.endByte < b.range.endByte)
  }

  /** The bytes the first `count` edits insert. */
  function Inserted(edits: seq<Edit>, count: nat): nat
    requires count <= |edits|
  {
    if count == 0 then 0 else Inserted(edits, count - 1) + |edits[count - 1].newText|
  }

  predicate AllWellFormed(edits: seq<Edit>) {
    forall i :: 0 <= i < |edits| ==> WellFormed(edits[i].newText)
  }

  predicate EveryEditOk(valid: TextRange -> bool, selection: TextRange, edits: seq<Edit>, count: nat)
    requires count <= |edits|
  {
    forall i :: 0 <= i < count ==> EditOk(valid, selection, edits[i])
  }

  predicate Disjoint(edits: seq<Edit>, count: nat)
    requires count <= |edits|
  {
    forall i, j :: 0 <= i < j < count ==> Before(edits[i], edits[j])
  }

  /** The first `count` edits are each fine, disjoint, and within the total. */
  predicate SoFar(valid: TextRange -> bool, selection: TextRange, edits: seq<Edit>, count: nat)
    requires count <= |edits|
  {
    EveryEditOk(valid, selection, edits, count) && Disjoint(edits, count) && Inserted(edits, count) <= MAX_EDIT_BYTES
  }

  predicate ValidEdits(valid: TextRange -> bool, selection: TextRange, edits: seq<Edit>)
  {
    1 <= |edits| <= MAX_EDITS && SoFar(valid, selection, edits, |edits|)
  }

  // ----- Validation

  /** What is wrong with edit `i`, given that every earlier one is fine. */
  predicate Blames(valid: TextRange -> bool, selection: TextRange, edits: seq<Edit>, i: nat, error: EditError)
    requires i < |edits|
  {
    var range := edits[i].range;
    match error
    case EditCount => false
    case InvalidRange => !valid(range)
    case EscapesSelection => range.startByte < selection.startByte || range.endByte > selection.endByte
    case TextLimit => |edits[i].newText| > MAX_EDIT_TEXT_BYTES || HoldsTerminalControl(edits[i].newText)
    case TotalLimit => Inserted(edits, i + 1) > MAX_EDIT_BYTES
    case Unsorted =>
      i > 0 && (range.startByte < edits[i - 1].range.startByte
                || (range.startByte == edits[i - 1].range.startByte && range.endByte < edits[i - 1].range.endByte))
    case Overlap => i > 0 && !Before(edits[i - 1], edits[i])
  }

  lemma {:induction false} InsertedGrows(edits: seq<Edit>, i: nat, j: nat)
    requires i <= j <= |edits|
    ensures Inserted(edits, i) <= Inserted(edits, j)
    decreases j
  {
    if i < j { InsertedGrows(edits, i, j - 1); }
  }

  /** An edit that can be blamed for something makes the list invalid. */
  lemma BlamedIsInvalid(valid: TextRange -> bool, selection: TextRange, edits: seq<Edit>, i: nat, error: EditError)
    requires i < |edits|
    requires Blames(valid, selection, edits, i, error)
    requires RunsForward(valid)
    ensures !ValidEdits(valid, selection, edits)
  {
    if ValidEdits(valid, selection, edits) {
      assert EditOk(valid, selection, edits[i]);
      if error.TotalLimit? {
        InsertedGrows(edits, i + 1, |edits|);
      }
      assert false;
    }
  }

  /** The checks of `validate_response` on the edits. */
  method ValidateEdits(source: Text, selection: TextRange, edits: seq<Edit>) returns (error: Option<EditError>)
    requires WellFormed(source)
    ensures error.None? <==> ValidEdits(RangesOf(source), selection, edits)
    ensures error == Some(EditCount) <==> |edits| == 0 || |edits| > MAX_EDITS
    ensures error.Some? && error.value != EditCount ==>
              exists i :: 0 <= i < |edits| && SoFar(RangesOf(source), selection, edits, i)
                          && Blames(RangesOf(source), selection, edits, i, error.value)
  {
    RangesRunForward(source);
    error := ValidateBy(RangesOf(source), selection, edits);
  }

  lemma RangesRunForward(source: Text)
    requires WellFormed(source)
    ensures RunsForward(RangesOf(source))
  {
  }

  method ValidateBy(valid: TextRange -> bool, selection: TextRange, edits: seq<Edit>) returns (error: Option<EditError>)
    requires RunsForward(valid)
    ensures error.None? <==> ValidEdits(valid, selection, edits)
    ensures error == Some(EditCount) <==> |edits| == 0 || |edits| > MAX_EDITS
    ensures error.Some? && error.value != EditCount ==>
              exists i :: 0 <= i < |edits| && SoFar(valid, selection, edits, i)
                          && Blames(valid, selection, edits, i, error.value)
  {
    if |edits| == 0 || |edits| > MAX_EDITS {
      return Some(EditCount);
    }
    ghost var at;
    error, at := CheckEdits(valid, selection, edits);
    if error.Some? {
      PassedIsSoFar(valid, selection, edits, at);
      BlamedIsInvalid(valid, selection, edits, at, error.value);
    } else {
      PassedIsSoFar(valid, selection, edits, |edits|);
    }
  }

  /** Edit `i` is fine by itself and after its neighbour. */
  predicate Passes(valid: TextRange -> bool, selection: TextRange, edits: seq<Edit>, i: nat)
    requires i < |edits|
  {
    && EditOk(valid, selection, edits[i]) && Inserted(edits, i + 1) <= MAX_EDIT_BYTES
    && (i == 0 || Before(edits[i - 1], edits[i]))
  }

  /** Each of the first `count` edits passes. */
  predicate Passed(valid: TextRange -> bool, selection: TextRange, edits: seq<Edit>, count: nat)
    requires count <= |edits|
  {
    count == 0 || (Passed(valid, selection, edits, count - 1) && Passes(valid, selection, edits, count - 1))
  }

  lemma {:induction false} PassedEach(valid: TextRange -> bool, selection: TextRange, edits: seq<Edit>, count: nat,
                                      i: nat)
    requires i < count <= |edits| && Passed(valid, selection, edits, count)
    ensures Passes(valid, selection, edits, i)
  {
    if i < count - 1 { PassedEach(valid, selection, edits, count - 1, i); }
  }

  /** Being before is transitive over ranges that run forward, so comparing
      neighbours compares every pair. */
  lemma BeforeIsTransitive(a: Edit, b: Edit, c: Edit)
    requires Before(a, b) && Before(b, c)
    requires a.range.startByte <= a.range.endByte && b.range.startByte <= b.range.endByte
    requires c.range.startByte <= c.range.endByte
    ensures Before(a, c)
  {
  }

  lemma Forward(valid: TextRange -> bool, selection: TextRange, edits: seq<Edit>, count: nat, i: nat)
    requires i < count <= |edits| && Passed(valid, selection, edits, count)
    requires RunsForward(valid)
    ensures edits[i].range.startByte <= edits[i].range.endByte
  {
    PassedEach(valid, selection, edits, count, i);
  }

  lemma {:induction false} PassedBefore(valid: TextRange -> bool, selection: TextRange, edits: seq<Edit>, count: nat,
                                        a: nat, b: nat)
    requires a < b < count <= |edits| && Passed(valid, selection, edits, count)
    requires RunsForward(valid)
    ensures Before(edits[a], edits[b])
    decreases b
  {
    PassedEach(valid, selection, edits, count, b);
    if a < b - 1 {
      PassedBefore(valid, selection, edits, count, a, b - 1);
      Forward(valid, selection, edits, count, a);
      Forward(valid, selection, edits, count, b - 1);
      Forward(valid, selection, edits, count, b);
      BeforeIsTransitive(edits[a], edits[b - 1], edits[b]);
    }
  }

  lemma PassedIsSoFar(valid: TextRange -> bool, selection: TextRange, edits: seq<Edit>, count: nat)
    requires count <= |edits| && Passed(valid, selection, edits, count)
    requires RunsForward(valid)
    ensures SoFar(valid, selection, edits, count)
  {
    forall i | 0 <= i < count ensures EditOk(valid, selection, edits[i]) {
      PassedEach(valid, selection, edits, count, i);
    }
    forall a, b | 0 <= a < b < count ensures Before(edits[a], edits[b]) {
      PassedBefore(valid, selection, edits, count, a, b);
    }
    if count > 0 { PassedEach(valid, selection, edits, count, count - 1); }
  }

  /** The loop over the edits; `at` is the first bad one. */
  method CheckEdits(valid: TextRange -> bool, selection: TextRange, edits: seq<Edit>)
    returns (error: Option<EditError>, ghost at: nat)
    requires RunsForward(valid)
    ensures error.None? ==> Passed(valid, selection, edits, |edits|)
    ensures error.Some? ==>
              && at < |edits| && Passed(valid, selection, edits, at)
              && error.value != EditCount && Blames(valid, selection, edits, at, error.value)
  {
    error, at := None, 0;
    var total: nat := 0;
    for i := 0 to |edits|
      invariant error.None? && Passed(valid, selection, edits, i) && total == Inserted(edits, i)
    {
      at := i;
      error := CheckEdit(valid, selection, edits, i, total);
      if error.Some? {
        return;
      }
      total := total + |edits[i].newText|;
    }
  }

  /** One turn of the loop. */
  method CheckEdit(valid: TextRange -> bool, selection: TextRange, edits: seq<Edit>, i: nat, total: nat)
    returns (error: Option<EditError>)
    requires i < |edits|
    requires total == Inserted(edits, i) && Passed(valid, selection, edits, i)
    requires RunsForward(valid)
    ensures error.None? <==> Passes(valid, selection, edits, i)
    ensures error.Some? ==> error.value != EditCount && Blames(valid, selection, edits, i, error.value)
  {
    error := CheckAlone(valid, selection, edits[i]);
    if error.Some? {
      return;
    }
    if total + |edits[i].newText| > MAX_EDIT_BYTES {
      return Some(TotalLimit);
    }
    if i > 0 {
      assert Passes(valid, selection, edits, i - 1);
      error := CheckAgainst(edits[i - 1], edits[i]);
    }
  }

  /** The checks on one edit. */
  method CheckAlone(valid: TextRange -> bool, selection: TextRange, edit: Edit) returns (error: Option<EditError>)
    ensures error.None? <==> EditOk(valid, selection, edit)
    ensures error.Some? ==> error.value in {InvalidRange, EscapesSelection, TextLimit}
    ensures error.Some? ==> Blames(valid, selection, [edit], 0, error.value)
  {
    if !valid(edit.range) {
      return Some(InvalidRange);
    }
    if edit.range.startByte < selection.startByte || edit.range.endByte > selection.endByte {
      return Some(EscapesSelection);
    }
    if |edit.newText| > MAX_EDIT_TEXT_BYTES || HoldsTerminalControl(edit.newText) {
      return Some(TextLimit);
    }
    return None;
  }

  /** The checks between neighbours. */
  method CheckAgainst(previous: Edit, edit: Edit) returns (error: Option<EditError>)
    requires previous.range.startByte <= previous.range.endByte
    requires edit.range.startByte <= edit.range.endByte
    ensures error.None? <==> Before(previous, edit)
    ensures error == Some(Unsorted) <==>
              || edit.range.startByte < previous.range.startByte
              || (edit.range.startByte == previous.range.startByte && edit.range.endByte < previous.range.endByte)
    ensures error.Some? ==> error.value in {Unsorted, Overlap}
  {
    var a, b := previous.range, edit.range;
    if b.startByte < a.startByte || (b.startByte == a.startByte && b.endByte < a.endByte) {
      return Some(Unsorted);
    }
    var duplicateInsertion := a.startByte == a.endByte && b.startByte == b.endByte && a.startByte == b.startByte;
    if b.startByte < a.endByte || duplicateInsertion {
      return Some(Overlap);
    }
    return None;
  }

  // ----- The simultaneous splice

  /** Edit `k` runs forward inside the base text and ends before the next. */
  predicate Fits(source: Text, edits: seq<Edit>, k: nat)
    requires k < |edits|
  {
    && edits[k].range.startByte <= edits[k].range.endByte <= |source|
    && (k + 1 < |edits| ==> edits[k].range.endByte <= edits[k + 1].range.startByte)
  }

  predicate Orderly(source: Text, edits: seq<Edit>) {
    forall k :: 0 <= k < |edits| ==> Fits(source, edits, k)
  }

  predicate OnBoundaries(source: Text, edit: Edit) {
    && IsBoundary(source, edit.range.startByte) && IsBoundary(source, edit.range.endByte)
    && WellFormed(edit.newText)
  }

  /** What application needs of the edits: in order, and on boundaries. */
  predicate Applicable(source: Text, edits: seq<Edit>) {
    Orderly(source, edits) && forall i :: 0 <= i < |edits| ==> OnBoundaries(source, edits[i])
  }

  lemma ValidIsApplicable(source: Text, selection: TextRange, edits: seq<Edit>)
    requires WellFormed(source) && AllWellFormed(edits) && ValidEdits(RangesOf(source), selection, edits)
    ensures Applicable(source, edits) && edits != []
    ensures forall i :: 0 <= i < |edits| ==>
              selection.startByte <= edits[i].range.startByte && edits[i].range.endByte <= selection.endByte
  {
    forall i | 0 <= i < |edits| ensures EditOk(RangesOf(source), selection, edits[i]) {}
    forall k | 0 <= k < |edits| ensures Fits(source, edits, k) {
      assert k + 1 < |edits| ==> Before(edits[k], edits[k + 1]);
    }
  }

  /** `from` is not past the start of edit `k`. */
  predicate Ahead(edits: seq<Edit>, k: nat, from: nat) {
    k <= |edits| && (k < |edits| ==> from <= edits[k].range.startByte)
  }

  /** The base text from `from` on, read once from left to right, with the
      ranges of the edits from `k` on replaced. */
  function Spliced(source: Text, edits: seq<Edit>, k: nat, from: nat): Text
    requires Orderly(source, edits) && from <= |source| && Ahead(edits, k, from)
    decreases |edits| - k
  {
    if k == |edits| then source[from..]
    else
      assert Fits(source, edits, k);
      Head(source, edits[k], from) + Spliced(source, edits, k + 1, edits[k].range.endByte)
  }

  /** Up to the end of one edit. */
  function Head(source: Text, edit: Edit, from: nat): Text
    requires from <= edit.range.startByte <= |source|
  {
    source[from..edit.range.startByte] + edit.newText
  }

  /** The unedited text ahead of the next edit is a prefix. */
  lemma SplicedAhead(source: Text, edits: seq<Edit>, k: nat, from: nat, to: nat)
    requires Orderly(source, edits) && from <= to <= |source| && Ahead(edits, k, to)
    ensures Spliced(source, edits, k, from) == source[from..to] + Spliced(source, edits, k, to)
  {
    if k == |edits| {
      assert source[from..] == source[from..to] + source[to..];
    } else {
      var edit := edits[k];
      assert Fits(source, edits, k);
      assert source[from..edit.range.startByte] == source[from..to] + source[to..edit.range.startByte];
      Regroup(source[from..to], source[to..edit.range.startByte], edit.newText,
              Spliced(source, edits, k + 1, edit.range.endByte));
    }
  }

  lemma Regroup(a: Text, b: Text, c: Text, d: Text)
    ensures ((a + b) + c) + d == a + ((b + c) + d)
  {
  }

  lemma {:induction false} SplicedIsWellFormed(source: Text, edits: seq<Edit>, k: nat, from: nat)
    requires WellFormed(source) && Applicable(source, edits) && IsBoundary(source, from) && Ahead(edits, k, from)
    ensures WellFormed(Spliced(source, edits, k, from))
    decreases |edits| - k
  {
    if k == |edits| {
      SplitAtBoundary(source, from);
    } else {
      var edit := edits[k];
      assert Fits(source, edits, k) && OnBoundaries(source, edit);
      BetweenIsWellFormed(source, from, edit.range.startByte);
      SplicedIsWellFormed(source, edits, k + 1, edit.range.endByte);
      ConcatIsWellFormed(source[from..edit.range.startByte], edit.newText);
      ConcatIsWellFormed(Head(source, edit, from), Spliced(source, edits, k + 1, edit.range.endByte));
    }
  }

  // ----- In-place application

  /** `String::replace_range`, which panics unless its precondition holds. */
  function Replaced(raw: Text, start: nat, end: nat, text: Text): Text
    requires start <= end && IsBoundary(raw, start) && IsBoundary(raw, end)
  {
    raw[..start] + text + raw[end..]
  }

  /** An offset not past `to` is a boundary after later edits too. */
  lemma BoundarySurvives(source: Text, edits: seq<Edit>, k: nat, b: nat, to: nat)
    requires WellFormed(source) && Applicable(source, edits) && IsBoundary(source, to) && Ahead(edits, k, to)
    requires IsBoundary(source, b) && b <= to
    ensures IsBoundary(Spliced(source, edits, k, 0), b)
  {
    SplicedAhead(source, edits, k, 0, to);
    SplicedIsWellFormed(source, edits, k, to);
    BoundaryInConcat(source[0..to], Spliced(source, edits, k, to), b);
    assert b < to ==> source[0..to][b] == source[b];
  }

  lemma BoundaryInConcat(a: Text, c: Text, b: nat)
    requires WellFormed(c) && b <= |a| && (0 < b < |a| ==> !IsContinuation(a[b]))
    ensures IsBoundary(a + c, b)
  {
    if b == |a| && c != [] {
      assert (a + c)[b] == c[0];
    }
  }

  /** Replacing an earlier range, after all later edits, is one more step of
      the splice. */
  lemma ReplaceIsSplice(source: Text, edits: seq<Edit>, k: nat)
    requires WellFormed(source) && Applicable(source, edits) && k < |edits|
    ensures var raw, range := Spliced(source, edits, k + 1, 0), edits[k].range;
            && range.startByte <= range.endByte && IsBoundary(raw, range.startByte) && IsBoundary(raw, range.endByte)
            && Replaced(raw, range.startByte, range.endByte, edits[k].newText) == Spliced(source, edits, k, 0)
  {
    var range := edits[k].range;
    assert Fits(source, edits, k) && OnBoundaries(source, edits[k]);
    BoundarySurvives(source, edits, k + 1, range.startByte, range.endByte);
    BoundarySurvives(source, edits, k + 1, range.endByte, range.endByte);
    SplicedAhead(source, edits, k + 1, 0, range.endByte);
    CutAround(source[0..range.endByte], Spliced(source, edits, k + 1, range.endByte), range.startByte);
    assert source[0..range.endByte][..range.startByte] == source[0..range.startByte];
  }

  lemma CutAround(a: Text, c: Text, start: nat)
    requires start <= |a|
    ensures (a + c)[..start] == a[..start] && (a + c)[|a|..] == c
  {
  }

  /** The splice of `candidate_source`: replacements in reverse order. */
  method ApplyEdits(source: Text, edits: seq<Edit>) returns (raw: Text)
    requires WellFormed(source) && Applicable(source, edits)
    ensures raw == Spliced(source, edits, 0, 0)
  {
    raw := source;
    var i := |edits|;
    assert source[0..] == source;
    while i > 0
      invariant 0 <= i <= |edits| && raw == Spliced(source, edits, i, 0)
    {
      i := i - 1;
      ReplaceIsSplice(source, edits, i);
      raw := Replaced(raw, edits[i].range.startByte, edits[i].range.endByte, edits[i].newText);
    }
  }

  /** The bounded candidate, which is UTF-8 again. */
  method CandidateSource(source: Text, edits: seq<Edit>) returns (candidate: Option<Text>)
    requires WellFormed(source) && Applicable(source, edits)
    ensures candidate.None? <==> |Spliced(source, edits, 0, 0)| > MAX_SOURCE_BYTES
    ensures candidate.Some? ==> candidate.value == Spliced(source, edits, 0, 0) && WellFormed(candidate.value)
  {
    var raw := ApplyEdits(source, edits);
    SplicedIsWellFormed(source, edits, 0, 0);
    return if |raw| > MAX_SOURCE_BYTES then None else Some(raw);
  }

  // ----- What the splice is

  /** The bytes the first `count` edits remove. */
  function Removed(edits: seq<Edit>, count: nat): int
    requires count <= |edits|
  {
    if count == 0 then 0
    else Removed(edits, count - 1) + edits[count - 1].range.endByte - edits[count - 1].range.startByte
  }

  /** How far edits `k` up to `i` move what follows them. */
  function Shift(edits: seq<Edit>, k: nat, i: nat): int
    requires k <= i <= |edits|
    decreases i - k
  {
    if k == i then 0 else Growth(edits[k]) + Shift(edits, k + 1, i)
  }

  function Growth(edit: Edit): int {
    |edit.newText| - (edit.range.endByte - edit.range.startByte)
  }

  /** That is what they insert less what they remove. */
  lemma {:induction false} ShiftIsBalance(edits: seq<Edit>, k: nat, i: nat)
    requires k <= i <= |edits|
    ensures Shift(edits, k, i) == Inserted(edits, i) - Inserted(edits, k) - (Removed(edits, i) - Removed(edits, k))
    decreases i - k
  {
    if k < i { ShiftIsBalance(edits, k + 1, i); }
  }

  /** Base length, minus what is removed, plus what is inserted. */
  lemma {:induction false} SplicedLength(source: Text, edits: seq<Edit>, k: nat, from: nat)
    requires Orderly(source, edits) && from <= |source| && Ahead(edits, k, from)
    ensures |Spliced(source, edits, k, from)| == |source| - from + Shift(edits, k, |edits|)
    decreases |edits| - k
  {
    if k < |edits| {
      assert Fits(source, edits, k);
      SplicedLength(source, edits, k + 1, edits[k].range.endByte);
    }
  }

  predicate Holds(s: Text, at: int, part: Text) {
    0 <= at <= at + |part| <= |s| && s[at..at + |part|] == part
  }

  lemma HoldsBehind(head: Text, rest: Text, at: int, part: Text)
    requires Holds(rest, at, part)
    ensures Holds(head + rest, |head| + at, part)
  {
    assert (head + rest)[|head| + at..|head| + at + |part|] == rest[at..at + |part|];
  }

  lemma HoldsAhead(a: Text, part: Text, rest: Text)
    ensures Holds((a + part) + rest, |a|, part)
  {
    assert ((a + part) + rest)[|a|..|a| + |part|] == part;
  }

  /** What stands at base offset `p` behind edit `k`, in terms of the rest
      alone, stands there in the whole. */
  lemma MovedBehind(source: Text, edits: seq<Edit>, k: nat, from: nat, i: nat, p: nat, part: Text)
    requires Orderly(source, edits) && from <= |source| && Ahead(edits, k, from) && k < i <= |edits|
    requires edits[k].range.endByte <= |source| && Ahead(edits, k + 1, edits[k].range.endByte)
    requires Holds(Spliced(source, edits, k + 1, edits[k].range.endByte),
                   p - edits[k].range.endByte + Shift(edits, k + 1, i), part)
    ensures Holds(Spliced(source, edits, k, from), p - from + Shift(edits, k, i), part)
  {
    assert Fits(source, edits, k);
    var head := Head(source, edits[k], from);
    var at := p - edits[k].range.endByte + Shift(edits, k + 1, i);
    HoldsBehind(head, Spliced(source, edits, k + 1, edits[k].range.endByte), at, part);
    assert p - from + Shift(edits, k, i) == |head| + at;
  }

  lemma {:induction false} EndsIncrease(source: Text, edits: seq<Edit>, k: nat, i: nat)
    requires Orderly(source, edits) && k <= i < |edits|
    ensures edits[k].range.endByte <= edits[i].range.endByte <= |source|
    decreases i - k
  {
    assert Fits(source, edits, k);
    if k < i {
      assert Fits(source, edits, k + 1);
      EndsIncrease(source, edits, k + 1, i);
    }
  }

  /** Every edit's text stands where the edits before it push it. */
  lemma {:induction false} EditLands(source: Text, edits: seq<Edit>, k: nat, from: nat, i: nat)
    requires Orderly(source, edits) && from <= |source| && Ahead(edits, k, from) && k <= i < |edits|
    ensures Holds(Spliced(source, edits, k, from), edits[i].range.startByte - from + Shift(edits, k, i),
                  edits[i].newText)
    decreases |edits| - k
  {
    var edit := edits[k];
    assert Fits(source, edits, k);
    var rest := Spliced(source, edits, k + 1, edit.range.endByte);
    if i == k {
      HoldsAhead(source[from..edit.range.startByte], edit.newText, rest);
    } else {
      EndsIncrease(source, edits, k, i);
      EditLands(source, edits, k + 1, edit.range.endByte, i);
      MovedBehind(source, edits, k, from, i, edits[i].range.startByte, edits[i].newText);
    }
  }

  /** Every base byte between two edits, before the first or after the last is
      kept, moved by the edits before it. */
  lemma {:induction false} ByteIsKept(source: Text, edits: seq<Edit>, k: nat, from: nat, i: nat, p: nat)
    requires Orderly(source, edits) && from <= |source| && Ahead(edits, k, from) && k <= i <= |edits|
    requires from <= p < |source|
    requires i > k ==> edits[i - 1].range.endByte <= p
    requires i < |edits| ==> p < edits[i].range.startByte
    ensures Holds(Spliced(source, edits, k, from), p - from + Shift(edits, k, i), [source[p]])
    decreases |edits| - k
  {
    if k == |edits| {
      KeptAlone(source, from, p);
    } else {
      var edit := edits[k];
      assert Fits(source, edits, k);
      var rest := Spliced(source, edits, k + 1, edit.range.endByte);
      if i == k {
        KeptInHead(source, from, p, edit.range.startByte, edit.newText, rest);
      } else {
        EndsIncrease(source, edits, k, i - 1);
        ByteIsKept(source, edits, k + 1, edit.range.endByte, i, p);
        MovedBehind(source, edits, k, from, i, p, [source[p]]);
      }
    }
  }

  lemma KeptAlone(source: Text, from: nat, p: nat)
    requires from <= p < |source|
    ensures Holds(source[from..], p - from, [source[p]])
  {
  }

  lemma KeptInHead(source: Text, from: nat, p: nat, start: nat, text: Text, rest: Text)
    requires from <= p < start <= |source|
    ensures Holds((source[from..start] + text) + rest, p - from, [source[p]])
  {
    var s := (source[from..start] + text) + rest;
    assert s[p - from] == source[p];
  }

  lemma {:induction false} SplicedBehind(source: Text, edits: seq<Edit>, k: nat, from: nat, end: nat)
    requires Orderly(source, edits) && from <= end <= |source| && Ahead(edits, k, from)
    requires forall i :: k <= i < |edits| ==> edits[i].range.endByte <= end
    ensures EndsIn(Spliced(source, edits, k, from), source[end..])
    decreases |edits| - k
  {
    if k < |edits| {
      assert Fits(source, edits, k);
      SplicedBehind(source, edits, k + 1, edits[k].range.endByte, end);
    }
  }

  predicate EndsIn(s: Text, tail: Text) {
    |tail| <= |s| && s[|s| - |tail|..] == tail
  }

  /** A validated response changes nothing outside the selection. */
  lemma SelectionBoundsTheChange(source: Text, selection: TextRange, edits: seq<Edit>)
    requires WellFormed(source) && AllWellFormed(edits) && ValidRange(source, selection)
    requires ValidEdits(RangesOf(source), selection, edits)
    ensures Applicable(source, edits)
    ensures var result := Spliced(source, edits, 0, 0);
            && |result| == |source| - Removed(edits, |edits|) + Inserted(edits, |edits|)
            && source[..selection.startByte] <= result
            && EndsIn(result[selection.startByte..], source[selection.endByte..])
  {
    ValidIsApplicable(source, selection, edits);
    OutsideIsKept(source, edits, selection.startByte, selection.endByte);
  }

  lemma OutsideIsKept(source: Text, edits: seq<Edit>, start: nat, end: nat)
    requires Orderly(source, edits) && edits != [] && start <= end <= |source|
    requires forall i :: 0 <= i < |edits| ==> start <= edits[i].range.startByte && edits[i].range.endByte <= end
    ensures var result := Spliced(source, edits, 0, 0);
            && |result| == |source| - Removed(edits, |edits|) + Inserted(edits, |edits|)
            && source[..start] <= result && EndsIn(result[start..], source[end..])
  {
    SplicedLength(source, edits, 0, 0);
    ShiftIsBalance(edits, 0, |edits|);
    SplicedAhead(source, edits, 0, 0, start);
    SplicedBehind(source, edits, 0, start, end);
    CutAround(source[0..start], Spliced(source, edits, 0, start), start);
  }
}
