/** Lines and UTF-16 columns against bytes: the strict index of the assist crate
    and the clamping one of the language server
    (`crates/krit-assist/src/context.rs`, `crates/krit-lsp/src/position.rs`). */
module TextPosition {
  import opened Utf8
  import opened Wrappers

  const LF: Byte := 0x0A
  const CR: Byte := 0x0D
  const U32_LIMIT := 0x1_0000_0000

  type U32 = n: int | 0 <= n < U32_LIMIT

  datatype Position = Position(line: U32, character: U32)
  datatype PositionError = LineOutside | SplitsSurrogatePair | CharacterOutside | Reversed

  // ----- UTF-16 lengths

  /** `char::len_utf16` of the character that begins with `lead`. */
  function UnitsOf(lead: Byte): nat {
    if lead >= 0xF0 then 2 else 1
  }

  /** Where the character that begins at `a` ends. */
  function Next(text: Text, a: nat): (next: nat)
    requires a < |text|
    ensures a < next <= |text| && IsBoundary(text, next)
    ensures forall b :: a < b < next ==> !IsBoundary(text, b)
  {
    BoundaryAfter(text, a + 1)
  }

  /** The sum of `len_utf16` over the characters between two boundaries. */
  function UnitsBetween(text: Text, a: nat, b: nat): nat
    requires a <= b && IsBoundary(text, b)
    decreases b - a
  {
    if a == b then 0 else UnitsOf(text[a]) + UnitsBetween(text, Next(text, a), b)
  }

  lemma {:induction false} UnitsAdd(text: Text, a: nat, b: nat, c: nat)
    requires a <= b <= c && IsBoundary(text, b) && IsBoundary(text, c)
    ensures UnitsBetween(text, a, c) == UnitsBetween(text, a, b) + UnitsBetween(text, b, c)
    decreases b - a
  {
    if a < b { UnitsAdd(text, Next(text, a), b, c); }
  }

  lemma UnitsOfOne(text: Text, a: nat)
    requires a < |text|
    ensures UnitsBetween(text, a, Next(text, a)) == UnitsOf(text[a])
  {
    assert UnitsBetween(text, Next(text, a), Next(text, a)) == 0;
  }

  /** A character of two units has four bytes. */
  lemma UnitsFit(text: Text, a: nat)
    requires WellFormed(text) && IsBoundary(text, a) && a < |text|
    ensures a + UnitsOf(text[a]) <= Next(text, a)
  {
    NextBoundary(text, a);
    var n := HeadLength(text[a..]);
    assert text[a..][0] == text[a];
    assert Next(text, a) == a + n;
  }

  lemma {:induction false} UnitsAtMostBytes(text: Text, a: nat, b: nat)
    requires WellFormed(text) && IsBoundary(text, a) && IsBoundary(text, b) && a <= b
    ensures UnitsBetween(text, a, b) <= b - a
    decreases b - a
  {
    if a < b {
      UnitsFit(text, a);
      UnitsAtMostBytes(text, Next(text, a), b);
    }
  }

  // ----- Line starts

  /** `0`, and the offset after each line feed. */
  function Starts(text: Text): (starts: seq<nat>)
    ensures |starts| > 0 && starts[0] == 0
  {
    if text == [] then [0]
    else Starts(text[..|text| - 1]) + (if text[|text| - 1] == LF then [|text|] else [])
  }

  /** `Utf16Index::new` and `LineIndex::new`: one pass over the bytes. */
  method BuildStarts(text: Text) returns (starts: seq<nat>)
    ensures starts == Starts(text)
  {
    starts := [0];
    for index := 0 to |text|
      invariant starts == Starts(text[..index])
    {
      assert text[..index + 1][..index] == text[..index];
      if text[index] == LF {
        starts := starts + [index + 1];
      }
    }
    assert text[..|text|] == text;
  }

  lemma {:induction false} StartsIncrease(text: Text)
    ensures forall i, j :: 0 <= i < j < |Starts(text)| ==> Starts(text)[i] < Starts(text)[j]
    ensures forall i :: 0 <= i < |Starts(text)| ==> Starts(text)[i] <= |text|
  {
    if text != [] { StartsIncrease(text[..|text| - 1]); }
  }

  lemma {:induction false} StartFollowsFeed(text: Text, i: nat)
    requires 0 < i < |Starts(text)|
    ensures 0 < Starts(text)[i] <= |text| && text[Starts(text)[i] - 1] == LF
  {
    var front := text[..|text| - 1];
    if i < |Starts(front)| {
      StartFollowsFeed(front, i);
    }
  }

  lemma {:induction false} FeedHasStart(text: Text, b: nat)
    requires b < |text| && text[b] == LF
    ensures b + 1 in Starts(text)
  {
    var front := text[..|text| - 1];
    if b < |front| { FeedHasStart(front, b); }
  }

  /** `partition_point(|start| start <= byte)`. */
  function CountUpTo(starts: seq<nat>, byte: nat): nat {
    if starts == [] || starts[0] > byte then 0 else 1 + CountUpTo(starts[1..], byte)
  }

  lemma {:induction false} CountIsLine(starts: seq<nat>, byte: nat, line: nat)
    requires forall i, j :: 0 <= i < j < |starts| ==> starts[i] < starts[j]
    requires line < |starts| && starts[line] <= byte && (line + 1 < |starts| ==> byte < starts[line + 1])
    ensures CountUpTo(starts, byte) == line + 1
    decreases line
  {
    if line > 0 {
      assert starts[0] < starts[line];
      CountIsLine(starts[1..], byte, line - 1);
    } else if |starts| > 1 {
      assert starts[1..][0] == starts[1];
    }
  }

  /** The line a byte is on, as the index finds it. */
  lemma {:induction false} CountFinds(starts: seq<nat>, byte: nat)
    requires forall i, j :: 0 <= i < j < |starts| ==> starts[i] < starts[j]
    requires |starts| > 0 && starts[0] <= byte
    ensures 0 < CountUpTo(starts, byte) <= |starts|
    ensures var line := CountUpTo(starts, byte) - 1;
            starts[line] <= byte && (line + 1 < |starts| ==> byte < starts[line + 1])
  {
    if |starts| > 1 && starts[1] <= byte {
      CountFinds(starts[1..], byte);
    } else if |starts| > 1 {
      assert starts[1..][0] == starts[1];
    }
  }

  function LineOf(text: Text, byte: nat): (line: nat)
    requires byte <= |text|
    ensures line < |Starts(text)| && Starts(text)[line] <= byte
    ensures line + 1 < |Starts(text)| ==> byte < Starts(text)[line + 1]
  {
    StartsIncrease(text);
    CountFinds(Starts(text), byte);
    CountUpTo(Starts(text), byte) - 1
  }

  lemma StartIsBoundary(text: Text, line: nat)
    requires WellFormed(text) && line < |Starts(text)|
    ensures IsBoundary(text, Starts(text)[line])
  {
    StartsIncrease(text);
    var start := Starts(text)[line];
    if line > 0 {
      StartFollowsFeed(text, line);
      AsciiIsBoundary(text, start - 1);
    }
  }

  // ----- Content of a line

  /** `line_content_end`: before the line's LF or CRLF. */
  function LineContentEnd(text: Text, line: nat): nat
    requires line < |Starts(text)|
  {
    var starts := Starts(text);
    if line + 1 >= |starts| then |text|
    else
      StartFollowsFeed(text, line + 1);
      var feed := starts[line + 1] - 1;
      if feed > 0 && text[feed - 1] == CR then feed - 1 else feed
  }

  /** The next line begins after a line feed of this one. */
  lemma FeedOf(text: Text, line: nat) returns (feed: nat)
    requires line + 1 < |Starts(text)|
    ensures Starts(text)[line] <= feed < |text| && Starts(text)[line + 1] == feed + 1 && text[feed] == LF
    ensures 0 < Starts(text)[line] ==> text[Starts(text)[line] - 1] == LF
  {
    StartsIncrease(text);
    StartFollowsFeed(text, line + 1);
    if line > 0 { StartFollowsFeed(text, line); }
    feed := Starts(text)[line + 1] - 1;
  }

  lemma ContentEndFacts(text: Text, line: nat)
    requires WellFormed(text) && line < |Starts(text)|
    ensures var end := LineContentEnd(text, line);
            && Starts(text)[line] <= end <= |text| && IsBoundary(text, end)
            && (line + 1 < |Starts(text)| ==> end < Starts(text)[line + 1])
  {
    if line + 1 < |Starts(text)| {
      var feed := FeedOf(text, line);
      AsciiIsBoundary(text, feed);
      if feed > 0 && text[feed - 1] == CR {
        AsciiIsBoundary(text, feed - 1);
      }
    } else {
      StartsIncrease(text);
    }
  }

  // ----- Offsets and positions

  /** The scan of `offset` over one line's characters.  Past the last of them the
      strict index wants an exact match and the other clamps. */
  function Scan(text: Text, cursor: nat, end: nat, units: nat, target: nat, strict: bool): Result<nat, PositionError>
    requires cursor <= end && IsBoundary(text, end)
    decreases end - cursor
  {
    if cursor == end then (if units == target || !strict then Ok(end) else Err(CharacterOutside))
    else if units == target then Ok(cursor)
    else
      var next := units + UnitsOf(text[cursor]);
      if target < next then Err(SplitsSurrogatePair)
      else Scan(text, Next(text, cursor), end, next, target, strict)
  }

  function OffsetIn(text: Text, position: Position, strict: bool): Result<nat, PositionError>
    requires WellFormed(text)
  {
    if position.line >= |Starts(text)| then Err(LineOutside)
    else
      StartIsBoundary(text, position.line);
      ContentEndFacts(text, position.line);
      Scan(text, Starts(text)[position.line], LineContentEnd(text, position.line), 0, position.character, strict)
  }

  /** `offset`: the loop over `char_indices`. */
  method FindOffset(text: Text, position: Position, strict: bool) returns (offset: Result<nat, PositionError>)
    requires WellFormed(text)
    ensures offset == OffsetIn(text, position, strict)
  {
    var starts := BuildStarts(text);
    if position.line >= |starts| {
      return Err(LineOutside);
    }
    StartIsBoundary(text, position.line);
    ContentEndFacts(text, position.line);
    offset := ScanLine(text, starts[position.line], LineContentEnd(text, position.line), position.character, strict);
  }

  method ScanLine(text: Text, start: nat, end: nat, target: nat, strict: bool)
    returns (offset: Result<nat, PositionError>)
    requires start <= end && IsBoundary(text, end)
    ensures offset == Scan(text, start, end, 0, target, strict)
  {
    var cursor, units: nat := start, 0;
    while cursor < end
      invariant start <= cursor <= end
      invariant Scan(text, cursor, end, units, target, strict) == Scan(text, start, end, 0, target, strict)
    {
      if units == target {
        return Ok(cursor);
      }
      var next := units + UnitsOf(text[cursor]);
      if target < next {
        return Err(SplitsSurrogatePair);
      }
      cursor := Next(text, cursor);
      units := next;
    }
    return if units == target || !strict then Ok(end) else Err(CharacterOutside);
  }

  /** The column of a boundary before its truncation to 32 bits. */
  function ColumnOf(text: Text, b: nat): nat
    requires WellFormed(text) && IsBoundary(text, b)
  {
    StartIsBoundary(text, LineOf(text, b));
    UnitsBetween(text, Starts(text)[LineOf(text, b)], b)
  }

  /** `as u32`. */
  function Truncated(n: nat): (r: U32)
    ensures n < U32_LIMIT <==> r == n
  {
    n % U32_LIMIT
  }

  /** `Utf16Index::position`, with its truncating casts. */
  function PositionAt(text: Text, byte: nat): Position
    requires WellFormed(text) && IsBoundary(text, byte)
  {
    Position(Truncated(LineOf(text, byte)), Truncated(ColumnOf(text, byte)))
  }

  // ----- The two are inverse

  lemma {:induction false} ScanFinds(text: Text, start: nat, cursor: nat, end: nat, target: nat)
    requires start <= cursor <= end && IsBoundary(text, cursor) && IsBoundary(text, end)
    ensures match Scan(text, cursor, end, UnitsBetween(text, start, cursor), target, true)
            case Ok(b) => cursor <= b <= end && IsBoundary(text, b) && UnitsBetween(text, start, b) == target
            case Err(_) => true
    decreases end - cursor
  {
    var units := UnitsBetween(text, start, cursor);
    if cursor < end && units != target {
      var next := Next(text, cursor);
      UnitsAdd(text, start, cursor, next);
      UnitsOfOne(text, cursor);
      if units + UnitsOf(text[cursor]) <= target {
        ScanFinds(text, start, next, end, target);
      }
    }
  }

  lemma {:induction false} ScanReaches(text: Text, start: nat, cursor: nat, b: nat, end: nat)
    requires start <= cursor <= b <= end && IsBoundary(text, cursor) && IsBoundary(text, b) && IsBoundary(text, end)
    ensures Scan(text, cursor, end, UnitsBetween(text, start, cursor), UnitsBetween(text, start, b), true) == Ok(b)
    decreases end - cursor
  {
    UnitsAdd(text, start, cursor, b);
    if cursor < b {
      var next := Next(text, cursor);
      UnitsOfOne(text, cursor);
      UnitsAdd(text, start, cursor, next);
      UnitsAdd(text, start, next, b);
      ScanReaches(text, start, next, b, end);
    }
  }

  lemma {:induction false} ScanClamps(text: Text, cursor: nat, end: nat, units: nat, target: nat)
    requires cursor <= end && IsBoundary(text, end)
    ensures var strict := Scan(text, cursor, end, units, target, true);
            Scan(text, cursor, end, units, target, false) == if strict == Err(CharacterOutside) then Ok(end) else strict
    decreases end - cursor
  {
    if cursor < end && units != target {
      var next := units + UnitsOf(text[cursor]);
      if next <= target {
        ScanClamps(text, Next(text, cursor), end, next, target);
      }
    }
  }

  predicate SplitsLineBreak(text: Text, b: nat) {
    0 < b < |text| && text[b - 1] == CR && text[b] == LF
  }

  /** What a strict answer means: the boundary on that line, at that column. */
  lemma StrictOffsetIsExact(text: Text, p: Position, b: nat)
    requires WellFormed(text) && OffsetIn(text, p, true) == Ok(b)
    ensures IsBoundary(text, b) && LineOf(text, b) == p.line && ColumnOf(text, b) == p.character
    ensures !SplitsLineBreak(text, b)
  {
    StartsIncrease(text);
    var start, end := Starts(text)[p.line], LineContentEnd(text, p.line);
    StartIsBoundary(text, p.line);
    ContentEndFacts(text, p.line);
    assert UnitsBetween(text, start, start) == 0;
    ScanFinds(text, start, start, end, p.character);
    CountIsLine(Starts(text), b, p.line);
    if SplitsLineBreak(text, b) {
      BreakIsOutsideContent(text, b);
    }
  }

  /** The line after a line feed's own begins just behind it. */
  lemma FeedEndsItsLine(text: Text, b: nat)
    requires b < |text| && text[b] == LF
    ensures var line := LineOf(text, b);
            line + 1 < |Starts(text)| && Starts(text)[line + 1] == b + 1
  {
    StartsIncrease(text);
    FeedHasStart(text, b);
    var next :| 0 <= next < |Starts(text)| && Starts(text)[next] == b + 1;
    var line := LineOf(text, b);
    assert line < next;
  }

  /** The content of a boundary's line ends before it exactly inside a CRLF. */
  lemma BreakIsOutsideContent(text: Text, b: nat)
    requires b <= |text|
    ensures LineContentEnd(text, LineOf(text, b)) < b <==> SplitsLineBreak(text, b)
  {
    var line := LineOf(text, b);
    if b < |text| && text[b] == LF {
      FeedEndsItsLine(text, b);
    } else if line + 1 < |Starts(text)| {
      StartFollowsFeed(text, line + 1);
    }
  }

  /** Wherever the strict index answers, its answer has the position it was asked
      for. */
  lemma PositionUndoesOffset(text: Text, p: Position, b: nat)
    requires WellFormed(text) && OffsetIn(text, p, true) == Ok(b)
    ensures IsBoundary(text, b) && PositionAt(text, b) == p
  {
    StrictOffsetIsExact(text, p, b);
  }

  /** The position of a boundary leads back to it exactly if it is outside a CRLF
      and its line and column fit in 32 bits. */
  lemma OffsetUndoesPosition(text: Text, b: nat)
    requires WellFormed(text) && IsBoundary(text, b)
    ensures OffsetIn(text, PositionAt(text, b), true) == Ok(b) <==>
              !SplitsLineBreak(text, b) && LineOf(text, b) < U32_LIMIT && ColumnOf(text, b) < U32_LIMIT
  {
    var p := PositionAt(text, b);
    if OffsetIn(text, p, true) == Ok(b) {
      StrictOffsetIsExact(text, p, b);
    }
    if !SplitsLineBreak(text, b) && LineOf(text, b) < U32_LIMIT && ColumnOf(text, b) < U32_LIMIT {
      OffsetOfColumn(text, b);
    }
  }

  lemma OffsetOfColumn(text: Text, b: nat)
    requires WellFormed(text) && IsBoundary(text, b) && !SplitsLineBreak(text, b)
    requires LineOf(text, b) < U32_LIMIT && ColumnOf(text, b) < U32_LIMIT
    ensures OffsetIn(text, Position(LineOf(text, b), ColumnOf(text, b)), true) == Ok(b)
  {
    var line := LineOf(text, b);
    var start, end := Starts(text)[line], LineContentEnd(text, line);
    BreakIsOutsideContent(text, b);
    StartIsBoundary(text, line);
    ContentEndFacts(text, line);
    assert UnitsBetween(text, start, start) == 0;
    ScanReaches(text, start, start, b, end);
  }

  /** Every text shorter than 4 GiB is within the 32-bit condition. */
  lemma ShortTextFits(text: Text, b: nat)
    requires WellFormed(text) && IsBoundary(text, b) && |text| < U32_LIMIT
    ensures LineOf(text, b) < U32_LIMIT && ColumnOf(text, b) < U32_LIMIT
  {
    var line := LineOf(text, b);
    StartsBelow(text, line);
    StartIsBoundary(text, line);
    UnitsAtMostBytes(text, Starts(text)[line], b);
  }

  lemma {:induction false} StartsBelow(text: Text, line: nat)
    requires line < |Starts(text)|
    ensures line <= Starts(text)[line] <= |text|
  {
    StartsIncrease(text);
    if line > 0 {
      assert Starts(text)[line - 1] < Starts(text)[line];
      StartsBelow(text, line - 1);
    }
  }

  /** The language server's index answers as the strict one does, except that
      it clamps a column past the line to the end of the line's content. */
  lemma ClampingAgreesWithStrict(text: Text, p: Position)
    requires WellFormed(text)
    ensures var strict := OffsetIn(text, p, true);
            OffsetIn(text, p, false) ==
              if strict == Err(CharacterOutside) then Ok(LineContentEnd(text, p.line)) else strict
  {
    if p.line < |Starts(text)| {
      StartIsBoundary(text, p.line);
      ContentEndFacts(text, p.line);
      ScanClamps(text, Starts(text)[p.line], LineContentEnd(text, p.line), 0, p.character);
    } else {
      assert OffsetIn(text, p, true) == Err(LineOutside);
    }
  }

  // ----- The language server's position of any byte

  /** `LineIndex::position`: clamp, step back to a boundary, then count. */
  method PositionOfByte(text: Text, byte: nat) returns (position: Position, boundary: nat)
    requires WellFormed(text)
    ensures IsBoundary(text, boundary) && boundary <= byte
    ensures forall b :: boundary < b <= byte ==> !IsBoundary(text, b)
    ensures position == PositionAt(text, boundary)
  {
    boundary := if byte < |text| then byte else |text|;
    while boundary > 0 && boundary < |text| && IsContinuation(text[boundary])
      invariant 0 <= boundary <= |text| && boundary <= byte
      invariant forall b :: boundary < b <= byte ==> !IsBoundary(text, b)
    {
      boundary := boundary - 1;
    }
    position := PositionAt(text, boundary);
  }

  // ----- Ranges

  datatype TextRange = TextRange(startByte: nat, endByte: nat, start: Position, end: Position)
  datatype RequestedRange = WholeDocument | Utf16(start: Position, end: Position)

  function RangeAt(text: Text, start: nat, end: nat): TextRange
    requires WellFormed(text) && IsBoundary(text, start) && IsBoundary(text, end)
  {
    TextRange(start, end, PositionAt(text, start), PositionAt(text, end))
  }

  /** `validate_text_range`. */
  predicate ValidRange(text: Text, range: TextRange)
    requires WellFormed(text)
  {
    && range.startByte <= range.endByte <= |text|
    && IsBoundary(text, range.startByte) && IsBoundary(text, range.endByte)
    && range == RangeAt(text, range.startByte, range.endByte)
  }

  function Resolve(text: Text, requested: RequestedRange): Result<TextRange, PositionError>
    requires WellFormed(text)
  {
    match requested
    case WholeDocument => Ok(RangeAt(text, 0, |text|))
    case Utf16(start, end) =>
      match OffsetIn(text, start, true)
      case Err(error) => Err(error)
      case Ok(startByte) =>
        match OffsetIn(text, end, true)
        case Err(error) => Err(error)
        case Ok(endByte) =>
          if startByte > endByte then Err(Reversed) else Ok(TextRange(startByte, endByte, start, end))
  }

  /** `resolve_range` and `validate_text_range` agree: what is resolved is
      valid, and a valid range outside line breaks is what its own positions
      resolve to. */
  lemma ResolvedIsValid(text: Text, requested: RequestedRange, range: TextRange)
    requires WellFormed(text) && Resolve(text, requested) == Ok(range)
    ensures ValidRange(text, range)
  {
    if requested.Utf16? {
      PositionUndoesOffset(text, requested.start, range.startByte);
      PositionUndoesOffset(text, requested.end, range.endByte);
    }
  }

  lemma ValidResolvesBack(text: Text, range: TextRange)
    requires WellFormed(text) && |text| < U32_LIMIT && ValidRange(text, range)
    ensures Resolve(text, Utf16(range.start, range.end)) == Ok(range) <==>
              !SplitsLineBreak(text, range.startByte) && !SplitsLineBreak(text, range.endByte)
  {
    OffsetUndoesPosition(text, range.startByte);
    OffsetUndoesPosition(text, range.endByte);
    ShortTextFits(text, range.startByte);
    ShortTextFits(text, range.endByte);
  }
}
