/** Accepted paths under repeated decoding and dot-segment removal
    (`crates/krit-capability/src/request_target.rs`). */
module PathStability {
  import opened Utf8
  import opened Wrappers
  import opened RequestTarget
  import Split

  // ----- An independent decoder

  /** How a decoder reads an IIS-style `%uHHHH` escape, given its four digits;
      `None` for a decoder that knows only `%HH`. */
  type WideReading = Option<Text -> Text>

  predicate WideEscapeAhead(s: Text) {
    && |s| >= 6 && s[0] == PERCENT && (s[1] == 0x75 || s[1] == 0x55)
    && forall i :: 2 <= i < 6 ==> HexDigit(s[i]).Some?
  }

  /** One pass of a server's percent-decoder (section 2.1 of RFC 3986) over a
      whole path.  A `%` that begins no escape is copied. */
  function Decode(s: Text, wide: WideReading): Text
    decreases |s|
  {
    if s == [] then []
    else if EscapeAhead(s) then [EscapedByte(s)] + Decode(s[3..], wide)
    else if wide.Some? && WideEscapeAhead(s) then wide.value(s[2..6]) + Decode(s[6..], wide)
    else [s[0]] + Decode(s[1..], wide)
  }

  /** Any number of passes, each by any decoder. */
  function DecodePasses(s: Text, passes: seq<WideReading>): Text
    decreases |passes|
  {
    if passes == [] then s else DecodePasses(Decode(s, passes[0]), passes[1..])
  }

  lemma {:induction false} DecodeWithoutEscapes(s: Text, wide: WideReading)
    requires !HoldsEscape(s)
    ensures Decode(s, wide) == s
    decreases |s|
  {
    if s != [] {
      assert !EscapeAt(s, 0);
      forall i | 0 <= i < |s[1..]| ensures !EscapeAt(s[1..], i) {
        assert !EscapeAt(s, i + 1);
      }
      DecodeWithoutEscapes(s[1..], wide);
    }
  }

  lemma {:induction false} PassesWithoutEscapes(s: Text, passes: seq<WideReading>)
    requires !HoldsEscape(s)
    ensures DecodePasses(s, passes) == s
    decreases |passes|
  {
    if passes != [] {
      DecodeWithoutEscapes(s, passes[0]);
      PassesWithoutEscapes(s, passes[1..]);
    }
  }

  // ----- Decoding acts segment by segment

  predicate AllDecode(segments: seq<Text>) {
    forall i :: 0 <= i < |segments| ==> DecodedSegment(segments[i]).Some?
  }

  function DecodedAll(segments: seq<Text>): (decoded: seq<Text>)
    requires AllDecode(segments)
    ensures |decoded| == |segments|
    ensures forall i :: 0 <= i < |segments| ==> decoded[i] == DecodedSegment(segments[i]).value
  {
    if segments == [] then []
    else [DecodedSegment(segments[0]).value] + DecodedAll(segments[1..])
  }

  lemma EscapeInFront(segment: Text, rest: Text)
    requires EscapeAhead(segment)
    ensures var s := segment + rest;
            EscapeAhead(s) && EscapedByte(s) == EscapedByte(segment) && s[3..] == segment[3..] + rest
  {
  }

  /** The general decoder agrees with the host's on a segment the host decodes. */
  lemma {:induction false} DecodeFront(segment: Text, rest: Text, wide: WideReading)
    requires DecodedSegment(segment).Some?
    ensures Decode(segment + rest, wide) == DecodedSegment(segment).value + Decode(rest, wide)
    decreases |segment|
  {
    if segment == [] {
      assert [] + rest == rest;
    } else {
      var (first, n) := FrontByte(segment);
      DecodeByte(segment, rest, wide);
      DecodeFront(segment[n..], rest, wide);
      Regrouped(first, DecodedSegment(segment[n..]).value, Decode(rest, wide));
    }
  }

  /** The first byte a segment decodes to, and how much of it that takes. */
  function FrontByte(segment: Text): (front: (Byte, nat))
    requires segment != [] && DecodedSegment(segment).Some?
    ensures 0 < front.1 <= |segment|
  {
    if segment[0] != PERCENT then (segment[0], 1) else (EscapedByte(segment), 3)
  }

  /** Both decoders take the same first byte and leave the same text. */
  lemma DecodeByte(segment: Text, rest: Text, wide: WideReading)
    requires segment != [] && DecodedSegment(segment).Some?
    ensures var (first, n) := FrontByte(segment);
            && DecodedSegment(segment[n..]).Some?
            && DecodedSegment(segment).value == [first] + DecodedSegment(segment[n..]).value
            && Decode(segment + rest, wide) == [first] + Decode(segment[n..] + rest, wide)
  {
    if segment[0] != PERCENT {
      assert (segment + rest)[1..] == segment[1..] + rest;
    } else {
      EscapeInFront(segment, rest);
    }
  }

  lemma Regrouped(first: Byte, middle: Text, last: Text)
    ensures [first] + (middle + last) == [first] + middle + last
  {
  }

  lemma {:induction false} DecodeOfJoin(segments: seq<Text>, wide: WideReading)
    requires |segments| > 0 && AllDecode(segments)
    ensures Decode(Split.Join(segments, SLASH), wide) == Split.Join(DecodedAll(segments), SLASH)
  {
    if |segments| == 1 {
      assert segments[0] + [] == segments[0];
      DecodeFront(segments[0], [], wide);
    } else {
      var tail := Split.Join(segments[1..], SLASH);
      assert Split.Join(segments, SLASH) == segments[0] + ([SLASH] + tail);
      DecodeFront(segments[0], [SLASH] + tail, wide);
      assert ([SLASH] + tail)[1..] == tail;
      DecodeOfJoin(segments[1..], wide);
    }
  }

  lemma {:induction false} DecodedHoldsNoSlash(segment: Text)
    requires DecodedSegment(segment).Some? && SLASH !in segment
    ensures SLASH !in DecodedSegment(segment).value
    decreases |segment|
  {
    if segment == [] {
    } else if segment[0] != PERCENT {
      DecodedHoldsNoSlash(segment[1..]);
    } else {
      DecodedHoldsNoSlash(segment[3..]);
    }
  }

  lemma EscapeInConcat(a: Text, b: Text)
    requires !HoldsEscape(a) && !HoldsEscape(b)
    ensures !HoldsEscape(a + [SLASH] + b)
  {
    var s := a + [SLASH] + b;
    forall i | 0 <= i < |s|
      ensures !EscapeAt(s, i)
    {
      if i < |a| {
        assert !EscapeAt(a, i);
      } else if i > |a| {
        assert !EscapeAt(b, i - |a| - 1);
      }
    }
  }

  lemma {:induction false} EscapeInJoin(parts: seq<Text>)
    requires |parts| > 0 && forall i :: 0 <= i < |parts| ==> !HoldsEscape(parts[i])
    ensures !HoldsEscape(Split.Join(parts, SLASH))
  {
    if |parts| > 1 {
      EscapeInJoin(parts[1..]);
      EscapeInConcat(parts[0], Split.Join(parts[1..], SLASH));
    }
  }

  // ----- Dot-segment removal, section 5.2.4 of RFC 3986

  /** The first index at or after `from` that holds a `/`, or the length. */
  function SegmentEnd(s: Text, from: nat): (end: nat)
    requires from <= |s|
    ensures from <= end <= |s|
    ensures end < |s| ==> s[end] == SLASH
    ensures forall i :: from <= i < end ==> s[i] != SLASH
    decreases |s| - from
  {
    if from < |s| && s[from] != SLASH then SegmentEnd(s, from + 1) else from
  }

  /** `output` without its last segment and the `/` before it, if any. */
  function DropLastSegment(output: Text): Text {
    if output == [] then []
    else if output[|output| - 1] == SLASH then output[..|output| - 1]
    else DropLastSegment(output[..|output| - 1])
  }

  /** Steps 2A to 2E of the RFC's loop over its input and output buffers. */
  function RemoveDotSegments(input: Text, output: Text): Text
    decreases |input|
  {
    if input == [] then output
    else if [DOT, DOT, SLASH] <= input then RemoveDotSegments(input[3..], output)
    else if [DOT, SLASH] <= input then RemoveDotSegments(input[2..], output)
    else if [SLASH, DOT, SLASH] <= input then RemoveDotSegments(input[2..], output)
    else if input == [SLASH, DOT] then RemoveDotSegments([SLASH], output)
    else if [SLASH, DOT, DOT, SLASH] <= input then
      RemoveDotSegments(input[3..], DropLastSegment(output))
    else if input == [SLASH, DOT, DOT] then RemoveDotSegments([SLASH], DropLastSegment(output))
    else if IsDots(input) then RemoveDotSegments([], output)
    else
      var n := SegmentEnd(input, 1);
      RemoveDotSegments(input[n..], output + input[..n])
  }

  lemma OneDot(input: Text, n: nat)
    requires |input| > 1 && input[1] == DOT && (|input| > 2 ==> input[2] == SLASH)
    requires n == SegmentEnd(input, 1)
    ensures input[1..n] == [DOT]
  {
    assert n == SegmentEnd(input, 2) == 2;
  }

  lemma TwoDots(input: Text, n: nat)
    requires |input| > 2 && input[1] == DOT && input[2] == DOT && (|input| > 3 ==> input[3] == SLASH)
    requires n == SegmentEnd(input, 1)
    ensures input[1..n] == [DOT, DOT]
  {
    assert n == SegmentEnd(input, 2) == SegmentEnd(input, 3) == 3;
  }

  /** A path that steps 2B or 2C would rewrite has a dot segment in front. */
  lemma RewrittenFront(input: Text, n: nat)
    requires |input| > 0 && input[0] == SLASH && n == SegmentEnd(input, 1)
    requires || [SLASH, DOT, SLASH] <= input || input == [SLASH, DOT]
             || [SLASH, DOT, DOT, SLASH] <= input || input == [SLASH, DOT, DOT]
    ensures IsDots(input[1..n])
  {
    assert input[1] == DOT;
    if |input| == 2 || input[2] == SLASH {
      OneDot(input, n);
    } else {
      assert input[2] == DOT && (|input| > 3 ==> input[3] == SLASH);
      TwoDots(input, n);
    }
  }

  lemma PartsWithoutSlash(input: Text)
    requires |input| > 0 && input[0] == SLASH
    ensures Split.Parts(input, SLASH) == [[]] + Split.Parts(input[1..], SLASH)
  {
  }

  /** The first segment is a part, and so is every part of what follows it. */
  lemma PartsAfterSlash(input: Text, n: nat)
    requires |input| > 0 && input[0] == SLASH && n == SegmentEnd(input, 1)
    ensures input[1..n] in Split.Parts(input, SLASH)
    ensures forall p :: p in Split.Parts(input[n..], SLASH) ==> p == [] || p in Split.Parts(input, SLASH)
  {
    PartsWithoutSlash(input);
    if n < |input| {
      PartsBetweenSlashes(input, n);
    } else {
      assert input[1..] == input[1..n] && input[n..] == [];
      Split.PartsOfSingle(input[1..n], SLASH);
    }
  }

  lemma PartsBetweenSlashes(input: Text, n: nat)
    requires |input| > 0 && input[0] == SLASH && n == SegmentEnd(input, 1) && n < |input|
    ensures Split.Parts(input[1..], SLASH) == [input[1..n]] + Split.Parts(input[n + 1..], SLASH)
    ensures Split.Parts(input[n..], SLASH) == [[]] + Split.Parts(input[n + 1..], SLASH)
  {
    var segment, after := input[1..n], input[n + 1..];
    assert input[1..] == segment + [SLASH] + after;
    Split.PartsOfFront(segment, after, SLASH);
    assert input[n..][1..] == after;
    PartsWithoutSlash(input[n..]);
  }

  /** A first segment that is no dot segment moves to the output as it is. */
  lemma SegmentMoves(input: Text, output: Text, n: nat)
    requires |input| > 0 && input[0] == SLASH && n == SegmentEnd(input, 1) && !IsDots(input[1..n])
    ensures RemoveDotSegments(input, output) == RemoveDotSegments(input[n..], output + input[..n])
  {
    if || [SLASH, DOT, SLASH] <= input || input == [SLASH, DOT]
       || [SLASH, DOT, DOT, SLASH] <= input || input == [SLASH, DOT, DOT] {
      RewrittenFront(input, n);
    }
  }

  /** No part between slashes is a dot segment. */
  predicate NoDots(input: Text) {
    forall p :: p in Split.Parts(input, SLASH) ==> !IsDots(p)
  }

  lemma NoDotsAfterSlash(input: Text, n: nat)
    requires |input| > 0 && input[0] == SLASH && n == SegmentEnd(input, 1) && NoDots(input)
    ensures !IsDots(input[1..n]) && NoDots(input[n..])
  {
    PartsAfterSlash(input, n);
  }

  predicate LeftAlone(input: Text, output: Text) {
    RemoveDotSegments(input, output) == output + input
  }

  lemma Reassembled(input: Text, output: Text, n: nat)
    requires n <= |input|
    ensures output + input[..n] + input[n..] == output + input
  {
  }

  lemma LeftAloneStep(input: Text, output: Text, n: nat)
    requires |input| > 0 && input[0] == SLASH && n == SegmentEnd(input, 1) && !IsDots(input[1..n])
    requires LeftAlone(input[n..], output + input[..n])
    ensures LeftAlone(input, output)
  {
    SegmentMoves(input, output, n);
    Reassembled(input, output, n);
  }

  lemma {:induction false} NothingToRemove(input: Text, output: Text)
    requires input != [] ==> input[0] == SLASH
    requires NoDots(input)
    ensures LeftAlone(input, output)
    decreases |input|
  {
    if input == [] {
      assert output + [] == output;
    } else {
      var n := SegmentEnd(input, 1);
      NoDotsAfterSlash(input, n);
      NothingToRemove(input[n..], output + input[..n]);
      LeftAloneStep(input, output, n);
    }
  }

  lemma DotsAreDotSegments(s: Text)
    requires IsDots(s)
    ensures IsDotSegment(s)
  {
    if s == [DOT] {
      assert NamePart(s[1..]) == [];
    } else {
      assert s[1..] == [DOT] && s[1..][1..] == [];
      assert NamePart(s[1..]) == [DOT];
    }
  }

  // ----- The theorem

  /** Whatever decoders an accepted path passes through, and however many, they
      agree after the first on one byte string whose
      segments are the raw ones decoded; none of them reads as a dot segment,
      and dot-segment removal changes nothing. */
  lemma AcceptedPathIsStable(path: Text, passes: seq<WideReading>)
    requires IsOriginFormPath(path) && |passes| > 0
    ensures AllDecode(Split.Parts(path, SLASH))
    ensures var decoded := DecodePasses(path, passes);
            && decoded == Decode(path, None)
            && Split.Parts(decoded, SLASH) == DecodedAll(Split.Parts(path, SLASH))
            && (forall p :: p in Split.Parts(decoded, SLASH) ==> !IsDotSegment(p) && !HoldsOverlongUtf8(p))
            && RemoveDotSegments(decoded, []) == decoded
  {
    var raw := Split.Parts(path, SLASH);
    Split.JoinOfParts(path, SLASH);
    assert forall i :: 0 <= i < |raw| ==> raw[i] in raw && SafeSegment(raw[i]);
    var parts := DecodedAll(raw);
    var decoded := Split.Join(parts, SLASH);
    forall i | 0 <= i < |raw| ensures SLASH !in parts[i] { DecodedHoldsNoSlash(raw[i]); }
    DecodeOfJoin(raw, None);
    DecodeOfJoin(raw, passes[0]);
    Split.PartsOfJoin(parts, SLASH);
    EscapeInJoin(parts);
    PassesWithoutEscapes(decoded, passes[1..]);
    forall p | p in parts ensures !IsDots(p) && !IsDotSegment(p) && !HoldsOverlongUtf8(p) {
      if IsDots(p) { DotsAreDotSegments(p); }
    }
    StartsWithSlash(path, raw, parts);
    NothingToRemove(decoded, []);
    assert [] + decoded == decoded;
  }

  /** Decoding keeps the leading `/`. */
  lemma StartsWithSlash(path: Text, raw: seq<Text>, parts: seq<Text>)
    requires path != [] && path[0] == SLASH && raw == Split.Parts(path, SLASH)
    requires AllDecode(raw) && parts == DecodedAll(raw)
    ensures Split.Join(parts, SLASH) != [] && Split.Join(parts, SLASH)[0] == SLASH
  {
    assert raw == [[]] + Split.Parts(path[1..], SLASH);
    assert raw[0] == [] && |raw| > 1;
    assert parts[0] == [];
  }
}
