/** When a path or a query is accepted, and how arbitrary text is encoded so that
    the result is
    (`crates/krit-capability/src/request_target.rs`). */
module RequestTarget {
  import opened Utf8
  import opened Wrappers
  import Split

  const PERCENT: Byte := 0x25
  const AMPERSAND: Byte := 0x26
  const DOT: Byte := 0x2E
  const SLASH: Byte := 0x2F
  const COLON: Byte := 0x3A
  const EQUALS: Byte := 0x3D
  const QUESTION: Byte := 0x3F
  const BACKSLASH: Byte := 0x5C

  predicate IsControl(b: Byte) {
    b < 0x20 || b == 0x7F
  }

  // ----- Origin form

  predicate ForbiddenInPath(b: Byte) {
    IsControl(b) || b == 0x20 || b == BACKSLASH || b == QUESTION || b == 0x23
  }

  /** Whether `://` stands at `i`. */
  predicate SchemeAt(path: Text, i: int) {
    0 <= i && i + 2 < |path| && path[i] == COLON && path[i + 1] == SLASH && path[i + 2] == SLASH
  }

  predicate HasOriginFormShape(path: Text) {
    && |path| > 0 && path[0] == SLASH
    && !(|path| > 1 && path[1] == SLASH)
    && (forall i :: 0 <= i < |path| ==> !SchemeAt(path, i))
    && (forall i :: 0 <= i < |path| ==> !ForbiddenInPath(path[i]))
  }

  // ----- Decoding one segment

  function HexDigit(b: Byte): (d: Option<Byte>)
    ensures d.Some? ==> d.value < 16
  {
    if 0x30 <= b <= 0x39 then Some(b - 0x30)
    else if 0x61 <= b <= 0x66 then Some(b - 0x61 + 10)
    else if 0x41 <= b <= 0x46 then Some(b - 0x41 + 10)
    else None
  }

  /** `s` starts with `%` and two hexadecimal digits. */
  predicate EscapeAhead(s: Text) {
    |s| >= 3 && s[0] == PERCENT && HexDigit(s[1]).Some? && HexDigit(s[2]).Some?
  }

  function EscapedByte(s: Text): Byte
    requires EscapeAhead(s)
  {
    HexDigit(s[1]).value * 16 + HexDigit(s[2]).value
  }

  predicate RefusedEscape(b: Byte) {
    b == DOT || b == SLASH || b == BACKSLASH || IsControl(b)
  }

  /** The bytes one decoding pass gives, or `None` where the host refuses. */
  function DecodedSegment(segment: Text): Option<Text>
    decreases |segment|
  {
    if segment == [] then Some([])
    else if segment[0] != PERCENT then
      match DecodedSegment(segment[1..])
      case Some(rest) => Some([segment[0]] + rest)
      case None => None
    else if !EscapeAhead(segment) || RefusedEscape(EscapedByte(segment)) then None
    else
      match DecodedSegment(segment[3..])
      case Some(rest) => Some([EscapedByte(segment)] + rest)
      case None => None
  }

  /** What `segment` decodes to is `decoded` and what `rest` decodes to. */
  ghost predicate Remains(segment: Text, rest: Text, decoded: Text) {
    match DecodedSegment(rest)
    case Some(value) => DecodedSegment(segment) == Some(decoded + value)
    case None => DecodedSegment(segment) == None
  }

  lemma AllRemains(segment: Text)
    ensures Remains(segment, segment[0..], [])
  {
    assert segment[0..] == segment;
    forall value: Text ensures [] + value == value {}
  }

  lemma PlainStep(segment: Text, cursor: nat, decoded: Text)
    requires cursor < |segment| && segment[cursor] != PERCENT && Remains(segment, segment[cursor..], decoded)
    ensures Remains(segment, segment[cursor + 1..], decoded + [segment[cursor]])
  {
    var rest := segment[cursor..];
    assert rest[1..] == segment[cursor + 1..];
    forall value ensures decoded + ([rest[0]] + value) == decoded + [rest[0]] + value {}
  }

  lemma EscapeStep(segment: Text, cursor: nat, decoded: Text, byte: Byte)
    requires cursor + 2 < |segment| && EscapeAhead(segment[cursor..]) && byte == EscapedByte(segment[cursor..])
    requires Remains(segment, segment[cursor..], decoded)
    ensures if RefusedEscape(byte) then DecodedSegment(segment) == None
            else Remains(segment, segment[cursor + 3..], decoded + [byte])
  {
    var rest := segment[cursor..];
    assert rest[3..] == segment[cursor + 3..];
    forall value ensures decoded + ([byte] + value) == decoded + [byte] + value {}
  }

  /** `decode_segment`: the loop that pushes into a buffer. */
  method DecodeSegment(segment: Text) returns (ok: bool, decoded: Text)
    ensures ok == DecodedSegment(segment).Some?
    ensures ok ==> decoded == DecodedSegment(segment).value
  {
    decoded := [];
    var cursor := 0;
    AllRemains(segment);
    while cursor < |segment|
      invariant cursor <= |segment| && Remains(segment, segment[cursor..], decoded)
    {
      if segment[cursor] != PERCENT {
        PlainStep(segment, cursor, decoded);
        decoded := decoded + [segment[cursor]];
        cursor := cursor + 1;
        continue;
      }
      var high := if cursor + 1 < |segment| then HexDigit(segment[cursor + 1]) else None;
      var low := if cursor + 2 < |segment| then HexDigit(segment[cursor + 2]) else None;
      if high.None? || low.None? {
        return false, decoded;
      }
      var byte: Byte := high.value * 16 + low.value;
      EscapeStep(segment, cursor, decoded, byte);
      if RefusedEscape(byte) {
        return false, decoded;
      }
      decoded := decoded + [byte];
      cursor := cursor + 3;
    }
    return true, decoded;
  }

  // ----- The checks on a decoded segment

  predicate EndsName(b: Byte) {
    b == 0x3B || b == QUESTION || b == 0x23
  }

  /** The part of a decoded segment before its first `;`, `?` or `#`. */
  function NamePart(decoded: Text): Text {
    if decoded == [] || EndsName(decoded[0]) then []
    else [decoded[0]] + NamePart(decoded[1..])
  }

  predicate IsAsciiWhitespace(b: Byte) {
    b == 0x20 || b == 0x09 || b == 0x0A || b == 0x0C || b == 0x0D
  }

  function TrimFront(s: Text): Text {
    if s != [] && IsAsciiWhitespace(s[0]) then TrimFront(s[1..]) else s
  }

  function TrimBack(s: Text): Text {
    if s != [] && IsAsciiWhitespace(s[|s| - 1]) then TrimBack(s[..|s| - 1]) else s
  }

  function Trim(s: Text): Text {
    TrimBack(TrimFront(s))
  }

  predicate IsDots(s: Text) {
    s == [DOT] || s == [DOT, DOT]
  }

  predicate IsDotSegment(decoded: Text) {
    IsDots(Trim(NamePart(decoded)))
  }

  predicate BeginsEscape(b: Byte) {
    HexDigit(b).Some? || b == 0x75 || b == 0x55
  }

  predicate EscapeAt(s: Text, i: int) {
    0 <= i < |s| - 1 && s[i] == PERCENT && BeginsEscape(s[i + 1])
  }

  predicate HoldsEscape(decoded: Text) {
    exists i :: 0 <= i < |decoded| && EscapeAt(decoded, i)
  }

  predicate OverlongPair(lead: Byte, next: Byte) {
    var bits := next % 64;
    || (lead == 0xE0 && bits < 0x20)
    || (lead == 0xF0 && bits < 0x10)
    || (lead == 0xF8 && bits < 0x08)
    || (lead == 0xFC && bits < 0x04)
  }

  /** Whether an overlong form begins at `i`: `C0` and `C1` begin nothing else. */
  predicate OverlongAt(s: Text, i: int) {
    && 0 <= i < |s|
    && (s[i] == 0xC0 || s[i] == 0xC1 || (i + 1 < |s| && OverlongPair(s[i], s[i + 1])))
  }

  predicate HoldsOverlongUtf8(decoded: Text) {
    exists i :: 0 <= i < |decoded| && OverlongAt(decoded, i)
  }

  predicate SafeDecoded(decoded: Text) {
    !IsDotSegment(decoded) && !HoldsEscape(decoded) && !HoldsOverlongUtf8(decoded)
  }

  predicate SafeSegment(segment: Text) {
    DecodedSegment(segment).Some? && SafeDecoded(DecodedSegment(segment).value)
  }

  predicate HasTraversalForm(path: Text) {
    exists segment :: segment in Split.Parts(path, SLASH) && !SafeSegment(segment)
  }

  predicate IsOriginFormPath(path: Text) {
    HasOriginFormShape(path) && !HasTraversalForm(path)
  }

  predicate IsValidQuery(query: Text) {
    && !(|query| > 0 && query[0] == QUESTION)
    && forall i :: 0 <= i < |query| ==>
         !(IsControl(query[i]) || query[i] == 0x20 || query[i] == 0x23 || query[i] == BACKSLASH)
  }

  // ----- The builders

  predicate IsUnreserved(b: Byte) {
    || 0x30 <= b <= 0x39 || 0x41 <= b <= 0x5A || 0x61 <= b <= 0x7A
    || b == 0x2D || b == DOT || b == 0x5F || b == 0x7E
  }

  /** A nibble as one of `0`-`9` and `A`-`F`. */
  function HexChar(nibble: Byte): (c: Byte)
    requires nibble < 16
    ensures HexDigit(c) == Some(nibble) && IsUnreserved(c) && c != DOT
  {
    if nibble < 10 then 0x30 + nibble else 0x41 + nibble - 10
  }

  function EncodedByte(b: Byte): Text {
    if IsUnreserved(b) then [b] else [PERCENT, HexChar(b / 16), HexChar(b % 16)]
  }

  function PercentEncoded(text: Text): Text {
    if text == [] then [] else EncodedByte(text[0]) + PercentEncoded(text[1..])
  }

  /** `percent_encode`: appends the encoding of `text` to `output`. */
  method PercentEncode(text: Text, output: Text) returns (appended: Text)
    ensures appended == output + PercentEncoded(text)
  {
    appended := output;
    for i := 0 to |text|
      invariant appended + PercentEncoded(text[i..]) == output + PercentEncoded(text)
    {
      assert text[i..][1..] == text[i + 1..];
      if IsUnreserved(text[i]) {
        appended := appended + [text[i]];
      } else {
        appended := appended + [PERCENT];
        appended := appended + [HexChar(text[i] / 16)];
        appended := appended + [HexChar(text[i] % 16)];
      }
    }
  }

  datatype PathSegmentError = Empty | ForbiddenByte | EscapeLike | DotSegment

  predicate ForbiddenInSegment(b: Byte) {
    b == SLASH || b == BACKSLASH || IsControl(b)
  }

  /** `PathSegmentError::check`: the first reason that applies. */
  function Check(text: Text): Option<PathSegmentError> {
    if text == [] then Some(Empty)
    else if exists i :: 0 <= i < |text| && ForbiddenInSegment(text[i]) then Some(ForbiddenByte)
    else if HoldsEscape(text) then Some(EscapeLike)
    else if IsDotSegment(text) then Some(DotSegment)
    else None
  }

  /** `encode_path_segment`. */
  function EncodePathSegment(text: Text): Result<Text, PathSegmentError> {
    match Check(text)
    case Some(error) => Err(error)
    case None => Ok(PercentEncoded(text))
  }

  type Pair = (Text, Text)

  function EncodedPair(pair: Pair): Text {
    PercentEncoded(pair.0) + [EQUALS] + PercentEncoded(pair.1)
  }

  /** The query the builder promises: encoded pairs joined by `&`. */
  function QueryOf(pairs: seq<Pair>): Text {
    if pairs == [] then [] else Split.Join(EncodedPairs(pairs), AMPERSAND)
  }

  function EncodedPairs(pairs: seq<Pair>): (parts: seq<Text>)
    ensures |parts| == |pairs|
    ensures forall i :: 0 <= i < |pairs| ==> parts[i] == EncodedPair(pairs[i])
  {
    if pairs == [] then [] else [EncodedPair(pairs[0])] + EncodedPairs(pairs[1..])
  }

  lemma {:induction false} JoinSnoc(parts: seq<Text>, last: Text, sep: Byte)
    requires |parts| > 0
    ensures Split.Join(parts + [last], sep) == Split.Join(parts, sep) + [sep] + last
  {
    if |parts| > 1 {
      JoinSnoc(parts[1..], last, sep);
      assert (parts + [last])[1..] == parts[1..] + [last];
    } else {
      assert (parts + [last])[1..] == [last];
    }
  }

  lemma QuerySnoc(pairs: seq<Pair>, pair: Pair)
    ensures QueryOf(pairs + [pair]) ==
            (if pairs == [] then [] else QueryOf(pairs) + [AMPERSAND]) + EncodedPair(pair)
  {
    var done := EncodedPairs(pairs);
    assert EncodedPairs(pairs + [pair]) == done + [EncodedPair(pair)];
    if pairs != [] { JoinSnoc(done, EncodedPair(pair), AMPERSAND); }
  }

  /** `encode_query`: one pass over the pairs, pushing into the buffer. */
  method EncodeQuery(pairs: seq<Pair>) returns (query: Text)
    ensures query == QueryOf(pairs)
  {
    query := [];
    for index := 0 to |pairs|
      invariant query == QueryOf(pairs[..index])
    {
      assert pairs[..index + 1] == pairs[..index] + [pairs[index]];
      QuerySnoc(pairs[..index], pairs[index]);
      if index > 0 {
        query := query + [AMPERSAND];
      }
      query := PercentEncode(pairs[index].0, query);
      query := query + [EQUALS];
      query := PercentEncode(pairs[index].1, query);
    }
    assert pairs[..|pairs|] == pairs;
  }
}
