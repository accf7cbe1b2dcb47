/** The parts of the tolerant scanner that only read text and tokens
    (`crates/krit-assist/src/context.rs`). */
module TolerantText {
  import opened Utf8
  import opened Wrappers
  import opened SourceSpans

  const SLASH: Byte := 0x2F
  const BACKSLASH: Byte := 0x5C
  const OPEN_PAREN: Byte := 0x28
  const CLOSE_PAREN: Byte := 0x29
  const UNDERSCORE: Byte := 0x5F
  const LF: Byte := 0x0A
  const CR: Byte := 0x0D
  const SPACE: Byte := 0x20
  const TAB: Byte := 0x09
  const FORM_FEED: Byte := 0x0C

  predicate IsAlphabetic(b: Byte) {
    0x41 <= b <= 0x5A || 0x61 <= b <= 0x7A
  }

  predicate IsDigit(b: Byte) {
    0x30 <= b <= 0x39
  }

  predicate IsIdentifierStart(b: Byte) {
    IsAlphabetic(b) || b == UNDERSCORE
  }

  predicate IsIdentifierContinue(b: Byte) {
    IsAlphabetic(b) || IsDigit(b) || b == UNDERSCORE
  }

  predicate IsWhitespace(b: Byte) {
    b == SPACE || b == TAB || b == LF || b == FORM_FEED || b == CR
  }

  predicate IsBlank(b: Byte) {
    b == SPACE || b == TAB
  }

  predicate IsNewline(b: Byte) {
    b == LF || b == CR
  }

  /** A `str` slice, which panics off a boundary. */
  function Slice(source: Text, start: nat, end: nat): Text
    requires start <= end && IsBoundary(source, start) && IsBoundary(source, end)
  {
    source[start..end]
  }

  /** The end of the run of identifier bytes at `i`. */
  function IdentifierEnd(s: Text, i: nat): (end: nat)
    requires i <= |s|
    ensures i <= end <= |s| && (end < |s| ==> !IsIdentifierContinue(s[end]))
    ensures forall k :: i <= k < end ==> IsIdentifierContinue(s[k])
    decreases |s| - i
  {
    if i < |s| && IsIdentifierContinue(s[i]) then IdentifierEnd(s, i + 1) else i
  }

  method SkipIdentifier(s: Text, i: nat) returns (end: nat)
    requires i <= |s|
    ensures end == IdentifierEnd(s, i)
  {
    end := i;
    while end < |s| && IsIdentifierContinue(s[end])
      invariant i <= end <= |s| && IdentifierEnd(s, end) == IdentifierEnd(s, i)
    {
      end := end + 1;
    }
  }

  /** An identifier is a run of whole characters. */
  lemma IdentifierOnBoundaries(s: Text, start: nat, end: nat)
    requires WellFormed(s) && start < end <= |s|
    requires forall k :: start <= k < end ==> IsIdentifierContinue(s[k])
    ensures IsBoundary(s, start) && IsBoundary(s, end)
  {
    AsciiIsBoundary(s, start);
    AsciiIsBoundary(s, end - 1);
  }

  /** Whether the next byte that is not white space is `b`. */
  predicate NextVisibleIs(s: Text, i: nat, b: Byte)
    requires i <= |s|
    decreases |s| - i
  {
    i < |s| && (if IsWhitespace(s[i]) then NextVisibleIs(s, i + 1, b) else s[i] == b)
  }

  // ----- One-line strings

  /** The first quote at or after `i` that no backslash escapes, or the end. */
  function StringEnd(s: Text, i: nat, escaped: bool): (end: nat)
    requires i <= |s|
    ensures i <= end <= |s| && (end < |s| ==> s[end] == QUOTE)
    decreases |s| - i
  {
    if i == |s| then i
    else if escaped then StringEnd(s, i + 1, false)
    else if s[i] == BACKSLASH then StringEnd(s, i + 1, true)
    else if s[i] == QUOTE then i
    else StringEnd(s, i + 1, false)
  }

  method ScanToQuote(s: Text, start: nat) returns (end: nat)
    requires start <= |s|
    ensures end == StringEnd(s, start, false)
  {
    end := start;
    var escaped := false;
    while end < |s|
      invariant start <= end <= |s| && StringEnd(s, end, escaped) == StringEnd(s, start, false)
    {
      if escaped {
        escaped := false;
      } else if s[end] == BACKSLASH {
        escaped := true;
      } else if s[end] == QUOTE {
        break;
      }
      end := end + 1;
    }
  }

  // ----- Text blocks

  predicate AllBlank(s: Text, from: nat, to: nat)
    requires to <= |s|
  {
    forall k :: from <= k < to ==> IsBlank(s[k])
  }

  predicate HasTriple(s: Text, e: nat) {
    e + 3 <= |s| && s[e] == QUOTE && s[e + 1] == QUOTE && s[e + 2] == QUOTE
  }

  /** A closing delimiter: three quotes that begin a line, after `start`. */
  ghost predicate ClosesAt(s: Text, start: nat, e: nat) {
    HasTriple(s, e) && exists line :: BeginsLine(s, start, e, line)
  }

  predicate BeginsLine(s: Text, start: nat, e: nat, line: nat) {
    start < line <= e <= |s| && IsNewline(s[line - 1]) && AllBlank(s, line, e)
  }

  /** The first closing delimiter at or after `e`, or the end. */
  ghost function FirstClosing(s: Text, start: nat, e: nat): (end: nat)
    requires e <= |s|
    ensures e <= end <= |s| && (end < |s| ==> ClosesAt(s, start, end))
    ensures forall i :: e <= i < end ==> !ClosesAt(s, start, i)
    decreases |s| - e
  {
    if e == |s| || ClosesAt(s, start, e) then e else FirstClosing(s, start, e + 1)
  }

  method FindNewline(s: Text, from: nat) returns (at: Option<nat>)
    requires from <= |s|
    ensures at.Some? ==> from <= at.value < |s| && IsNewline(s[at.value])
    ensures forall k :: from <= k < (if at.Some? then at.value else |s|) ==> !IsNewline(s[k])
  {
    for i := from to |s|
      invariant forall k :: from <= k < i ==> !IsNewline(s[k])
    {
      if IsNewline(s[i]) {
        return Some(i);
      }
    }
    return None;
  }

  method SkipBlanks(s: Text, from: nat) returns (to: nat)
    requires from <= |s|
    ensures from <= to <= |s| && AllBlank(s, from, to) && (to < |s| ==> !IsBlank(s[to]))
  {
    to := from;
    while to < |s| && IsBlank(s[to])
      invariant from <= to <= |s| && AllBlank(s, from, to)
    {
      to := to + 1;
    }
  }

  /** `tolerant_text_block_end`: the first closing delimiter, or the end. */
  method TextBlockEnd(s: Text, start: nat) returns (end: nat)
    requires start <= |s|
    ensures end == FirstClosing(s, start, start)
  {
    end := FindTextBlockEnd(s, start);
    assert end < |s| ==> ClosesAt(s, start, end);
    assert !ClosesAt(s, start, |s|);
  }

  method FindTextBlockEnd(s: Text, start: nat) returns (end: nat)
    requires start <= |s|
    ensures start <= end <= |s|
    ensures end == |s| || ClosesAt(s, start, end)
    ensures forall e: nat :: e < end ==> !ClosesAt(s, start, e)
  {
    var line := start;
    while true
      invariant start <= line <= |s|
      invariant forall l: nat, e: nat :: l <= line && HasTriple(s, e) ==> !BeginsLine(s, start, e, l)
      decreases |s| - line
    {
      var newline := FindNewline(s, line);
      if newline.None? {
        forall e: nat | e < |s| ensures !ClosesAt(s, start, e) {
          if HasTriple(s, e) {
            forall l: nat ensures !BeginsLine(s, start, e, l) {}
          }
        }
        return |s|;
      }
      ghost var before := line;
      line := newline.value + 1;
      var visible := SkipBlanks(s, line);
      if HasTriple(s, visible) {
        assert BeginsLine(s, start, visible, line);
        FirstCloses(s, start, before, line, visible);
        return visible;
      }
      NoLineCloses(s, start, before, line, visible);
    }
  }

  lemma FirstCloses(s: Text, start: nat, before: nat, line: nat, visible: nat)
    requires start <= before < line <= visible < |s| && AllBlank(s, line, visible)
    requires forall k :: before <= k < line - 1 ==> !IsNewline(s[k])
    requires forall l: nat, e: nat :: l <= before && HasTriple(s, e) ==> !BeginsLine(s, start, e, l)
    ensures forall e: nat :: e < visible ==> !ClosesAt(s, start, e)
  {
    forall e: nat | e < visible && HasTriple(s, e) ensures !ClosesAt(s, start, e) {
      forall l: nat ensures !BeginsLine(s, start, e, l) {}
    }
  }

  lemma NoLineCloses(s: Text, start: nat, before: nat, line: nat, visible: nat)
    requires start <= before < line <= visible <= |s| && AllBlank(s, line, visible)
    requires visible < |s| ==> !IsBlank(s[visible])
    requires !HasTriple(s, visible)
    requires forall k :: before <= k < line - 1 ==> !IsNewline(s[k])
    requires forall l: nat, e: nat :: l <= before && HasTriple(s, e) ==> !BeginsLine(s, start, e, l)
    ensures forall l: nat, e: nat :: l <= line && HasTriple(s, e) ==> !BeginsLine(s, start, e, l)
  {
    forall l: nat, e: nat | l <= line && HasTriple(s, e) ensures !BeginsLine(s, start, e, l) {}
  }

  // ----- Interpolation holes

  /** The names after each unescaped `\\(` from `index` on. */
  function HoleRoots(content: Text, index: nat): seq<Text>
    decreases |content| - index
  {
    if index >= |content| then []
    else if content[index] != BACKSLASH then HoleRoots(content, index + 1)
    else HoleRoot(content, index) + HoleRoots(content, index + 2)
  }

  /** The hole at the backslash `index`, if it opens one. */
  function HoleRoot(content: Text, index: nat): seq<Text>
    requires index < |content|
  {
    if index + 1 < |content| && content[index + 1] == OPEN_PAREN then
      var start := index + 2;
      var end := IdentifierEnd(content, start);
      if end > start && !IsDigit(content[start]) then [content[start..end]] else []
    else []
  }

  method FindHoleRoot(content: Text, index: nat) returns (root: seq<Text>)
    requires WellFormed(content) && index < |content|
    ensures root == HoleRoot(content, index)
  {
    root := [];
    if index + 1 < |content| && content[index + 1] == OPEN_PAREN {
      var start := index + 2;
      var end := SkipIdentifier(content, start);
      if end > start && !IsDigit(content[start]) {
        IdentifierOnBoundaries(content, start, end);
        root := [Slice(content, start, end)];
      }
    }
  }

  method FindHoleRoots(content: Text) returns (roots: seq<Text>)
    requires WellFormed(content)
    ensures roots == HoleRoots(content, 0)
  {
    roots := [];
    var index: nat := 0;
    while index < |content|
      invariant roots + HoleRoots(content, index) == HoleRoots(content, 0)
    {
      if content[index] != BACKSLASH {
        index := index + 1;
        continue;
      }
      var root := FindHoleRoot(content, index);
      assert roots + (root + HoleRoots(content, index + 2)) == (roots + root) + HoleRoots(content, index + 2);
      roots := roots + root;
      index := index + 2;
    }
  }

  // ----- Tokens

  datatype Token = Identifier(name: Text) | LeftParen | RightParen | Other

  /** How many closing parentheses the tokens end in. */
  function TrailingParens(tokens: seq<Token>): (n: nat)
    ensures n <= |tokens|
    ensures forall k :: |tokens| - n <= k < |tokens| ==> tokens[k].RightParen?
    ensures n < |tokens| ==> !tokens[|tokens| - n - 1].RightParen?
  {
    if tokens == [] || !tokens[|tokens| - 1].RightParen? then 0
    else 1 + TrailingParens(tokens[..|tokens| - 1])
  }

  /** The identifier before a parenthesis, which may itself stand in
      parentheses: what is inside as many opening parentheses as the tokens end
      in closing ones. */
  function Grouped(tokens: seq<Token>): Option<Text> {
    var closing := TrailingParens(tokens);
    var end := |tokens| - closing;
    if end <= closing || !tokens[end - 1].Identifier? then None
    else if AllOpening(tokens, end - 1 - closing, end - 1) then Some(tokens[end - 1].name)
    else None
  }

  predicate AllOpening(tokens: seq<Token>, from: nat, end: nat)
    requires from <= end <= |tokens|
    ensures AllOpening(tokens, from, end) <==> (forall k :: from <= k < end ==> tokens[k].LeftParen?)
    decreases end - from
  {
    from == end || (tokens[from].LeftParen? && AllOpening(tokens, from + 1, end))
  }

  /** Exactly the tokens that end in a name wrapped in balanced parentheses. */
  lemma GroupedExactly(tokens: seq<Token>, name: Text)
    ensures Grouped(tokens) == Some(name) <==> exists prefix, depth: nat :: IsGrouped(tokens, prefix, name, depth)
  {
    var closing := TrailingParens(tokens);
    var end := |tokens| - closing;
    if prefix, depth: nat :| IsGrouped(tokens, prefix, name, depth) {
      GroupedShape(tokens, prefix, name, depth, end);
    }
    if Grouped(tokens) == Some(name) {
      assert IsGrouped(tokens, tokens[..end - 1 - closing], name, closing);
    }
  }

  /** `grouped_token_identifier`. */
  method GroupedIdentifier(tokens: seq<Token>) returns (name: Option<Text>)
    ensures name == Grouped(tokens)
  {
    var closing := 0;
    var end := |tokens|;
    while end > 0 && tokens[end - 1].RightParen?
      invariant 0 <= end <= |tokens| && closing == |tokens| - end
      invariant forall k :: end <= k < |tokens| ==> tokens[k].RightParen?
    {
      closing := closing + 1;
      end := end - 1;
    }
    assert closing == TrailingParens(tokens);
    if end == 0 || !tokens[end - 1].Identifier? {
      return None;
    }
    var identifier := end - 1;
    if identifier < closing {
      return None;
    }
    var opening := identifier - closing;
    for i := opening to identifier
      invariant forall k :: opening <= k < i ==> tokens[k].LeftParen?
    {
      if !tokens[i].LeftParen? {
        return None;
      }
    }
    return Some(tokens[identifier].name);
  }

  function Repeated(token: Token, n: nat): seq<Token> {
    seq(n, _ => token)
  }

  /** The tokens end in `depth` opening parentheses, the identifier, and as many
      closing ones. */
  predicate IsGrouped(tokens: seq<Token>, prefix: seq<Token>, name: Text, depth: nat) {
    tokens == prefix + Repeated(LeftParen, depth) + [Identifier(name)] + Repeated(RightParen, depth)
  }

  lemma GroupedShape(tokens: seq<Token>, prefix: seq<Token>, name: Text, depth: nat, end: nat)
    requires IsGrouped(tokens, prefix, name, depth) && end <= |tokens|
    requires forall k :: end <= k < |tokens| ==> tokens[k].RightParen?
    requires end == 0 || !tokens[end - 1].RightParen?
    ensures depth == |tokens| - end && end > 0 && tokens[end - 1] == Identifier(name)
    ensures |prefix| == end - 1 - depth && forall k :: |prefix| <= k < end - 1 ==> tokens[k].LeftParen?
  {
    var at := |prefix| + depth;
    assert tokens[at] == Identifier(name);
    assert forall k :: at < k < |tokens| ==> tokens[k].RightParen?;
    assert end == at + 1;
  }
}
