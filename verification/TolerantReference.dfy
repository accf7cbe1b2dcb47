/** The reference for the tolerant scanner: a pure scan of the text that numbers
    its literals and keeps, in plain sets, which of them each name carries and
    which have reached a sensitive position
    (`crates/krit-assist/src/context.rs`). */
module TolerantReference {
  import opened Utf8
  import opened Wrappers
  import opened RedactionTargets
  import opened SourceSpans
  import opened LiteralFlow
  import opened TolerantText

  const COMMA: Byte := 0x2C
  const SEMICOLON: Byte := 0x3B
  const EQUALS: Byte := 0x3D
  const OPEN_BRACKET: Byte := 0x5B
  const CLOSE_BRACKET: Byte := 0x5D
  const OPEN_BRACE: Byte := 0x7B
  const CLOSE_BRACE: Byte := 0x7D

  datatype GroupKind = CallGroup | BracketGroup | RecordGroup | BlockGroup

  /** One call, or an unnamed group, that is still open. */
  datatype CallFrame = CallFrame(name: Option<Text>, argument: nat)

  /** A declaration that has not ended: the name it binds, how many groups were
      open before it, the scope it belongs to, and the literals that its value
      carries so far. */
  datatype Held = Held(name: Text, depth: nat, scope: nat, taint: set<nat>)

  /** What each name of a scope carries; a parameter carries nothing known. */
  type Taints = map<Text, Option<set<nat>>>

  /** Where the scan is: the tokens read, the groups open, and what the next
      identifier may be. */
  datatype Control = Control(
    cursor: nat,
    tokens: seq<Token>,
    frames: seq<CallFrame>,
    groups: seq<GroupKind>,
    expectBindingName: bool,
    patternBinderDepth: Option<nat>,
    closingPattern: bool,
    parameters: seq<Text>,
    collectingParameters: bool,
    expectParameterName: bool,
    sawFunctionKeyword: bool)

  /** That, with what names carry and what has been seen. */
  datatype Trace = Trace(
    control: Control,
    scopes: seq<Taints>,
    pending: seq<Held>,
    literals: seq<Range>,
    exposed: set<nat>)

  const AT_START: Control := Control(0, [], [], [], false, None, false, [], false, false, false)
  const START: Trace := Trace(AT_START, [map[]], [], [], {})

  function AsString(name: Text): string {
    seq(|name|, i requires 0 <= i < |name| => name[i] as char)
  }

  predicate LastNamed(tokens: seq<Token>, names: set<string>) {
    tokens != [] && tokens[|tokens| - 1].Identifier? && AsString(tokens[|tokens| - 1].name) in names
  }

  // ----- Frames and groups

  function CategoryOf(sensitive: seq<(nat, Category)>, argument: nat): Option<Category> {
    if sensitive == [] then None
    else if sensitive[0].0 == argument then Some(sensitive[0].1)
    else CategoryOf(sensitive[1..], argument)
  }

  /** `frame_category`: looks outward from the top frame for a call with a
      category at its present argument. */
  function FrameCategory(frames: seq<CallFrame>): Option<Category> {
    if frames == [] then None
    else
      var top := frames[|frames| - 1];
      var category :=
        if top.name.None? then None else CategoryOf(SensitiveArguments(AsString(top.name.value)), top.argument);
      if category.Some? then category else FrameCategory(frames[..|frames| - 1])
  }

  /** What a brace opens: after `record` or a contract's name a literal, unless
      that name is a function's return type, and otherwise a block. */
  function BraceKind(tokens: seq<Token>, sawFunctionKeyword: bool): GroupKind {
    if LastNamed(tokens, {"record"}) then RecordGroup
    else if !sawFunctionKeyword && LastNamed(tokens, {"HttpRequest", "HttpResponse", "HttpHeader", "LogField"})
    then RecordGroup
    else BlockGroup
  }

  /** Whether a closing bracket or brace matches the innermost group. */
  predicate Matches(byte: Byte, groups: seq<GroupKind>) {
    && groups != []
    && var top := groups[|groups| - 1];
       if byte == CLOSE_BRACKET then top.BracketGroup? else top.BlockGroup? || top.RecordGroup?
  }

  // ----- Names

  /** The innermost scope that binds the name. */
  function Barrier<V>(scopes: seq<map<Text, V>>, name: Text): (at: Option<nat>)
    ensures at.Some? ==> at.value < |scopes| && name in scopes[at.value]
    ensures forall i :: 0 <= i < |scopes| && name in scopes[i] ==> at.Some? && i <= at.value
  {
    if scopes == [] then None
    else if name in scopes[|scopes| - 1] then Some(|scopes| - 1)
    else Barrier(scopes[..|scopes| - 1], name)
  }

  /** A parameter of this name stops the search where it is declared. */
  function Floor(scopes: seq<Taints>, name: Text): Option<nat> {
    var at := Barrier(scopes, name);
    if at.Some? && scopes[at.value][name].None? then at else None
  }

  /** Whether a declaration in progress is one the name may mean. */
  predicate Visible(held: Held, name: Text, floor: Option<nat>) {
    held.name == name && !(floor.Some? && held.scope < floor.value)
  }

  /** What the nearest finished binding of the name carries. */
  function BoundTaint(scopes: seq<Taints>, name: Text): set<nat> {
    var at := Barrier(scopes, name);
    if at.Some? && scopes[at.value][name].Some? then scopes[at.value][name].value else {}
  }

  /** What the visible declarations in progress, from `i` up, carry. */
  function HeldTaint(pending: seq<Held>, name: Text, floor: Option<nat>, i: nat): set<nat>
    requires i <= |pending|
    decreases |pending| - i
  {
    if i == |pending| then {}
    else (if Visible(pending[i], name, floor) then pending[i].taint else {}) + HeldTaint(pending, name, floor, i + 1)
  }

  /** Every literal that may be behind the name where it is used. */
  function Taint(scopes: seq<Taints>, pending: seq<Held>, name: Text): set<nat> {
    BoundTaint(scopes, name) + HeldTaint(pending, name, Floor(scopes, name), 0)
  }

  function TaintAll(pending: seq<Held>, ks: set<nat>): seq<Held> {
    seq(|pending|, i requires 0 <= i < |pending| => pending[i].(taint := pending[i].taint + ks))
  }

  // ----- Steps on names

  /** The innermost declaration ends: its name is bound in the scope it belongs
      to. */
  function Finished(t: Trace): (after: Trace)
    ensures after.control == t.control && |after.scopes| == |t.scopes| && after.literals == t.literals
  {
    if t.pending == [] then t
    else
      var held := t.pending[|t.pending| - 1];
      t.(pending := t.pending[..|t.pending| - 1],
         scopes := if held.scope < |t.scopes|
                   then t.scopes[held.scope := t.scopes[held.scope][held.name := Some(held.taint)]]
                   else t.scopes)
  }

  /** What a name does where it is used: its literals go to every declaration in
      progress, and are exposed if some frame is sensitive. */
  function Used(t: Trace, name: Text): (after: Trace)
    ensures after.control == t.control && after.literals == t.literals && after.scopes == t.scopes
  {
    var ks := Taint(t.scopes, t.pending, name);
    t.(pending := TaintAll(t.pending, ks),
       exposed := if FrameCategory(t.control.frames).Some? then t.exposed + ks else t.exposed)
  }

  function UsedAll(t: Trace, names: seq<Text>): (after: Trace)
    ensures after.control == t.control && after.literals == t.literals && after.scopes == t.scopes
    decreases |names|
  {
    if names == [] then t else UsedAll(Used(t, names[0]), names[1..])
  }

  function Declared(t: Trace, name: Text, depth: nat): Trace {
    t.(pending := t.pending + [Held(name, depth, if |t.scopes| > 0 then |t.scopes| - 1 else 0, {})])
  }

  /** Every declaration of the innermost scope ends. */
  function InnerFinished(t: Trace): (after: Trace)
    ensures after.control == t.control && |after.scopes| == |t.scopes| && after.literals == t.literals
    decreases |t.pending|
  {
    if t.pending != [] && t.pending[|t.pending| - 1].scope >= |t.scopes| - 1 then InnerFinished(Finished(t)) else t
  }

  // ----- Identifiers

  datatype Role = Keyword | Pattern | Nothing | Declaration | Parameter | Use

  /** What an identifier is: a keyword, a let-else pattern, the pattern that
      binds nothing, a declared name, a parameter, or a use. */
  function RoleOf(source: Text, c: Control, name: string): Role
    requires c.cursor <= |source|
  {
    if name == "let" || name == "fn" then Keyword
    else if c.expectBindingName && c.patternBinderDepth.None? && name in {"Ok", "Err", "Some"}
            && NextVisibleIs(source, c.cursor, OPEN_PAREN)
    then Pattern
    else if c.expectBindingName && c.patternBinderDepth.None? && name == "None" then Nothing
    else if c.expectBindingName then Declaration
    else if c.collectingParameters && c.expectParameterName then Parameter
    else Use
  }

  /** What the identifier does to the control. */
  function Named(c: Control, role: Role, identifier: Text): (after: Control)
    ensures after.cursor == c.cursor && after.frames == c.frames && after.groups == c.groups && after.tokens == c.tokens
  {
    match role
    case Keyword =>
      if AsString(identifier) == "let" then c.(expectBindingName := true)
      else c.(sawFunctionKeyword := true, parameters := [])
    case Pattern => c.(patternBinderDepth := Some(|c.frames|))
    case Nothing => c.(expectBindingName := false)
    case Declaration =>
      c.(expectBindingName := false, closingPattern := c.closingPattern || c.patternBinderDepth.Some?,
         patternBinderDepth := None)
    case Parameter => c.(expectParameterName := false, parameters := c.parameters + [identifier])
    case Use => c
  }

  /** The depth outside the parenthesis of a pattern, or the present one. */
  function DepthOf(c: Control): nat {
    if c.patternBinderDepth.Some? then c.patternBinderDepth.value else |c.frames|
  }

  /** The identifier is behind the cursor. */
  function Classified(source: Text, t: Trace, identifier: Text): (after: Trace)
    requires t.control.cursor <= |source|
    ensures after.control.cursor == t.control.cursor && after.literals == t.literals
  {
    var c := t.control;
    var role := RoleOf(source, c, AsString(identifier));
    var named := t.(control := Named(c, role, identifier));
    match role
    case Declaration => Declared(named, identifier, DepthOf(c))
    case Use => Used(named, identifier)
    case _ => named
  }

  function WithToken(c: Control, token: Token): Control {
    c.(tokens := c.tokens + [token])
  }

  function Advanced(c: Control): (after: Control)
    ensures after.cursor == c.cursor + 1
  {
    c.(cursor := c.cursor + 1)
  }

  function IdentifierRead(source: Text, t: Trace): (after: Trace)
    requires t.control.cursor < |source|
    ensures t.control.cursor < after.control.cursor <= |source| && after.literals == t.literals
  {
    var end := IdentifierEnd(source, t.control.cursor + 1);
    var name := source[t.control.cursor..end];
    var classified := Classified(source, t.(control := t.control.(cursor := end, closingPattern := false)), name);
    classified.(control := WithToken(classified.control, Identifier(name)))
  }

  // ----- Delimiters

  function ParenOpened(c: Control): (after: Control)
    ensures after.cursor == c.cursor + 1
  {
    var begins := c.sawFunctionKeyword && !c.collectingParameters;
    Advanced(WithToken(c.(collectingParameters := c.collectingParameters || begins,
                          expectParameterName := c.expectParameterName || begins,
                          frames := c.frames + [CallFrame(Grouped(c.tokens), 0)],
                          groups := c.groups + [CallGroup]), LeftParen))
  }

  function GroupShut(c: Control): Control {
    c.(frames := if c.frames == [] then [] else c.frames[..|c.frames| - 1],
       groups := if c.groups == [] then [] else c.groups[..|c.groups| - 1])
  }

  /** A stray `)` closes nothing. */
  function ParenClosed(c: Control): (after: Control)
    ensures after.cursor == c.cursor + 1
  {
    var closes := c.groups != [] && c.groups[|c.groups| - 1].CallGroup?;
    Advanced(WithToken(if !closes then c
                       else GroupShut(c).(collectingParameters := false,
                                          expectParameterName := c.expectParameterName && !c.collectingParameters),
                       RightParen))
  }

  function CommaRead(c: Control): (after: Control)
    ensures after.cursor == c.cursor + 1
  {
    var top := |c.frames| - 1;
    var frames := if c.frames == [] then []
                  else c.frames[top := c.frames[top].(argument := c.frames[top].argument + 1)];
    Advanced(WithToken(c.(expectParameterName := c.expectParameterName || c.collectingParameters, frames := frames),
                       Other))
  }

  function GroupBegun(c: Control, kind: GroupKind): (after: Control)
    ensures after.cursor == c.cursor + 1
  {
    var begun := c.(frames := c.frames + [CallFrame(None, 0)], groups := c.groups + [kind]);
    Advanced(WithToken(if kind.BlockGroup? && c.sawFunctionKeyword
                       then begun.(parameters := [], sawFunctionKeyword := false) else begun, Other))
  }

  /** Only a block has a scope of its own; the parameters read before it are
      bound there. */
  function GroupOpened(t: Trace, kind: GroupKind): (after: Trace)
    ensures after.control.cursor == t.control.cursor + 1 && after.literals == t.literals
  {
    var c := t.control;
    t.(control := GroupBegun(c, kind),
       scopes := if kind.BlockGroup? then t.scopes + [ParameterScope(if c.sawFunctionKeyword then c.parameters else [])]
                 else t.scopes)
  }

  function ParameterScope(parameters: seq<Text>): Taints {
    map name | name in parameters :: None
  }

  function ScopePopped(t: Trace): (after: Trace)
    ensures after.control == t.control && after.literals == t.literals
  {
    var finished := InnerFinished(t);
    if finished.scopes == [] then finished else finished.(scopes := finished.scopes[..|finished.scopes| - 1])
  }

  /** A closer closes only the group it matches. */
  function GroupClosed(t: Trace, byte: Byte): (after: Trace)
    ensures after.control.cursor == t.control.cursor + 1 && after.literals == t.literals
  {
    var c := t.control;
    if !Matches(byte, c.groups) then t.(control := Advanced(WithToken(c, Other)))
    else
      var shut := t.(control := Advanced(WithToken(GroupShut(c), Other)));
      if c.groups[|c.groups| - 1].BlockGroup? && |t.scopes| > 1 then ScopePopped(shut) else shut
  }

  predicate IsDelimiter(byte: Byte) {
    byte in {OPEN_PAREN, CLOSE_PAREN, COMMA, OPEN_BRACKET, CLOSE_BRACKET, OPEN_BRACE, CLOSE_BRACE}
  }

  function DelimiterRead(t: Trace, byte: Byte): (after: Trace)
    ensures after.control.cursor == t.control.cursor + 1 && after.literals == t.literals
  {
    if byte == OPEN_PAREN then t.(control := ParenOpened(t.control))
    else if byte == CLOSE_PAREN then t.(control := ParenClosed(t.control))
    else if byte == COMMA then t.(control := CommaRead(t.control))
    else if byte == OPEN_BRACKET then GroupOpened(t, BracketGroup)
    else if byte == OPEN_BRACE then GroupOpened(t, BraceKind(t.control.tokens, t.control.sawFunctionKeyword))
    else GroupClosed(t, byte)
  }

  // ----- Literals

  /** Where the literal that opens at `cursor` begins and ends, and where the
      scan goes on. */
  ghost function LiteralAt(source: Text, cursor: nat): (extent: (nat, nat, nat))
    requires cursor < |source|
    ensures cursor < extent.0 <= extent.1 <= extent.2 <= |source|
  {
    if HasTriple(source, cursor) then BlockAt(source, cursor) else LineAt(source, cursor)
  }

  ghost function BlockAt(source: Text, cursor: nat): (extent: (nat, nat, nat))
    requires HasTriple(source, cursor)
    ensures cursor < extent.0 <= extent.1 <= extent.2 <= |source|
  {
    var end := FirstClosing(source, cursor + 3, cursor + 3);
    (cursor + 3, end, Capped(source, end + 3))
  }

  ghost function LineAt(source: Text, cursor: nat): (extent: (nat, nat, nat))
    requires cursor < |source|
    ensures cursor < extent.0 <= extent.1 <= extent.2 <= |source|
  {
    var end := StringEnd(source, cursor + 1, false);
    (cursor + 1, end, Capped(source, end + 1))
  }

  function Capped(source: Text, i: nat): nat {
    if i < |source| then i else |source|
  }

  /** The literal stands in a sensitive position, or looks secret-like. */
  predicate IsSensitive(c: Control, secretLike: Text -> bool, content: Text) {
    LastNamed(c.tokens, {"queue", "schedule"}) || FrameCategory(c.frames).Some? || secretLike(content)
  }

  /** The literal at the cursor: every declaration in progress takes it, the names
      at the front of its holes are used, and it is exposed if it is sensitive. */
  ghost function LiteralRead(source: Text, secretLike: Text -> bool, t: Trace): (after: Trace)
    requires t.control.cursor < |source|
    ensures t.control.cursor < after.control.cursor <= |source|
  {
    var (start, end, next) := LiteralAt(source, t.control.cursor);
    LiteralTaken(secretLike, t, (start, end), source[start..end], next)
  }

  function LiteralTaken(secretLike: Text -> bool, t: Trace, span: Range, content: Text, next: nat): (after: Trace)
    ensures after.control.cursor == next
  {
    var judged := Judged(secretLike, Recorded(t, span, HoleRoots(content, 0)), content);
    judged.(control := WithToken(t.control, Other).(cursor := next))
  }

  /** Every declaration in progress takes the literal and what `names` carry. */
  function Recorded(t: Trace, span: Range, names: seq<Text>): (after: Trace)
    ensures after.control == t.control && after.literals == t.literals + [span]
  {
    UsedAll(t.(literals := t.literals + [span], pending := TaintAll(t.pending, {|t.literals|})), names)
  }

  /** The last literal is exposed if it is sensitive. */
  function Judged(secretLike: Text -> bool, t: Trace, content: Text): Trace
    requires t.literals != []
  {
    if IsSensitive(t.control, secretLike, content) then t.(exposed := t.exposed + {|t.literals| - 1}) else t
  }

  // ----- Bytes

  /** The `)` of a let-else pattern is noticed once. */
  function Noticed(c: Control, byte: Byte): Control {
    if (c.closingPattern && byte == CLOSE_PAREN) || (!IsWhitespace(byte) && byte != EQUALS)
    then c.(closingPattern := false)
    else c
  }

  /** A newline ends the innermost declaration unless a group opened since is
      still open. */
  function LineEnded(t: Trace): (after: Trace)
    ensures after.control.cursor == t.control.cursor + 1 && after.literals == t.literals
  {
    var ended := if t.pending != [] && |t.control.frames| <= t.pending[|t.pending| - 1].depth then Finished(t) else t;
    ended.(control := Advanced(t.control))
  }

  function SemicolonRead(t: Trace): (after: Trace)
    ensures after.control.cursor == t.control.cursor + 1 && after.literals == t.literals
  {
    Finished(t).(control := Advanced(WithToken(t.control, Other)))
  }

  function OtherRead(c: Control, byte: Byte): (after: Control)
    ensures after.cursor == c.cursor + 1
  {
    Advanced(if IsWhitespace(byte) then c else WithToken(c, Other))
  }

  ghost function ByteRead(source: Text, secretLike: Text -> bool, t: Trace): (after: Trace)
    requires t.control.cursor < |source|
    ensures t.control.cursor < after.control.cursor <= |source|
  {
    var byte := source[t.control.cursor];
    var n := t.(control := Noticed(t.control, byte));
    if byte == LF then LineEnded(n)
    else if byte == SEMICOLON then SemicolonRead(n)
    else if IsDelimiter(byte) then DelimiterRead(n, byte)
    else if byte == QUOTE then LiteralRead(source, secretLike, n)
    else n.(control := OtherRead(n.control, byte))
  }

  /** The end of the comment whose text begins at `i`. */
  function CommentEnd(source: Text, i: nat): (end: nat)
    requires i <= |source|
    ensures i <= end <= |source|
    decreases |source| - i
  {
    if i < |source| && !IsNewline(source[i]) then CommentEnd(source, i + 1) else i
  }

  predicate BeginsComment(source: Text, i: nat) {
    i + 1 < |source| && source[i] == SLASH && source[i + 1] == SLASH
  }

  ghost function Stepped(source: Text, secretLike: Text -> bool, t: Trace): (after: Trace)
    requires t.control.cursor < |source|
    ensures t.control.cursor < after.control.cursor <= |source|
  {
    var cursor := t.control.cursor;
    if BeginsComment(source, cursor) then t.(control := t.control.(cursor := CommentEnd(source, cursor + 2)))
    else if IsIdentifierStart(source[cursor]) then IdentifierRead(source, t)
    else ByteRead(source, secretLike, t)
  }

  /** The whole text. */
  ghost function Scanned(source: Text, secretLike: Text -> bool, t: Trace): Trace
    requires t.control.cursor <= |source|
    decreases |source| - t.control.cursor
  {
    if t.control.cursor == |source| then t else Scanned(source, secretLike, Stepped(source, secretLike, t))
  }

  /** The literals of a text, in order. */
  ghost function LiteralsOf(source: Text, secretLike: Text -> bool): seq<Range> {
    Scanned(source, secretLike, START).literals
  }

  /** The numbers of those that reach a sensitive position. */
  ghost function ExposedOf(source: Text, secretLike: Text -> bool): set<nat> {
    Scanned(source, secretLike, START).exposed
  }
}
