/** What the tolerant scanner computes, as functions on its state: the spans it
    emits are a function of the text
    (`crates/krit-assist/src/context.rs`). */
module TolerantMachine {
  import opened Utf8
  import opened Wrappers
  import opened RedactionTargets
  import opened SourceSpans
  import opened LiteralFlow
  import opened TolerantText
  import opened TolerantReference
  import opened TolerantBindings

  datatype Emitted = Emitted(range: Range, category: Category)

  /** The scanner's variables: the same control as the reference's, bounded
      targets in place of taints, and the spans emitted so far. */
  datatype Machine = Machine(
    control: Control,
    spans: seq<Emitted>,
    scopes: seq<Frame>,
    pending: seq<PendingBinding>)

  const MACHINE_START: Machine := Machine(AT_START, [], [map[]], [])

  function Emit(spans: seq<Emitted>, regions: seq<Range>, category: Category): seq<Emitted> {
    spans + seq(|regions|, i requires 0 <= i < |regions| => Emitted(regions[i], category))
  }

  // ----- Names

  /** The value of the nearest finished binding, unless that is a parameter. */
  function BoundValue(scopes: seq<Frame>, name: Text): Option<Targets> {
    var at := Barrier(scopes, name);
    if at.None? || scopes[at.value][name].untraceable then None else Some(scopes[at.value][name])
  }

  /** The scope of a parameter that stops the search. */
  function ValueFloor(scopes: seq<Frame>, name: Text): Option<nat> {
    var at := Barrier(scopes, name);
    if at.Some? && scopes[at.value][name].untraceable then at else None
  }

  function Joined(source: Text, found: Option<Targets>, p: PendingBinding): Targets {
    if found.Some? then Merge(found.value, InProgress(source, p)) else InProgress(source, p)
  }

  predicate CanMean(p: PendingBinding, name: Text, floor: Option<nat>) {
    p.name == name && !(floor.Some? && p.scope < floor.value)
  }

  /** `found`, joined with the declarations in progress from the top down to
      `i` that the name may mean. */
  function HeldValue(source: Text, pending: seq<PendingBinding>, name: Text, floor: Option<nat>,
                     found: Option<Targets>, i: nat): Option<Targets>
    requires i <= |pending|
    decreases |pending| - i
  {
    if i == |pending| then found
    else
      var above := HeldValue(source, pending, name, floor, found, i + 1);
      if CanMean(pending[i], name, floor) then Some(Joined(source, above, pending[i])) else above
  }

  function InheritedValue(source: Text, scopes: seq<Frame>, pending: seq<PendingBinding>, name: Text): Option<Targets> {
    HeldValue(source, pending, name, ValueFloor(scopes, name), BoundValue(scopes, name), 0)
  }

  function TopFinished(source: Text, m: Machine): (after: Machine)
    ensures after.control == m.control && after.spans == m.spans && |after.scopes| == |m.scopes|
  {
    if m.pending == [] then m
    else
      var p := m.pending[|m.pending| - 1];
      m.(pending := m.pending[..|m.pending| - 1],
         scopes := if p.scope < |m.scopes|
                   then m.scopes[p.scope := m.scopes[p.scope][p.name := Finish(source, p)]]
                   else m.scopes)
  }

  /** What a name that resolves to `value` does. */
  function ValuePassed(m: Machine, value: Targets): (after: Machine)
    ensures after.control == m.control && after.scopes == m.scopes
  {
    var category := FrameCategory(m.control.frames);
    m.(pending := InheritAll(m.pending, value),
       spans := if category.Some? then Emit(m.spans, value.Regions(), category.value) else m.spans)
  }

  function NameUsed(source: Text, m: Machine, name: Text): (after: Machine)
    ensures after.control == m.control && after.scopes == m.scopes
  {
    var value := InheritedValue(source, m.scopes, m.pending, name);
    if value.Some? then ValuePassed(m, value.value) else m
  }

  function NamesUsed(source: Text, m: Machine, names: seq<Text>): (after: Machine)
    ensures after.control == m.control && after.scopes == m.scopes
    decreases |names|
  {
    if names == [] then m else NamesUsed(source, NameUsed(source, m, names[0]), names[1..])
  }

  function NameDeclared(m: Machine, name: Text, depth: nat): Machine {
    m.(pending := m.pending + [NewBinding(name, depth, if |m.scopes| > 0 then |m.scopes| - 1 else 0)])
  }

  function Touched(m: Machine, start: nat, end: nat): Machine {
    m.(pending := TouchAll(m.pending, start, end))
  }

  /** Every binding of the innermost scope is finished. */
  function ScopeFinished(source: Text, m: Machine): (after: Machine)
    ensures after.control == m.control && after.spans == m.spans && |after.scopes| == |m.scopes|
    decreases |m.pending|
  {
    if m.pending != [] && m.pending[|m.pending| - 1].scope >= |m.scopes| - 1
    then ScopeFinished(source, TopFinished(source, m)) else m
  }

  // ----- Identifiers

  function IdentifierClassified(source: Text, m: Machine, identifier: Text): (after: Machine)
    requires m.control.cursor <= |source|
    ensures after.control.cursor == m.control.cursor
  {
    var c := m.control;
    var role := RoleOf(source, c, AsString(identifier));
    var named := m.(control := Named(c, role, identifier));
    match role
    case Declaration => NameDeclared(named, identifier, DepthOf(c))
    case Use => NameUsed(source, named, identifier)
    case _ => named
  }

  function IdentifierScanned(source: Text, m: Machine): (after: Machine)
    requires m.control.cursor < |source|
    ensures m.control.cursor < after.control.cursor <= |source|
  {
    var end := IdentifierEnd(source, m.control.cursor + 1);
    IdentifierTaken(source, m, source[m.control.cursor..end], end)
  }

  function IdentifierTaken(source: Text, m: Machine, name: Text, end: nat): (after: Machine)
    requires end <= |source|
    ensures after.control.cursor == end
  {
    var c := m.control.(cursor := end, closingPattern := false);
    var classified := IdentifierClassified(source, Touched(m, m.control.cursor, end).(control := c), name);
    classified.(control := WithToken(classified.control, Identifier(name)))
  }

  // ----- Delimiters

  function ParameterFrame(parameters: seq<Text>): Frame {
    map name | name in parameters :: UNTRACEABLE
  }

  function GroupPushed(m: Machine, kind: GroupKind): (after: Machine)
    ensures after.control.cursor == m.control.cursor + 1
  {
    var c := m.control;
    m.(control := GroupBegun(c, kind),
       scopes := if kind.BlockGroup? then m.scopes + [ParameterFrame(if c.sawFunctionKeyword then c.parameters else [])]
                 else m.scopes)
  }

  function ScopeLeft(source: Text, m: Machine): (after: Machine)
    ensures after.control == m.control
  {
    var finished := ScopeFinished(source, m);
    if finished.scopes == [] then finished else finished.(scopes := finished.scopes[..|finished.scopes| - 1])
  }

  function GroupPopped(source: Text, m: Machine, byte: Byte): (after: Machine)
    ensures after.control.cursor == m.control.cursor + 1
  {
    var c := m.control;
    if !Matches(byte, c.groups) then m.(control := Advanced(WithToken(c, Other)))
    else
      var shut := m.(control := Advanced(WithToken(GroupShut(c), Other)));
      if c.groups[|c.groups| - 1].BlockGroup? && |m.scopes| > 1 then ScopeLeft(source, shut) else shut
  }

  function DelimiterScanned(source: Text, m: Machine, byte: Byte): (after: Machine)
    ensures after.control.cursor == m.control.cursor + 1
  {
    if byte == OPEN_PAREN then m.(control := ParenOpened(m.control))
    else if byte == CLOSE_PAREN then m.(control := ParenClosed(m.control))
    else if byte == COMMA then m.(control := CommaRead(m.control))
    else if byte == OPEN_BRACKET then GroupPushed(m, BracketGroup)
    else if byte == OPEN_BRACE then GroupPushed(m, BraceKind(m.control.tokens, m.control.sawFunctionKeyword))
    else GroupPopped(source, m, byte)
  }

  // ----- Literals

  /** Every binding in progress takes the literal, then what `names` carry. */
  function LiteralRecorded(source: Text, m: Machine, span: Range, names: seq<Text>): (after: Machine)
    ensures after.control == m.control && after.scopes == m.scopes
  {
    NamesUsed(source, m.(pending := RecordAll(m.pending, span)), names)
  }

  function LiteralCategory(c: Control, secretLike: Text -> bool, content: Text): Option<Category> {
    if LastNamed(c.tokens, {"queue", "schedule"}) then Some(CapabilityResource)
    else if FrameCategory(c.frames).Some? then FrameCategory(c.frames)
    else if secretLike(content) then Some(SecretLike)
    else None
  }

  function LiteralJudged(secretLike: Text -> bool, m: Machine, span: Range, content: Text): (after: Machine)
    ensures after.control == m.control && after.scopes == m.scopes
  {
    var category := LiteralCategory(m.control, secretLike, content);
    if category.Some? then m.(spans := m.spans + [Emitted(span, category.value)]) else m
  }

  function LiteralPassed(source: Text, secretLike: Text -> bool, m: Machine, span: Range, content: Text, next: nat)
    : (after: Machine)
    ensures after.control.cursor == next
  {
    var recorded := LiteralRecorded(source, Touched(m, m.control.cursor, next), span, HoleRoots(content, 0));
    LiteralJudged(secretLike, recorded, span, content).(control := WithToken(m.control, Other).(cursor := next))
  }

  ghost function LiteralScanned(source: Text, secretLike: Text -> bool, m: Machine): (after: Machine)
    requires m.control.cursor < |source|
    ensures m.control.cursor < after.control.cursor <= |source|
  {
    var (start, end, next) := LiteralAt(source, m.control.cursor);
    LiteralPassed(source, secretLike, m, (start, end), source[start..end], next)
  }

  // ----- Bytes

  function ByteNoticed(m: Machine, byte: Byte): (after: Machine)
    ensures after.control == Noticed(m.control, byte)
  {
    var c := m.control.(closingPattern := false);
    if m.control.closingPattern && byte == CLOSE_PAREN then m.(control := c)
    else if !IsWhitespace(byte) && byte != EQUALS then Touched(m, c.cursor, c.cursor + 1).(control := c)
    else m
  }

  function LineScanned(source: Text, m: Machine): (after: Machine)
    ensures after.control.cursor == m.control.cursor + 1
  {
    var ends := m.pending != [] && |m.control.frames| <= m.pending[|m.pending| - 1].depth;
    (if ends then TopFinished(source, m) else m).(control := Advanced(m.control))
  }

  function SemicolonScanned(source: Text, m: Machine): (after: Machine)
    ensures after.control.cursor == m.control.cursor + 1
  {
    TopFinished(source, m).(control := Advanced(WithToken(m.control, Other)))
  }

  ghost function ByteScanned(source: Text, secretLike: Text -> bool, m: Machine): (after: Machine)
    requires m.control.cursor < |source|
    ensures m.control.cursor < after.control.cursor <= |source|
  {
    var byte := source[m.control.cursor];
    var n := ByteNoticed(m, byte);
    if byte == LF then LineScanned(source, n)
    else if byte == SEMICOLON then SemicolonScanned(source, n)
    else if IsDelimiter(byte) then DelimiterScanned(source, n, byte)
    else if byte == QUOTE then LiteralScanned(source, secretLike, n)
    else n.(control := OtherRead(n.control, byte))
  }

  ghost function StepScanned(source: Text, secretLike: Text -> bool, m: Machine): (after: Machine)
    requires m.control.cursor < |source|
    ensures m.control.cursor < after.control.cursor <= |source|
  {
    var cursor := m.control.cursor;
    if BeginsComment(source, cursor) then m.(control := m.control.(cursor := CommentEnd(source, cursor + 2)))
    else if IsIdentifierStart(source[cursor]) then IdentifierScanned(source, m)
    else ByteScanned(source, secretLike, m)
  }

  /** The whole text. */
  ghost function TextScanned(source: Text, secretLike: Text -> bool, m: Machine): (after: Machine)
    requires m.control.cursor <= |source|
    ensures after.control.cursor == |source|
    decreases |source| - m.control.cursor
  {
    if m.control.cursor == |source| then m
    else TextScanned(source, secretLike, StepScanned(source, secretLike, m))
  }

  /** The spans emitted for a text, in order. */
  ghost function SpansOf(source: Text, secretLike: Text -> bool): seq<Emitted> {
    TextScanned(source, secretLike, MACHINE_START).spans
  }
}
