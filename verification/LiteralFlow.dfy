/** The literal-flow analysis over a parsed program, as plain recursion
    (`crates/krit-assist/src/context.rs`). */
module LiteralFlow {
  import opened Utf8
  import opened Wrappers
  import opened RedactionTargets
  import opened SourceSpans
  import opened Ast

  datatype Category =
    | CapabilityResource
    | EventName
    | StateKey
    | CheckpointName
    | ReplayOperation
    | DatabaseStatement
    | ObjectKey
    | CacheKey
    | CacheValue
    | SearchQuery
    | SearchVector
    | SecretLike

  function Label(category: Category): Text {
    OfAscii(match category
            case CapabilityResource => "capability-resource"
            case EventName => "event-name"
            case StateKey => "state-key"
            case CheckpointName => "checkpoint-name"
            case ReplayOperation => "replay-operation"
            case DatabaseStatement => "database-statement"
            case ObjectKey => "object-key"
            case CacheKey => "cache-key"
            case CacheValue => "cache-value"
            case SearchQuery => "search-query"
            case SearchVector => "search-vector"
            case SecretLike => "secret-like")
  }

  /** For a call by this name, which arguments are sensitive and under which
      category; any other name has none. */
  function SensitiveArguments(name: Name): seq<(nat, Category)> {
    match name
    case "ai_invoke" => [(0, CapabilityResource)]
    case "config_string" => [(0, CapabilityResource)]
    case "secret" => [(0, CapabilityResource)]
    case "http_request" => [(0, CapabilityResource)]
    case "log_error" => [(0, EventName)]
    case "log_info" => [(0, EventName)]
    case "state_delete" => [(0, CapabilityResource), (1, StateKey)]
    case "state_get" => [(0, CapabilityResource), (1, StateKey)]
    case "state_put" => [(0, CapabilityResource), (1, StateKey)]
    case "checkpoint_get" => [(0, CapabilityResource), (1, CheckpointName)]
    case "checkpoint_put" => [(0, CapabilityResource), (1, CheckpointName)]
    case "replay_ai" => [(0, CapabilityResource), (1, ReplayOperation), (2, CapabilityResource)]
    case "replay_http" => [(0, CapabilityResource), (1, ReplayOperation), (2, CapabilityResource)]
    case "queue_publish" => [(0, CapabilityResource)]
    case "db_begin_read" => [(0, CapabilityResource)]
    case "db_begin_write" => [(0, CapabilityResource)]
    case "db_execute" => [(1, DatabaseStatement)]
    case "db_query" => [(1, DatabaseStatement)]
    case "object_delete" => [(0, CapabilityResource), (1, ObjectKey)]
    case "object_get" => [(0, CapabilityResource), (1, ObjectKey)]
    case "object_put" => [(0, CapabilityResource), (1, ObjectKey)]
    case "cache_get" => [(0, CapabilityResource), (1, CacheKey)]
    case "cache_delete" => [(0, CapabilityResource), (1, CacheKey)]
    case "cache_put" => [(0, CapabilityResource), (1, CacheKey), (2, CacheValue)]
    case "search_query" => [(0, CapabilityResource), (1, SearchQuery)]
    case "vector_search" => [(0, CapabilityResource), (1, SearchVector)]
    case _ => []
  }

  // ----- Scopes

  /** One lexical scope: names with a snapshot of what their value contributed
      where it was declared. */
  type Bindings = map<Name, Targets>

  /** The snapshot a name stands for: that of the last scope which has the name,
      unless it is a parameter there. */
  function Resolve(scopes: seq<Bindings>, name: Name): Option<Targets> {
    if scopes == [] then None
    else
      var innermost := scopes[|scopes| - 1];
      if name in innermost then (if innermost[name].untraceable then None else Some(innermost[name]))
      else Resolve(scopes[..|scopes| - 1], name)
  }

  // ----- What an expression contributes

  /** What the source takes for the text of a literal: the inside of the quotes
      its node begins and ends with, if it does. */
  function TokenOf(source: Text, e: Expression): Option<Range>
    requires IsLiteral(e)
  {
    if e.StringLiteral? then LiteralContentSpan(source, e.span.0, e.span.1)
    else TemplateContentSpan(source, e.span.0, e.span.1)
  }

  function AddContent(t: Targets, content: Option<Range>): Targets {
    if content.Some? then AddSpan(t, content.value) else t
  }

  /** `t` with the literals of the expression and the snapshots of its names. */
  function Collect(source: Text, e: Expression, scopes: seq<Bindings>, t: Targets): Targets
    decreases Size(e)
  {
    match e
    case StringLiteral(_, _, _) => AddContent(t, TokenOf(source, e))
    case Atom(_) => t
    case Template(_, _, _, holes) => CollectAll(source, holes, scopes, AddContent(t, TokenOf(source, e)))
    case Variable(_, name) =>
      var bound := Resolve(scopes, name);
      if bound.Some? then Merge(t, bound.value) else t
    case Compound(_, _, operands) => CollectAll(source, operands, scopes, t)
    case BlockValue(_, body) => CollectBlock(source, body, scopes, t)
    case If(_, condition, consequent, alternative) =>
      var first := Collect(source, condition, scopes, t);
      Collect(source, alternative, scopes, CollectBlock(source, consequent, scopes, first))
    case Lambda(_, _, body) => CollectBlock(source, body, scopes, t)
    case Call(_, callee, arguments) => CollectAll(source, arguments, scopes, Collect(source, callee, scopes, t))
    case Match(_, subject, arms) => CollectAll(source, arms, scopes, Collect(source, subject, scopes, t))
    case Binary(_, left, right) => Collect(source, right, scopes, Collect(source, left, scopes, t))
  }

  function CollectAll(source: Text, es: seq<Expression>, scopes: seq<Bindings>, t: Targets): Targets
    decreases SizeAll(es)
  {
    if es == [] then t else CollectAll(source, es[1..], scopes, Collect(source, es[0], scopes, t))
  }

  function CollectBlock(source: Text, b: Block, scopes: seq<Bindings>, t: Targets): Targets
    decreases SizeBlock(b)
  {
    if b.statements == [] then (if b.tail.Some? then Collect(source, b.tail.value, scopes, t) else t)
    else
      var rest := Rest(b);
      CollectBlock(source, rest, scopes, CollectStatement(source, b.statements[0], scopes, t))
  }

  function CollectStatement(source: Text, s: Statement, scopes: seq<Bindings>, t: Targets): Targets
    decreases SizeStatement(s)
  {
    match s
    case Let(_, value) => Collect(source, value, scopes, t)
    case LetElse(_, value, arm) => Collect(source, arm, scopes, Collect(source, value, scopes, t))
    case Handler(_, _, _, body) => CollectBlock(source, body, scopes, t)
    case Evaluate(value) => Collect(source, value, scopes, t)
  }

  /** Resolved now, not later; on overflow the expression's own range too. */
  function Snapshot(source: Text, e: Expression, scopes: seq<Bindings>): Targets {
    var t := Collect(source, e, scopes, NOTHING);
    var range := CharRange(source, e.span.0, e.span.1);
    if t.overflowed && range.Some? then AddRange(t, range.value) else t
  }

  function Declare(source: Text, s: Statement, scopes: seq<Bindings>): (declared: seq<Bindings>)
    requires scopes != []
    ensures |declared| == |scopes| && declared[..|scopes| - 1] == scopes[..|scopes| - 1]
  {
    if s.Let? || (s.LetElse? && s.binder.Some?) then
      var name := if s.Let? then s.name else s.binder.value;
      var last := |scopes| - 1;
      scopes[last := scopes[last][name := Snapshot(source, s.value, scopes)]]
    else scopes
  }

  // ----- The walk over the program

  type Marks = map<Range, Category>

  function MarkAll(marks: Marks, regions: seq<Range>, category: Category): Marks
    decreases |regions|
  {
    if regions == [] then marks else MarkAll(marks[regions[0] := category], regions[1..], category)
  }

  function MarkArguments(source: Text, arguments: seq<Expression>, scopes: seq<Bindings>,
                         sensitive: seq<(nat, Category)>, marks: Marks): Marks
  {
    if sensitive == [] then marks
    else
      var (index, category) := sensitive[0];
      MarkArguments(source, arguments, scopes, sensitive[1..],
                    if index < |arguments|
                    then MarkAll(marks, Snapshot(source, arguments[index], scopes).Regions(), category)
                    else marks)
  }

  /** A secret-like literal, unless something marked it before. */
  function MarkSecretLike(marks: Marks, secretLike: bool, content: Option<Range>): Marks {
    if secretLike && content.Some? && content.value !in marks then marks[content.value := SecretLike] else marks
  }

  function Opaque(parameters: seq<Name>): Bindings {
    map name | name in parameters :: UNTRACEABLE
  }

  function Mark(source: Text, e: Expression, scopes: seq<Bindings>, marks: Marks): Marks
    decreases Size(e)
  {
    match e
    case StringLiteral(_, _, secretLike) => MarkSecretLike(marks, secretLike, TokenOf(source, e))
    case Atom(_) => marks
    case Template(_, _, secretLike, holes) =>
      MarkEach(source, holes, scopes, MarkSecretLike(marks, secretLike, TokenOf(source, e)))
    case Variable(_, _) => marks
    case Compound(_, _, operands) => MarkEach(source, operands, scopes, marks)
    case BlockValue(_, body) => MarkBlock(source, body, scopes + [map[]], marks)
    case If(_, condition, consequent, alternative) =>
      Mark(source, alternative, scopes,
           MarkBlock(source, consequent, scopes + [map[]], Mark(source, condition, scopes, marks)))
    case Lambda(_, parameters, body) => MarkBlock(source, body, scopes + [Opaque(parameters)] + [map[]], marks)
    case Call(_, callee, arguments) =>
      var children := MarkEach(source, arguments, scopes, Mark(source, callee, scopes, marks));
      if callee.Variable? then MarkArguments(source, arguments, scopes, SensitiveArguments(callee.name), children)
      else children
    case Match(_, subject, arms) => MarkEach(source, arms, scopes, Mark(source, subject, scopes, marks))
    case Binary(_, left, right) => Mark(source, right, scopes, Mark(source, left, scopes, marks))
  }

  function MarkEach(source: Text, es: seq<Expression>, scopes: seq<Bindings>, marks: Marks): Marks
    decreases SizeAll(es)
  {
    if es == [] then marks else MarkEach(source, es[1..], scopes, Mark(source, es[0], scopes, marks))
  }

  /** The statements of a block whose scope is already pushed. */
  function MarkBlock(source: Text, b: Block, scopes: seq<Bindings>, marks: Marks): Marks
    requires scopes != []
    decreases SizeBlock(b)
  {
    if b.statements == [] then (if b.tail.Some? then Mark(source, b.tail.value, scopes, marks) else marks)
    else
      var rest := Rest(b);
      MarkBlock(source, rest, Declare(source, b.statements[0], scopes),
                MarkStatement(source, b.statements[0], scopes, marks))
  }

  function MarkResource(source: Text, resource: Option<(Span, Span)>, marks: Marks): Marks {
    if resource.None? then marks
    else
      var token := TokenOf(source, ResourceNode(resource.value));
      if token.Some? then marks[token.value := CapabilityResource] else marks
  }

  function MarkStatement(source: Text, s: Statement, scopes: seq<Bindings>, marks: Marks): Marks
    decreases SizeStatement(s)
  {
    match s
    case Let(_, value) => Mark(source, value, scopes, marks)
    case LetElse(_, value, arm) => Mark(source, arm, scopes, Mark(source, value, scopes, marks))
    case Handler(_, resource, parameters, body) =>
      MarkBlock(source, body, scopes + [Opaque(parameters)] + [map[]], MarkResource(source, resource, marks))
    case Evaluate(value) => Mark(source, value, scopes, marks)
  }

  /** `ast_sensitive_literal_spans`. */
  function SensitiveSpans(source: Text, program: seq<Statement>): Marks {
    MarkBlock(source, Block(program, None), [map[]], map[])
  }
}
