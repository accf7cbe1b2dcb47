/** The parts of Krit's syntax tree that the redaction walk distinguishes
    (`crates/krit/src/ast.rs`).

    Kinds that the walk treats alike are one constructor here.  A literal has
    the range of its own text beside the span of its node: the parser widens the
    span of a parenthesised expression to its parentheses
    (`crates/krit/src/parser.rs`), so the one does not determine the other.
    Binders of match patterns and of let-else arms are not represented. */
module Ast {
  import opened Wrappers

  type Span = (nat, nat)
  type Name = string

  /** The kinds whose operands are visited in order and nothing more. */
  datatype CompoundKind = List | EntryList | Record | Construct | FieldAccess | Unary | Propagate

  datatype Expression =
    | StringLiteral(span: Span, content: Span, secretLike: bool)
    | Atom(span: Span)
    | Template(span: Span, content: Span, secretLike: bool, holes: seq<Expression>)
    | Variable(span: Span, name: Name)
    | Compound(span: Span, kind: CompoundKind, operands: seq<Expression>)
    | BlockValue(span: Span, body: Block)
    | If(span: Span, condition: Expression, consequent: Block, alternative: Expression)
    | Lambda(span: Span, parameters: seq<Name>, body: Block)
    | Call(span: Span, callee: Expression, arguments: seq<Expression>)
    | Match(span: Span, subject: Expression, arms: seq<Expression>)
    | Binary(span: Span, left: Expression, right: Expression)

  datatype Block = Block(statements: seq<Statement>, tail: Option<Expression>)

  /** `Handler` is a function, a webhook, a queue consumer or a schedule
      handler; the last two name a resource by a literal, given by the span of
      its node and the range of its text. */
  datatype Statement =
    | Let(name: Name, value: Expression)
    | LetElse(binder: Option<Name>, value: Expression, arm: Expression)
    | Handler(name: Name, resource: Option<(Span, Span)>, parameters: seq<Name>, body: Block)
    | Evaluate(value: Expression)

  function Rest(b: Block): (rest: Block)
    requires b.statements != []
    ensures SizeBlock(b) == SizeStatement(b.statements[0]) + SizeBlock(rest)
  {
    Block(b.statements[1..], b.tail)
  }

  // ----- Sizes, for recursion

  function Size(e: Expression): nat {
    match e
    case StringLiteral(_, _, _) => 1
    case Atom(_) => 1
    case Template(_, _, _, holes) => 1 + SizeAll(holes)
    case Variable(_, _) => 1
    case Compound(_, _, operands) => 1 + SizeAll(operands)
    case BlockValue(_, body) => 1 + SizeBlock(body)
    case If(_, condition, consequent, alternative) => 1 + Size(condition) + SizeBlock(consequent) + Size(alternative)
    case Lambda(_, _, body) => 2 + SizeBlock(body)
    case Call(_, callee, arguments) => 1 + Size(callee) + SizeAll(arguments)
    case Match(_, subject, arms) => 1 + Size(subject) + SizeAll(arms)
    case Binary(_, left, right) => 1 + Size(left) + Size(right)
  }

  function SizeAll(es: seq<Expression>): nat {
    if es == [] then 0 else 1 + Size(es[0]) + SizeAll(es[1..])
  }

  function SizeBlock(b: Block): nat {
    1 + SizeStatements(b.statements) + (if b.tail.Some? then Size(b.tail.value) else 0)
  }

  function SizeStatements(ss: seq<Statement>): nat {
    if ss == [] then 0 else SizeStatement(ss[0]) + SizeStatements(ss[1..])
  }

  function SizeStatement(s: Statement): nat {
    match s
    case Let(_, value) => 2 + Size(value)
    case LetElse(_, value, arm) => 2 + Size(value) + Size(arm)
    case Handler(_, _, _, body) => 3 + SizeBlock(body)
    case Evaluate(value) => 1 + Size(value)
  }

  // ----- Spans of the nodes

  function SpansOf(e: Expression): set<Span>
    decreases Size(e)
  {
    {e.span} +
    match e
    case StringLiteral(_, _, _) => {}
    case Atom(_) => {}
    case Template(_, _, _, holes) => SpansOfAll(holes)
    case Variable(_, _) => {}
    case Compound(_, _, operands) => SpansOfAll(operands)
    case BlockValue(_, body) => SpansOfBlock(body)
    case If(_, condition, consequent, alternative) =>
      SpansOf(condition) + SpansOfBlock(consequent) + SpansOf(alternative)
    case Lambda(_, _, body) => SpansOfBlock(body)
    case Call(_, callee, arguments) => SpansOf(callee) + SpansOfAll(arguments)
    case Match(_, subject, arms) => SpansOf(subject) + SpansOfAll(arms)
    case Binary(_, left, right) => SpansOf(left) + SpansOf(right)
  }

  function SpansOfAll(es: seq<Expression>): set<Span>
    decreases SizeAll(es)
  {
    if es == [] then {} else SpansOf(es[0]) + SpansOfAll(es[1..])
  }

  function SpansOfBlock(b: Block): set<Span>
    decreases SizeBlock(b)
  {
    if b.statements == [] then (if b.tail.Some? then SpansOf(b.tail.value) else {})
    else
      var rest := Rest(b);
      SpansOfStatement(b.statements[0]) + SpansOfBlock(rest)
  }

  function SpansOfStatement(s: Statement): set<Span>
    decreases SizeStatement(s)
  {
    match s
    case Let(_, value) => SpansOf(value)
    case LetElse(_, value, arm) => SpansOf(value) + SpansOf(arm)
    case Handler(_, _, _, body) => SpansOfBlock(body)
    case Evaluate(value) => SpansOf(value)
  }

  /** No span belongs to two nodes. */
  predicate Distinct(e: Expression)
    decreases Size(e)
  {
    match e
    case StringLiteral(_, _, _) => true
    case Atom(_) => true
    case Template(_, _, _, holes) => e.span !in SpansOfAll(holes) && DistinctAll(holes)
    case Variable(_, _) => true
    case Compound(_, _, operands) => e.span !in SpansOfAll(operands) && DistinctAll(operands)
    case BlockValue(_, body) => e.span !in SpansOfBlock(body) && DistinctBlock(body)
    case If(_, condition, consequent, alternative) =>
      && e.span !in SpansOf(condition) + SpansOfBlock(consequent) + SpansOf(alternative)
      && SpansOf(condition) !! SpansOfBlock(consequent) !! SpansOf(alternative)
      && Distinct(condition) && DistinctBlock(consequent) && Distinct(alternative)
    case Lambda(_, _, body) => e.span !in SpansOfBlock(body) && DistinctBlock(body)
    case Call(_, callee, arguments) =>
      && e.span !in SpansOf(callee) + SpansOfAll(arguments) && SpansOf(callee) !! SpansOfAll(arguments)
      && Distinct(callee) && DistinctAll(arguments)
    case Match(_, subject, arms) =>
      && e.span !in SpansOf(subject) + SpansOfAll(arms) && SpansOf(subject) !! SpansOfAll(arms)
      && Distinct(subject) && DistinctAll(arms)
    case Binary(_, left, right) =>
      && e.span !in SpansOf(left) + SpansOf(right) && SpansOf(left) !! SpansOf(right)
      && Distinct(left) && Distinct(right)
  }

  predicate DistinctAll(es: seq<Expression>)
    decreases SizeAll(es)
  {
    es == [] || (SpansOf(es[0]) !! SpansOfAll(es[1..]) && Distinct(es[0]) && DistinctAll(es[1..]))
  }

  predicate DistinctBlock(b: Block)
    decreases SizeBlock(b)
  {
    if b.statements == [] then b.tail.Some? ==> Distinct(b.tail.value)
    else
      var rest := Rest(b);
      && SpansOfStatement(b.statements[0]) !! SpansOfBlock(rest)
      && DistinctStatement(b.statements[0]) && DistinctBlock(rest)
  }

  predicate DistinctStatement(s: Statement)
    decreases SizeStatement(s)
  {
    match s
    case Let(_, value) => Distinct(value)
    case LetElse(_, value, arm) => SpansOf(value) !! SpansOf(arm) && Distinct(value) && Distinct(arm)
    case Handler(_, _, _, body) => DistinctBlock(body)
    case Evaluate(value) => Distinct(value)
  }

  // ----- Nodes

  predicate IsLiteral(e: Expression) {
    e.StringLiteral? || e.Template?
  }

  /** The literal that names a resource, as a node. */
  function ResourceNode(resource: (Span, Span)): Expression {
    StringLiteral(resource.0, resource.1, false)
  }

  /** Some node of the expression, the literals that name resources included,
      passes the test. */
  predicate AnyNode(e: Expression, test: Expression -> bool)
    decreases Size(e)
  {
    || test(e)
    || match e
       case StringLiteral(_, _, _) => false
       case Atom(_) => false
       case Template(_, _, _, holes) => AnyNodeOf(holes, test)
       case Variable(_, _) => false
       case Compound(_, _, operands) => AnyNodeOf(operands, test)
       case BlockValue(_, body) => AnyNodeIn(body, test)
       case If(_, condition, consequent, alternative) =>
         AnyNode(condition, test) || AnyNodeIn(consequent, test) || AnyNode(alternative, test)
       case Lambda(_, _, body) => AnyNodeIn(body, test)
       case Call(_, callee, arguments) => AnyNode(callee, test) || AnyNodeOf(arguments, test)
       case Match(_, subject, arms) => AnyNode(subject, test) || AnyNodeOf(arms, test)
       case Binary(_, left, right) => AnyNode(left, test) || AnyNode(right, test)
  }

  predicate AnyNodeOf(es: seq<Expression>, test: Expression -> bool)
    decreases SizeAll(es)
  {
    es != [] && (AnyNode(es[0], test) || AnyNodeOf(es[1..], test))
  }

  predicate AnyNodeIn(b: Block, test: Expression -> bool)
    decreases SizeBlock(b)
  {
    if b.statements == [] then b.tail.Some? && AnyNode(b.tail.value, test)
    else
      var rest := Rest(b);
      AnyNodeAt(b.statements[0], test) || AnyNodeIn(rest, test)
  }

  predicate AnyNodeAt(s: Statement, test: Expression -> bool)
    decreases SizeStatement(s)
  {
    match s
    case Let(_, value) => AnyNode(value, test)
    case LetElse(_, value, arm) => AnyNode(value, test) || AnyNode(arm, test)
    case Handler(_, resource, _, body) =>
      (resource.Some? && test(ResourceNode(resource.value))) || AnyNodeIn(body, test)
    case Evaluate(value) => AnyNode(value, test)
  }

  lemma {:induction false} NodeOfMember(es: seq<Expression>, i: nat, test: Expression -> bool)
    requires i < |es| && !AnyNodeOf(es, test)
    ensures !AnyNode(es[i], test)
  {
    if i > 0 { NodeOfMember(es[1..], i - 1, test); }
  }
}
