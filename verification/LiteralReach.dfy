/** What a value can hold, by lexical scoping and closures, and the proof that
    the literal-flow analysis covers it
    (`crates/krit-assist/src/context.rs`). */
module LiteralReach {
  import opened Utf8
  import opened Wrappers
  import opened RedactionTargets
  import opened SourceSpans
  import opened Ast
  import opened LiteralFlow

  // ----- Reference: environments of unevaluated bindings

  /** The bindings in force, innermost first.  A bound value is the expression
      itself and a defined function its body; either means what it means in the
      environment it was declared in, which is the rest of the list. */
  datatype Env =
    | Nowhere
    | Bound(name: Name, value: Expression, outer: Env)
    | Defined(name: Name, parameters: seq<Name>, body: Block, outer: Env)
    | Hidden(names: seq<Name>, outer: Env)

  function EnvSize(env: Env): nat {
    match env
    case Nowhere => 0
    case Bound(_, value, outer) => 1 + Size(value) + EnvSize(outer)
    case Defined(_, _, body, outer) => 2 + SizeBlock(body) + EnvSize(outer)
    case Hidden(_, outer) => 1 + EnvSize(outer)
  }

  /** The environment after a statement. */
  function Around(env: Env, s: Statement): Env {
    match s
    case Let(name, value) => Bound(name, value, env)
    case LetElse(Some(name), value, _) => Bound(name, value, env)
    case Handler(name, _, parameters, body) => Defined(name, parameters, body, env)
    case _ => env
  }

  /** The same inside a value.  A function declared there contributes where it
      stands, so its name adds nothing more. */
  function Inner(env: Env, s: Statement): Env {
    if s.Handler? then Hidden([s.name], env) else Around(env, s)
  }

  /** Two readings of a name.  The lexical one is the language's.  The flat one
      looks every name up in the scopes around the whole value, past its own
      bindings, past functions, and sees a literal only if its node is delimited
      by its own quotes. */
  datatype Reading = Lexical | Flat

  function BodyEnv(reading: Reading, names: seq<Name>, env: Env): Env {
    if reading.Lexical? then Hidden(names, env) else env
  }

  function NextEnv(reading: Reading, env: Env, s: Statement): Env {
    if reading.Lexical? then Inner(env, s) else env
  }

  predicate Delimited(source: Text, e: Expression)
    requires IsLiteral(e)
  {
    TokenOf(source, e) == Some(e.content)
  }

  predicate Shows(source: Text, reading: Reading, e: Expression, b: nat)
    requires IsLiteral(e)
  {
    Inside(e.content, b) && (reading.Flat? ==> Delimited(source, e))
  }

  /** Byte `b` of the source is text of a literal from which the value of the
      expression may be made. */
  predicate Reaches(source: Text, reading: Reading, e: Expression, env: Env, b: nat)
    decreases Size(e) + EnvSize(env)
  {
    match e
    case StringLiteral(_, _, _) => Shows(source, reading, e, b)
    case Atom(_) => false
    case Template(_, _, _, holes) => Shows(source, reading, e, b) || AnyReaches(source, reading, holes, env, b)
    case Variable(_, name) => NameReaches(source, reading, env, name, b)
    case Compound(_, _, operands) => AnyReaches(source, reading, operands, env, b)
    case BlockValue(_, body) => BlockReaches(source, reading, body, env, b)
    case If(_, condition, consequent, alternative) =>
      || Reaches(source, reading, condition, env, b)
      || BlockReaches(source, reading, consequent, env, b)
      || Reaches(source, reading, alternative, env, b)
    case Lambda(_, parameters, body) => BlockReaches(source, reading, body, BodyEnv(reading, parameters, env), b)
    case Call(_, callee, arguments) =>
      Reaches(source, reading, callee, env, b) || AnyReaches(source, reading, arguments, env, b)
    case Match(_, subject, arms) =>
      Reaches(source, reading, subject, env, b) || AnyReaches(source, reading, arms, env, b)
    case Binary(_, left, right) => Reaches(source, reading, left, env, b) || Reaches(source, reading, right, env, b)
  }

  predicate AnyReaches(source: Text, reading: Reading, es: seq<Expression>, env: Env, b: nat)
    decreases SizeAll(es) + EnvSize(env)
  {
    es != [] && (Reaches(source, reading, es[0], env, b) || AnyReaches(source, reading, es[1..], env, b))
  }

  predicate BlockReaches(source: Text, reading: Reading, block: Block, env: Env, b: nat)
    decreases SizeBlock(block) + EnvSize(env)
  {
    if block.statements == [] then block.tail.Some? && Reaches(source, reading, block.tail.value, env, b)
    else
      var rest := Rest(block);
      || StatementReaches(source, reading, block.statements[0], env, b)
      || BlockReaches(source, reading, rest, NextEnv(reading, env, block.statements[0]), b)
  }

  predicate StatementReaches(source: Text, reading: Reading, s: Statement, env: Env, b: nat)
    decreases SizeStatement(s) + EnvSize(env)
  {
    match s
    case Let(_, value) => Reaches(source, reading, value, env, b)
    case LetElse(_, value, arm) => Reaches(source, reading, value, env, b) || Reaches(source, reading, arm, env, b)
    case Handler(name, _, parameters, body) =>
      BlockReaches(source, reading, body, BodyEnv(reading, [name] + parameters, env), b)
    case Evaluate(value) => Reaches(source, reading, value, env, b)
  }

  /** A function's own name is hidden in its body: what a recursive call
      contributes the body contributes already. */
  predicate NameReaches(source: Text, reading: Reading, env: Env, name: Name, b: nat)
    decreases EnvSize(env)
  {
    match env
    case Nowhere => false
    case Bound(bound, value, outer) =>
      if bound == name then Reaches(source, reading, value, outer, b) else NameReaches(source, reading, outer, name, b)
    case Defined(defined, parameters, body, outer) =>
      if defined == name && reading.Lexical?
      then BlockReaches(source, reading, body, Hidden([defined] + parameters, outer), b)
      else NameReaches(source, reading, outer, name, b)
    case Hidden(names, outer) => name !in names && NameReaches(source, reading, outer, name, b)
  }

  // ----- Which values call a function declared around them

  /** The expression mentions a function declared around it, itself or through
      the values of the names it mentions. */
  predicate Calls(e: Expression, env: Env)
    decreases Size(e) + EnvSize(env)
  {
    match e
    case StringLiteral(_, _, _) => false
    case Atom(_) => false
    case Template(_, _, _, holes) => AnyCalls(holes, env)
    case Variable(_, name) => NameCalls(env, name)
    case Compound(_, _, operands) => AnyCalls(operands, env)
    case BlockValue(_, body) => BlockCalls(body, env)
    case If(_, condition, consequent, alternative) =>
      Calls(condition, env) || BlockCalls(consequent, env) || Calls(alternative, env)
    case Lambda(_, parameters, body) => BlockCalls(body, Hidden(parameters, env))
    case Call(_, callee, arguments) => Calls(callee, env) || AnyCalls(arguments, env)
    case Match(_, subject, arms) => Calls(subject, env) || AnyCalls(arms, env)
    case Binary(_, left, right) => Calls(left, env) || Calls(right, env)
  }

  predicate AnyCalls(es: seq<Expression>, env: Env)
    decreases SizeAll(es) + EnvSize(env)
  {
    es != [] && (Calls(es[0], env) || AnyCalls(es[1..], env))
  }

  predicate BlockCalls(block: Block, env: Env)
    decreases SizeBlock(block) + EnvSize(env)
  {
    if block.statements == [] then block.tail.Some? && Calls(block.tail.value, env)
    else
      var rest := Rest(block);
      StatementCalls(block.statements[0], env) || BlockCalls(rest, Inner(env, block.statements[0]))
  }

  predicate StatementCalls(s: Statement, env: Env)
    decreases SizeStatement(s) + EnvSize(env)
  {
    match s
    case Let(_, value) => Calls(value, env)
    case LetElse(_, value, arm) => Calls(value, env) || Calls(arm, env)
    case Handler(name, _, parameters, body) => BlockCalls(body, Hidden([name] + parameters, env))
    case Evaluate(value) => Calls(value, env)
  }

  predicate NameCalls(env: Env, name: Name)
    decreases EnvSize(env)
  {
    match env
    case Nowhere => false
    case Bound(bound, value, outer) => if bound == name then Calls(value, outer) else NameCalls(outer, name)
    case Defined(defined, _, _, outer) => defined == name || NameCalls(outer, name)
    case Hidden(names, outer) => name !in names && NameCalls(outer, name)
  }

  // ----- Sensitive arguments

  /** Some sensitive argument in the expression, taken with the environment it
      stands in, passes the test. */
  predicate AnyArgument(e: Expression, env: Env, test: (Expression, Env) -> bool)
    decreases Size(e)
  {
    match e
    case StringLiteral(_, _, _) => false
    case Atom(_) => false
    case Template(_, _, _, holes) => AnyArgumentOf(holes, env, test)
    case Variable(_, _) => false
    case Compound(_, _, operands) => AnyArgumentOf(operands, env, test)
    case BlockValue(_, body) => AnyArgumentIn(body, env, test)
    case If(_, condition, consequent, alternative) =>
      || AnyArgument(condition, env, test)
      || AnyArgumentIn(consequent, env, test)
      || AnyArgument(alternative, env, test)
    case Lambda(_, parameters, body) => AnyArgumentIn(body, Hidden(parameters, env), test)
    case Call(_, callee, arguments) =>
      || AnyArgument(callee, env, test)
      || AnyArgumentOf(arguments, env, test)
      || (callee.Variable? && AnyPosition(SensitiveArguments(callee.name), arguments, env, test))
    case Match(_, subject, arms) => AnyArgument(subject, env, test) || AnyArgumentOf(arms, env, test)
    case Binary(_, left, right) => AnyArgument(left, env, test) || AnyArgument(right, env, test)
  }

  predicate AnyPosition(sensitive: seq<(nat, Category)>, arguments: seq<Expression>, env: Env,
                        test: (Expression, Env) -> bool) {
    exists i :: 0 <= i < |sensitive| && sensitive[i].0 < |arguments| && test(arguments[sensitive[i].0], env)
  }

  predicate AnyArgumentOf(es: seq<Expression>, env: Env, test: (Expression, Env) -> bool)
    decreases SizeAll(es)
  {
    es != [] && (AnyArgument(es[0], env, test) || AnyArgumentOf(es[1..], env, test))
  }

  predicate AnyArgumentIn(block: Block, env: Env, test: (Expression, Env) -> bool)
    decreases SizeBlock(block)
  {
    if block.statements == [] then block.tail.Some? && AnyArgument(block.tail.value, env, test)
    else
      var rest := Rest(block);
      || AnyArgumentAt(block.statements[0], env, test)
      || AnyArgumentIn(rest, Around(env, block.statements[0]), test)
  }

  /** The literal that names a resource is a sensitive argument too. */
  predicate AnyArgumentAt(s: Statement, env: Env, test: (Expression, Env) -> bool)
    decreases SizeStatement(s)
  {
    match s
    case Let(_, value) => AnyArgument(value, env, test)
    case LetElse(_, value, arm) => AnyArgument(value, env, test) || AnyArgument(arm, env, test)
    case Handler(_, resource, parameters, body) =>
      || (resource.Some? && test(ResourceNode(resource.value), env))
      || AnyArgumentIn(body, Hidden(parameters, Around(env, s)), test)
    case Evaluate(value) => AnyArgument(value, env, test)
  }

  /** The byte reaches the argument. */
  function ReachedBy(source: Text, b: nat): (Expression, Env) -> bool {
    (argument, env) => Reaches(source, Lexical, argument, env, b)
  }

  function CallsFunction(): (Expression, Env) -> bool {
    (argument, env) => Calls(argument, env)
  }

  /** The byte reaches the argument, which calls no function declared around it. */
  function ReachedDirectly(source: Text, b: nat): (Expression, Env) -> bool {
    (argument, env) => Reaches(source, Lexical, argument, env, b) && !Calls(argument, env)
  }

  /** The byte reaches a sensitive argument of the program. */
  predicate Exposed(source: Text, program: seq<Statement>, b: nat) {
    AnyArgumentIn(Block(program, None), Nowhere, ReachedBy(source, b))
  }

  /** Some sensitive argument of the program calls a declared function. */
  predicate CallsDeclared(program: seq<Statement>) {
    AnyArgumentIn(Block(program, None), Nowhere, CallsFunction())
  }

  /** The byte is text of a literal whose node is not its own quotes. */
  predicate Wrapped(source: Text, program: seq<Statement>, b: nat) {
    AnyNodeIn(Block(program, None), WrappedAt(source, b))
  }

  function WrappedAt(source: Text, b: nat): Expression -> bool {
    e => IsLiteral(e) && Inside(e.content, b) && !Delimited(source, e)
  }

  // ----- Collecting only grows

  predicate InContent(content: Option<Range>, b: nat) {
    content.Some? && Inside(content.value, b)
  }

  /** What a collection step promises: bounded, traceable as before, and all
      that was covered still is. */
  ghost predicate Grew(t: Targets, t': Targets) {
    && t'.Bounded() && t'.untraceable == t.untraceable
    && forall b :: Covers(t.Regions(), b) ==> Covers(t'.Regions(), b)
  }

  lemma AddContentGrows(t: Targets, content: Option<Range>)
    requires t.Bounded()
    ensures Grew(t, AddContent(t, content))
    ensures forall b: nat :: InContent(content, b) ==> Covers(AddContent(t, content).Regions(), b)
  {
    if content.Some? {
      AddSpanAbsorbs(t, content.value);
      AddSpanKeepsTrace(t, content.value);
      forall b: nat | InContent(content, b) ensures Covers(AddContent(t, content).Regions(), b) {
        CoversAt([content.value], 0, b);
      }
    }
  }

  lemma MergeGrows(t: Targets, other: Targets)
    requires t.Bounded()
    ensures Grew(t, Merge(t, other))
    ensures forall b :: Covers(other.Regions(), b) ==> Covers(Merge(t, other).Regions(), b)
  {
    MergeAbsorbs(t, other);
    MergeKeepsTrace(t, other);
  }

  lemma {:induction false} CollectGrows(source: Text, e: Expression, scopes: seq<Bindings>, t: Targets)
    requires t.Bounded()
    ensures Grew(t, Collect(source, e, scopes, t))
    decreases Size(e)
  {
    match e
    case StringLiteral(_, _, _) => AddContentGrows(t, TokenOf(source, e));
    case Atom(_) =>
    case Template(_, _, _, holes) =>
      AddContentGrows(t, TokenOf(source, e));
      CollectAllGrows(source, holes, scopes, AddContent(t, TokenOf(source, e)));
    case Variable(_, name) => if Resolve(scopes, name).Some? { MergeGrows(t, Resolve(scopes, name).value); }
    case Compound(_, _, operands) => CollectAllGrows(source, operands, scopes, t);
    case BlockValue(_, body) => CollectBlockGrows(source, body, scopes, t);
    case If(_, condition, consequent, alternative) =>
      CollectGrows(source, condition, scopes, t);
      var u := Collect(source, condition, scopes, t);
      CollectBlockGrows(source, consequent, scopes, u);
      CollectGrows(source, alternative, scopes, CollectBlock(source, consequent, scopes, u));
    case Lambda(_, _, body) => CollectBlockGrows(source, body, scopes, t);
    case Call(_, callee, arguments) =>
      CollectGrows(source, callee, scopes, t);
      CollectAllGrows(source, arguments, scopes, Collect(source, callee, scopes, t));
    case Match(_, subject, arms) =>
      CollectGrows(source, subject, scopes, t);
      CollectAllGrows(source, arms, scopes, Collect(source, subject, scopes, t));
    case Binary(_, left, right) =>
      CollectGrows(source, left, scopes, t);
      CollectGrows(source, right, scopes, Collect(source, left, scopes, t));
  }

  lemma {:induction false} CollectAllGrows(source: Text, es: seq<Expression>, scopes: seq<Bindings>, t: Targets)
    requires t.Bounded()
    ensures Grew(t, CollectAll(source, es, scopes, t))
    decreases SizeAll(es)
  {
    if es != [] {
      CollectGrows(source, es[0], scopes, t);
      CollectAllGrows(source, es[1..], scopes, Collect(source, es[0], scopes, t));
    }
  }

  lemma {:induction false} CollectBlockGrows(source: Text, b: Block, scopes: seq<Bindings>, t: Targets)
    requires t.Bounded()
    ensures Grew(t, CollectBlock(source, b, scopes, t))
    decreases SizeBlock(b)
  {
    if b.statements != [] {
      var rest := Rest(b);
      CollectStatementGrows(source, b.statements[0], scopes, t);
      CollectBlockGrows(source, rest, scopes, CollectStatement(source, b.statements[0], scopes, t));
    } else if b.tail.Some? {
      CollectGrows(source, b.tail.value, scopes, t);
    }
  }

  lemma {:induction false} CollectStatementGrows(source: Text, s: Statement, scopes: seq<Bindings>, t: Targets)
    requires t.Bounded()
    ensures Grew(t, CollectStatement(source, s, scopes, t))
    decreases SizeStatement(s)
  {
    match s
    case Let(_, value) => CollectGrows(source, value, scopes, t);
    case LetElse(_, value, arm) =>
      CollectGrows(source, value, scopes, t);
      CollectGrows(source, arm, scopes, Collect(source, value, scopes, t));
    case Handler(_, _, _, body) => CollectBlockGrows(source, body, scopes, t);
    case Evaluate(value) => CollectGrows(source, value, scopes, t);
  }

  // ----- Collecting covers what is reached

  predicate NameCovers(scopes: seq<Bindings>, name: Name, b: nat) {
    var bound := Resolve(scopes, name);
    bound.Some? && Covers(bound.value.Regions(), b)
  }

  /** The scopes know everything the environment lets a name reach without
      calling a function. */
  ghost predicate Knows(source: Text, scopes: seq<Bindings>, env: Env, b: nat) {
    forall name :: NameReaches(source, Lexical, env, name, b) && !NameCalls(env, name) ==> NameCovers(scopes, name, b)
  }

  lemma HidingIsKnown(source: Text, scopes: seq<Bindings>, names: seq<Name>, env: Env, b: nat)
    requires Knows(source, scopes, env, b)
    ensures Knows(source, scopes, Hidden(names, env), b)
  {
  }

  /** A statement inside a collected block binds nothing the collection misses:
      if the byte is not reached by the statement, it is not reached by its name. */
  lemma InnerIsKnown(source: Text, scopes: seq<Bindings>, s: Statement, env: Env, b: nat)
    requires Knows(source, scopes, env, b) && !StatementReaches(source, Lexical, s, env, b)
    ensures Knows(source, scopes, Inner(env, s), b)
  {
  }

  lemma {:induction false} CollectCovers(source: Text, e: Expression, scopes: seq<Bindings>, env: Env, t: Targets,
                                         b: nat)
    requires t.Bounded() && Knows(source, scopes, env, b)
    requires Reaches(source, Lexical, e, env, b) && !Calls(e, env) && !AnyNode(e, WrappedAt(source, b))
    ensures Covers(Collect(source, e, scopes, t).Regions(), b)
    decreases Size(e), 0
  {
    match e
    case StringLiteral(_, _, _) => AddContentGrows(t, TokenOf(source, e));
    case Template(_, _, _, holes) =>
      var token := TokenOf(source, e);
      AddContentGrows(t, token);
      CollectAllGrows(source, holes, scopes, AddContent(t, token));
      if !InContent(token, b) {
        CollectAllCovers(source, holes, scopes, env, AddContent(t, token), b);
      }
    case Variable(_, name) =>
      assert NameCovers(scopes, name, b);
      MergeGrows(t, Resolve(scopes, name).value);
    case Compound(_, _, operands) => CollectAllCovers(source, operands, scopes, env, t, b);
    case BlockValue(_, body) => CollectBlockCovers(source, body, scopes, env, t, b);
    case If(_, condition, consequent, alternative) =>
      var u := Collect(source, condition, scopes, t);
      CollectGrows(source, condition, scopes, t);
      var v := CollectBlock(source, consequent, scopes, u);
      CollectBlockGrows(source, consequent, scopes, u);
      CollectGrows(source, alternative, scopes, v);
      if Reaches(source, Lexical, condition, env, b) {
        CollectCovers(source, condition, scopes, env, t, b);
      } else if BlockReaches(source, Lexical, consequent, env, b) {
        CollectBlockCovers(source, consequent, scopes, env, u, b);
      } else {
        CollectCovers(source, alternative, scopes, env, v, b);
      }
    case Lambda(_, parameters, body) =>
      HidingIsKnown(source, scopes, parameters, env, b);
      CollectBlockCovers(source, body, scopes, Hidden(parameters, env), t, b);
    case Call(_, callee, arguments) => CollectTwoCovers(source, callee, arguments, scopes, env, t, b);
    case Match(_, subject, arms) => CollectTwoCovers(source, subject, arms, scopes, env, t, b);
    case Binary(_, left, right) =>
      var u := Collect(source, left, scopes, t);
      CollectGrows(source, left, scopes, t);
      CollectGrows(source, right, scopes, u);
      if Reaches(source, Lexical, left, env, b) {
        CollectCovers(source, left, scopes, env, t, b);
      } else {
        CollectCovers(source, right, scopes, env, u, b);
      }
  }

  lemma {:induction false} CollectTwoCovers(source: Text, e: Expression, es: seq<Expression>, scopes: seq<Bindings>,
                                            env: Env, t: Targets, b: nat)
    requires t.Bounded() && Knows(source, scopes, env, b)
    requires Reaches(source, Lexical, e, env, b) || AnyReaches(source, Lexical, es, env, b)
    requires !Calls(e, env) && !AnyCalls(es, env)
    requires !AnyNode(e, WrappedAt(source, b)) && !AnyNodeOf(es, WrappedAt(source, b))
    ensures Covers(CollectAll(source, es, scopes, Collect(source, e, scopes, t)).Regions(), b)
    decreases Size(e) + SizeAll(es), 1
  {
    var u := Collect(source, e, scopes, t);
    CollectGrows(source, e, scopes, t);
    CollectAllGrows(source, es, scopes, u);
    if Reaches(source, Lexical, e, env, b) {
      CollectCovers(source, e, scopes, env, t, b);
    } else {
      CollectAllCovers(source, es, scopes, env, u, b);
    }
  }

  lemma {:induction false} CollectAllCovers(source: Text, es: seq<Expression>, scopes: seq<Bindings>, env: Env,
                                            t: Targets, b: nat)
    requires t.Bounded() && Knows(source, scopes, env, b)
    requires AnyReaches(source, Lexical, es, env, b) && !AnyCalls(es, env) && !AnyNodeOf(es, WrappedAt(source, b))
    ensures Covers(CollectAll(source, es, scopes, t).Regions(), b)
    decreases SizeAll(es), 0
  {
    CollectTwoCovers(source, es[0], es[1..], scopes, env, t, b);
  }

  lemma {:induction false} CollectBlockCovers(source: Text, block: Block, scopes: seq<Bindings>, env: Env, t: Targets,
                                              b: nat)
    requires t.Bounded() && Knows(source, scopes, env, b)
    requires BlockReaches(source, Lexical, block, env, b) && !BlockCalls(block, env)
    requires !AnyNodeIn(block, WrappedAt(source, b))
    ensures Covers(CollectBlock(source, block, scopes, t).Regions(), b)
    decreases SizeBlock(block), 0
  {
    if block.statements == [] {
      CollectCovers(source, block.tail.value, scopes, env, t, b);
    } else {
      var rest, head := Rest(block), block.statements[0];
      var u := CollectStatement(source, head, scopes, t);
      CollectStatementGrows(source, head, scopes, t);
      CollectBlockGrows(source, rest, scopes, u);
      if StatementReaches(source, Lexical, head, env, b) {
        CollectStatementCovers(source, head, scopes, env, t, b);
      } else {
        InnerIsKnown(source, scopes, head, env, b);
        CollectBlockCovers(source, rest, scopes, Inner(env, head), u, b);
      }
    }
  }

  lemma {:induction false} CollectStatementCovers(source: Text, s: Statement, scopes: seq<Bindings>, env: Env,
                                                  t: Targets, b: nat)
    requires t.Bounded() && Knows(source, scopes, env, b)
    requires StatementReaches(source, Lexical, s, env, b) && !StatementCalls(s, env)
    requires !AnyNodeAt(s, WrappedAt(source, b))
    ensures Covers(CollectStatement(source, s, scopes, t).Regions(), b)
    decreases SizeStatement(s), 0
  {
    match s
    case Let(_, value) => CollectCovers(source, value, scopes, env, t, b);
    case LetElse(_, value, arm) =>
      var u := Collect(source, value, scopes, t);
      CollectGrows(source, value, scopes, t);
      CollectGrows(source, arm, scopes, u);
      if Reaches(source, Lexical, value, env, b) {
        CollectCovers(source, value, scopes, env, t, b);
      } else {
        CollectCovers(source, arm, scopes, env, u, b);
      }
    case Handler(name, _, parameters, body) =>
      HidingIsKnown(source, scopes, [name] + parameters, env, b);
      CollectBlockCovers(source, body, scopes, Hidden([name] + parameters, env), t, b);
    case Evaluate(value) => CollectCovers(source, value, scopes, env, t, b);
  }

  /** A snapshot is bounded and traceable, and covers every byte its expression
      reaches, unless the expression calls a function declared around it or the
      byte is in a wrapped literal. */
  lemma SnapshotCovers(source: Text, e: Expression, scopes: seq<Bindings>, env: Env, b: nat)
    requires Knows(source, scopes, env, b)
    ensures var snapshot := Snapshot(source, e, scopes);
            && snapshot.Bounded() && !snapshot.untraceable
            && (Reaches(source, Lexical, e, env, b) && !Calls(e, env) && !AnyNode(e, WrappedAt(source, b)) ==>
                  Covers(snapshot.Regions(), b))
  {
    var t := Collect(source, e, scopes, NOTHING);
    CollectGrows(source, e, scopes, NOTHING);
    if Reaches(source, Lexical, e, env, b) && !Calls(e, env) && !AnyNode(e, WrappedAt(source, b)) {
      CollectCovers(source, e, scopes, env, NOTHING, b);
    }
    var range := CharRange(source, e.span.0, e.span.1);
    if t.overflowed && range.Some? {
      AddRangeAbsorbs(t, range.value);
    }
  }

  // ----- The walk marks what is exposed

  predicate Marked(marks: Marks, b: nat) {
    exists r :: r in marks && Inside(r, b)
  }

  lemma {:induction false} MarkAllMarks(marks: Marks, regions: seq<Range>, category: Category)
    ensures var after := MarkAll(marks, regions, category);
            && after.Keys == marks.Keys + (set r | r in regions)
    decreases |regions|
  {
    if regions != [] {
      MarkAllMarks(marks[regions[0] := category], regions[1..], category);
      assert (set r | r in regions) == {regions[0]} + (set r | r in regions[1..]);
    }
  }

  lemma MarkedAll(marks: Marks, regions: seq<Range>, category: Category, b: nat)
    ensures var after := MarkAll(marks, regions, category);
            && marks.Keys <= after.Keys
            && (Marked(after, b) <==> Marked(marks, b) || Covers(regions, b))
  {
    var after := MarkAll(marks, regions, category);
    MarkAllMarks(marks, regions, category);
    if Marked(after, b) {
      var r :| r in after && Inside(r, b);
      if r !in marks {
        var i :| 0 <= i < |regions| && regions[i] == r;
        CoversAt(regions, i, b);
      }
    }
    if Covers(regions, b) {
      var i :| 0 <= i < |regions| && Inside(regions[i], b);
      assert regions[i] in after;
    }
  }

  lemma {:induction false} MarkArgumentsMarks(source: Text, arguments: seq<Expression>, scopes: seq<Bindings>, env: Env,
                                              sensitive: seq<(nat, Category)>, marks: Marks, b: nat)
    requires Knows(source, scopes, env, b) && !AnyNodeOf(arguments, WrappedAt(source, b))
    ensures var after := MarkArguments(source, arguments, scopes, sensitive, marks);
            && marks.Keys <= after.Keys
            && (AnyPosition(sensitive, arguments, env, ReachedDirectly(source, b)) ==> Marked(after, b))
    decreases |sensitive|
  {
    if sensitive != [] {
      var (index, category) := sensitive[0];
      var rest := sensitive[1..];
      var next := marks;
      if index < |arguments| {
        var regions := Snapshot(source, arguments[index], scopes).Regions();
        next := MarkAll(marks, regions, category);
        MarkedAll(marks, regions, category, b);
        SnapshotCovers(source, arguments[index], scopes, env, b);
        NodeOfMember(arguments, index, WrappedAt(source, b));
        assert ReachedDirectly(source, b)(arguments[index], env) ==> Marked(next, b);
      }
      MarkArgumentsMarks(source, arguments, scopes, env, rest, next, b);
      if i :| 0 <= i < |sensitive| && sensitive[i].0 < |arguments|
              && ReachedDirectly(source, b)(arguments[sensitive[i].0], env) {
        assert i > 0 ==> sensitive[i] == rest[i - 1];
      }
    }
  }

  lemma MoreMarks(marks: Marks, after: Marks, b: nat)
    requires marks.Keys <= after.Keys && Marked(marks, b)
    ensures Marked(after, b)
  {
  }

  /** A scope that binds nothing, or only hides, is known under the same names. */
  lemma InnerScopeKnows(source: Text, scopes: seq<Bindings>, parameters: seq<Name>, env: Env, b: nat)
    requires Knows(source, scopes, env, b)
    ensures Knows(source, scopes + [map[]], env, b)
    ensures Knows(source, scopes + [Opaque(parameters)] + [map[]], Hidden(parameters, env), b)
  {
    forall name | NameReaches(source, Lexical, env, name, b) && !NameCalls(env, name)
      ensures NameCovers(scopes + [map[]], name, b)
    {
      ResolveInner(scopes, map[], name);
    }
    var hidden, inner := Hidden(parameters, env), scopes + [Opaque(parameters)];
    forall name | NameReaches(source, Lexical, hidden, name, b) && !NameCalls(hidden, name)
      ensures NameCovers(inner + [map[]], name, b)
    {
      assert NameReaches(source, Lexical, env, name, b) && !NameCalls(env, name);
      assert NameCovers(scopes, name, b);
      ResolveInner(scopes, Opaque(parameters), name);
      ResolveInner(inner, map[], name);
    }
  }

  lemma ResolveInner(scopes: seq<Bindings>, frame: Bindings, name: Name)
    requires name !in frame
    ensures Resolve(scopes + [frame], name) == Resolve(scopes, name)
  {
    assert (scopes + [frame])[..|scopes|] == scopes;
  }

  /** Declaring keeps the scopes and the environment in step. */
  lemma DeclareKnows(source: Text, scopes: seq<Bindings>, s: Statement, env: Env, b: nat)
    requires scopes != [] && Knows(source, scopes, env, b) && !AnyNodeAt(s, WrappedAt(source, b))
    ensures Knows(source, Declare(source, s, scopes), Around(env, s), b)
  {
    var declared := Declare(source, s, scopes);
    if s.Let? || (s.LetElse? && s.binder.Some?) {
      var bound := if s.Let? then s.name else s.binder.value;
      SnapshotCovers(source, s.value, scopes, env, b);
      forall name | NameReaches(source, Lexical, Around(env, s), name, b) && !NameCalls(Around(env, s), name)
        ensures NameCovers(declared, name, b)
      {
        if name != bound {
          assert NameCovers(scopes, name, b);
        }
      }
    }
  }

  /** What one step of the walk promises about a byte. */
  predicate Advances(marks: Marks, after: Marks, exposed: bool, b: nat) {
    marks.Keys <= after.Keys && (exposed ==> Marked(after, b))
  }

  lemma AdvanceTwice(a: Marks, c: Marks, d: Marks, first: bool, second: bool, b: nat)
    requires Advances(a, c, first, b) && Advances(c, d, second, b)
    ensures Advances(a, d, first || second, b)
  {
    if first { MoreMarks(c, d, b); }
  }

  lemma {:induction false} MarkCovers(source: Text, e: Expression, scopes: seq<Bindings>, env: Env, marks: Marks,
                                      b: nat)
    requires Knows(source, scopes, env, b) && !AnyNode(e, WrappedAt(source, b))
    ensures Advances(marks, Mark(source, e, scopes, marks), AnyArgument(e, env, ReachedDirectly(source, b)), b)
    decreases Size(e), 0
  {
    var test := ReachedDirectly(source, b);
    InnerScopeKnows(source, scopes, if e.Lambda? then e.parameters else [], env, b);
    match e
    case StringLiteral(_, _, _) =>
    case Atom(_) =>
    case Template(_, _, secretLike, holes) =>
      MarkEachCovers(source, holes, scopes, env, MarkSecretLike(marks, secretLike, TokenOf(source, e)), b);
    case Variable(_, _) =>
    case Compound(_, _, operands) => MarkEachCovers(source, operands, scopes, env, marks, b);
    case BlockValue(_, body) => MarkBlockCovers(source, body, scopes + [map[]], env, marks, b);
    case If(_, condition, consequent, alternative) =>
      var m := Mark(source, condition, scopes, marks);
      var n := MarkBlock(source, consequent, scopes + [map[]], m);
      MarkCovers(source, condition, scopes, env, marks, b);
      MarkBlockCovers(source, consequent, scopes + [map[]], env, m, b);
      MarkCovers(source, alternative, scopes, env, n, b);
      AdvanceTwice(marks, m, n, AnyArgument(condition, env, test), AnyArgumentIn(consequent, env, test), b);
      AdvanceTwice(marks, n, Mark(source, alternative, scopes, n),
                   AnyArgument(condition, env, test) || AnyArgumentIn(consequent, env, test),
                   AnyArgument(alternative, env, test), b);
    case Lambda(_, parameters, body) =>
      MarkBlockCovers(source, body, scopes + [Opaque(parameters)] + [map[]], Hidden(parameters, env), marks, b);
    case Call(_, callee, arguments) =>
      MarkTwoCovers(source, callee, arguments, scopes, env, marks, b);
      if callee.Variable? {
        var children := MarkEach(source, arguments, scopes, Mark(source, callee, scopes, marks));
        MarkArgumentsMarks(source, arguments, scopes, env, SensitiveArguments(callee.name), children, b);
        AdvanceTwice(marks, children, Mark(source, e, scopes, marks),
                     AnyArgument(callee, env, test) || AnyArgumentOf(arguments, env, test),
                     AnyPosition(SensitiveArguments(callee.name), arguments, env, test), b);
      }
    case Match(_, subject, arms) => MarkTwoCovers(source, subject, arms, scopes, env, marks, b);
    case Binary(_, left, right) =>
      var m := Mark(source, left, scopes, marks);
      MarkCovers(source, left, scopes, env, marks, b);
      MarkCovers(source, right, scopes, env, m, b);
      AdvanceTwice(marks, m, Mark(source, right, scopes, m), AnyArgument(left, env, test),
                   AnyArgument(right, env, test), b);
  }

  lemma {:induction false} MarkTwoCovers(source: Text, e: Expression, es: seq<Expression>, scopes: seq<Bindings>,
                                         env: Env, marks: Marks, b: nat)
    requires Knows(source, scopes, env, b)
    requires !AnyNode(e, WrappedAt(source, b)) && !AnyNodeOf(es, WrappedAt(source, b))
    ensures Advances(marks, MarkEach(source, es, scopes, Mark(source, e, scopes, marks)),
                     AnyArgument(e, env, ReachedDirectly(source, b)) ||
                     AnyArgumentOf(es, env, ReachedDirectly(source, b)), b)
    decreases Size(e) + SizeAll(es), 1
  {
    var m, test := Mark(source, e, scopes, marks), ReachedDirectly(source, b);
    MarkCovers(source, e, scopes, env, marks, b);
    MarkEachCovers(source, es, scopes, env, m, b);
    AdvanceTwice(marks, m, MarkEach(source, es, scopes, m), AnyArgument(e, env, test), AnyArgumentOf(es, env, test), b);
  }

  lemma {:induction false} MarkEachCovers(source: Text, es: seq<Expression>, scopes: seq<Bindings>, env: Env,
                                          marks: Marks, b: nat)
    requires Knows(source, scopes, env, b) && !AnyNodeOf(es, WrappedAt(source, b))
    ensures Advances(marks, MarkEach(source, es, scopes, marks), AnyArgumentOf(es, env, ReachedDirectly(source, b)), b)
    decreases SizeAll(es), 0
  {
    if es != [] {
      MarkTwoCovers(source, es[0], es[1..], scopes, env, marks, b);
    }
  }

  lemma {:induction false} MarkBlockCovers(source: Text, block: Block, scopes: seq<Bindings>, env: Env, marks: Marks,
                                           b: nat)
    requires scopes != [] && Knows(source, scopes, env, b) && !AnyNodeIn(block, WrappedAt(source, b))
    ensures Advances(marks, MarkBlock(source, block, scopes, marks),
                     AnyArgumentIn(block, env, ReachedDirectly(source, b)), b)
    decreases SizeBlock(block), 0
  {
    if block.statements == [] {
      if block.tail.Some? { MarkCovers(source, block.tail.value, scopes, env, marks, b); }
    } else {
      var rest, head, test := Rest(block), block.statements[0], ReachedDirectly(source, b);
      var m := MarkStatement(source, head, scopes, marks);
      var declared := Declare(source, head, scopes);
      MarkStatementCovers(source, head, scopes, env, marks, b);
      DeclareKnows(source, scopes, head, env, b);
      MarkBlockCovers(source, rest, declared, Around(env, head), m, b);
      AdvanceTwice(marks, m, MarkBlock(source, rest, declared, m), AnyArgumentAt(head, env, test),
                   AnyArgumentIn(rest, Around(env, head), test), b);
    }
  }

  lemma {:induction false} MarkStatementCovers(source: Text, s: Statement, scopes: seq<Bindings>, env: Env,
                                               marks: Marks, b: nat)
    requires scopes != [] && Knows(source, scopes, env, b) && !AnyNodeAt(s, WrappedAt(source, b))
    ensures Advances(marks, MarkStatement(source, s, scopes, marks),
                     AnyArgumentAt(s, env, ReachedDirectly(source, b)), b)
    decreases SizeStatement(s), 0
  {
    var test := ReachedDirectly(source, b);
    match s
    case Let(_, value) => MarkCovers(source, value, scopes, env, marks, b);
    case LetElse(_, value, arm) =>
      var m := Mark(source, value, scopes, marks);
      MarkCovers(source, value, scopes, env, marks, b);
      MarkCovers(source, arm, scopes, env, m, b);
      AdvanceTwice(marks, m, Mark(source, arm, scopes, m), AnyArgument(value, env, test),
                   AnyArgument(arm, env, test), b);
    case Handler(_, resource, parameters, body) =>
      var m := MarkResource(source, resource, marks);
      var named := resource.Some? && test(ResourceNode(resource.value), env);
      assert Advances(marks, m, named, b);
      DeclareKnows(source, scopes, s, env, b);
      InnerScopeKnows(source, scopes, parameters, Around(env, s), b);
      var inner := scopes + [Opaque(parameters)] + [map[]];
      MarkBlockCovers(source, body, inner, Hidden(parameters, Around(env, s)), m, b);
      AdvanceTwice(marks, m, MarkBlock(source, body, inner, m), named,
                   AnyArgumentIn(body, Hidden(parameters, Around(env, s)), test), b);
    case Evaluate(value) => MarkCovers(source, value, scopes, env, marks, b);
  }

  // ----- Categories

  lemma {:induction false} MarkAllCategory(marks: Marks, regions: seq<Range>, category: Category, r: Range)
    ensures var after := MarkAll(marks, regions, category);
            if r in regions then r in after && after[r] == category
            else (r in after <==> r in marks) && (r in marks ==> after[r] == marks[r])
    decreases |regions|
  {
    if regions != [] { MarkAllCategory(marks[regions[0] := category], regions[1..], category, r); }
  }

  /** The regions one sensitive position of a call contributes. */
  function PositionRegions(source: Text, arguments: seq<Expression>, scopes: seq<Bindings>,
                           position: (nat, Category)): seq<Range> {
    if position.0 < |arguments| then Snapshot(source, arguments[position.0], scopes).Regions() else []
  }

  lemma {:induction false} MarkArgumentsCategory(source: Text, arguments: seq<Expression>, scopes: seq<Bindings>,
                                                 sensitive: seq<(nat, Category)>, marks: Marks, i: int, r: Range)
    requires -1 <= i < |sensitive|
    requires i >= 0 ==> r in PositionRegions(source, arguments, scopes, sensitive[i])
    requires i < 0 ==> r in marks
    requires forall j :: i < j < |sensitive| ==> r !in PositionRegions(source, arguments, scopes, sensitive[j])
    ensures var after := MarkArguments(source, arguments, scopes, sensitive, marks);
            r in after && after[r] == if i >= 0 then sensitive[i].1 else marks[r]
    decreases |sensitive|
  {
    if sensitive != [] {
      var regions := PositionRegions(source, arguments, scopes, sensitive[0]);
      var next := MarkAll(marks, regions, sensitive[0].1);
      MarkAllCategory(marks, regions, sensitive[0].1, r);
      MarkArgumentsCategory(source, arguments, scopes, sensitive[1..], next, if i >= 0 then i - 1 else -1, r);
    }
  }

  /** A call's own categories are applied on top of what its operands marked:
      a region has the category of the last sensitive position it contributes
      to. */
  lemma OwnCategoryWins(source: Text, e: Expression, scopes: seq<Bindings>, marks: Marks, i: nat, r: Range)
    requires e.Call? && e.callee.Variable? && i < |SensitiveArguments(e.callee.name)|
    requires r in PositionRegions(source, e.arguments, scopes, SensitiveArguments(e.callee.name)[i])
    requires forall j :: i < j < |SensitiveArguments(e.callee.name)| ==>
               r !in PositionRegions(source, e.arguments, scopes, SensitiveArguments(e.callee.name)[j])
    ensures var after := Mark(source, e, scopes, marks);
            r in after && after[r] == SensitiveArguments(e.callee.name)[i].1
  {
    var children := MarkEach(source, e.arguments, scopes, Mark(source, e.callee, scopes, marks));
    MarkArgumentsCategory(source, e.arguments, scopes, SensitiveArguments(e.callee.name), children, i, r);
  }

  // ----- Soundness

  /** In every program, every byte that reaches a sensitive argument which calls
      no declared function is marked, unless it is text of a
      literal whose node is not its own quotes. */
  lemma EveryExposedByteIsMarked(source: Text, program: seq<Statement>, b: nat)
    requires AnyArgumentIn(Block(program, None), Nowhere, ReachedDirectly(source, b)) && !Wrapped(source, program, b)
    ensures Marked(SensitiveSpans(source, program), b)
  {
    MarkBlockCovers(source, Block(program, None), [map[]], Nowhere, map[], b);
  }

  /** So a program whose sensitive arguments call no declared function leaks
      nothing but the text of wrapped literals. */
  lemma WithoutCallsAllIsMarked(source: Text, program: seq<Statement>, b: nat)
    requires !CallsDeclared(program) && Exposed(source, program, b) && !Wrapped(source, program, b)
    ensures Marked(SensitiveSpans(source, program), b)
  {
    SomeArgumentIn(Block(program, None), Nowhere, ReachedBy(source, b), CallsFunction(), ReachedDirectly(source, b));
    EveryExposedByteIsMarked(source, program, b);
  }

  /** Every argument that passes one test fails a second or passes a third. */
  ghost predicate Splits(first: (Expression, Env) -> bool, second: (Expression, Env) -> bool,
                         third: (Expression, Env) -> bool) {
    forall e, env :: first(e, env) ==> second(e, env) || third(e, env)
  }

  lemma {:induction false} SomeArgument(e: Expression, env: Env, first: (Expression, Env) -> bool,
                                        second: (Expression, Env) -> bool, third: (Expression, Env) -> bool)
    requires Splits(first, second, third) && AnyArgument(e, env, first) && !AnyArgument(e, env, second)
    ensures AnyArgument(e, env, third)
    decreases Size(e), 0
  {
    match e
    case Template(_, _, _, holes) => SomeArgumentOf(holes, env, first, second, third);
    case Compound(_, _, operands) => SomeArgumentOf(operands, env, first, second, third);
    case BlockValue(_, body) => SomeArgumentIn(body, env, first, second, third);
    case If(_, condition, consequent, alternative) =>
      if AnyArgument(condition, env, first) {
        SomeArgument(condition, env, first, second, third);
      } else if AnyArgumentIn(consequent, env, first) {
        SomeArgumentIn(consequent, env, first, second, third);
      } else {
        SomeArgument(alternative, env, first, second, third);
      }
    case Lambda(_, parameters, body) => SomeArgumentIn(body, Hidden(parameters, env), first, second, third);
    case Call(_, callee, arguments) =>
      if AnyArgument(callee, env, first) {
        SomeArgument(callee, env, first, second, third);
      } else if AnyArgumentOf(arguments, env, first) {
        SomeArgumentOf(arguments, env, first, second, third);
      }
    case Match(_, subject, arms) =>
      if AnyArgument(subject, env, first) {
        SomeArgument(subject, env, first, second, third);
      } else {
        SomeArgumentOf(arms, env, first, second, third);
      }
    case Binary(_, left, right) =>
      if AnyArgument(left, env, first) {
        SomeArgument(left, env, first, second, third);
      } else {
        SomeArgument(right, env, first, second, third);
      }
  }

  lemma {:induction false} SomeArgumentOf(es: seq<Expression>, env: Env, first: (Expression, Env) -> bool,
                                          second: (Expression, Env) -> bool, third: (Expression, Env) -> bool)
    requires Splits(first, second, third) && AnyArgumentOf(es, env, first) && !AnyArgumentOf(es, env, second)
    ensures AnyArgumentOf(es, env, third)
    decreases SizeAll(es), 0
  {
    if AnyArgument(es[0], env, first) {
      SomeArgument(es[0], env, first, second, third);
    } else {
      SomeArgumentOf(es[1..], env, first, second, third);
    }
  }

  lemma {:induction false} SomeArgumentIn(block: Block, env: Env, first: (Expression, Env) -> bool,
                                          second: (Expression, Env) -> bool, third: (Expression, Env) -> bool)
    requires Splits(first, second, third) && AnyArgumentIn(block, env, first) && !AnyArgumentIn(block, env, second)
    ensures AnyArgumentIn(block, env, third)
    decreases SizeBlock(block), 0
  {
    if block.statements == [] {
      SomeArgument(block.tail.value, env, first, second, third);
    } else {
      var rest, head := Rest(block), block.statements[0];
      if AnyArgumentAt(head, env, first) {
        SomeArgumentAt(head, env, first, second, third);
      } else {
        SomeArgumentIn(rest, Around(env, head), first, second, third);
      }
    }
  }

  lemma {:induction false} SomeArgumentAt(s: Statement, env: Env, first: (Expression, Env) -> bool,
                                          second: (Expression, Env) -> bool, third: (Expression, Env) -> bool)
    requires Splits(first, second, third) && AnyArgumentAt(s, env, first) && !AnyArgumentAt(s, env, second)
    ensures AnyArgumentAt(s, env, third)
    decreases SizeStatement(s), 0
  {
    match s
    case Let(_, value) => SomeArgument(value, env, first, second, third);
    case LetElse(_, value, arm) =>
      if AnyArgument(value, env, first) {
        SomeArgument(value, env, first, second, third);
      } else {
        SomeArgument(arm, env, first, second, third);
      }
    case Handler(_, resource, parameters, body) =>
      if AnyArgumentIn(body, Hidden(parameters, Around(env, s)), first) {
        SomeArgumentIn(body, Hidden(parameters, Around(env, s)), first, second, third);
      }
    case Evaluate(value) => SomeArgument(value, env, first, second, third);
  }

  /** The scopes after the statements. */
  function DeclareEvery(source: Text, ss: seq<Statement>, scopes: seq<Bindings>): (declared: seq<Bindings>)
    requires scopes != []
    ensures |declared| == |scopes|
  {
    if ss == [] then scopes else DeclareEvery(source, ss[1..], Declare(source, ss[0], scopes))
  }

  predicate Declares(s: Statement, name: Name) {
    (s.Let? && s.name == name) || (s.LetElse? && s.binder == Some(name))
  }

  lemma {:induction false} ShadowingNeverRetargets(source: Text, ss: seq<Statement>, scopes: seq<Bindings>, name: Name)
    requires scopes != [] && forall i :: 0 <= i < |ss| ==> !Declares(ss[i], name)
    ensures Resolve(DeclareEvery(source, ss, scopes), name) == Resolve(scopes, name)
    decreases |ss|
  {
    if ss != [] {
      ShadowingNeverRetargets(source, ss[1..], Declare(source, ss[0], scopes), name);
    }
  }
}
