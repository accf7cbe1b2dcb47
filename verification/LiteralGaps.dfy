/** What the literal-flow analysis misses: two programs that expose a literal no
    emitted span covers (`crates/krit-assist/src/context.rs`). */
module LiteralGaps {
  import opened Utf8
  import opened Wrappers
  import opened SourceSpans
  import opened Ast
  import opened LiteralFlow
  import opened LiteralReach

  /** A call of `secret`, whose first argument is sensitive. */
  function Secret(argument: Expression): Expression {
    Call((0, 0), Variable((0, 0), "secret"), [argument])
  }

  lemma OneStatement(s: Statement, env: Env, argument: (Expression, Env) -> bool, node: Expression -> bool)
    ensures AnyArgumentIn(Block([s], None), env, argument) <==> AnyArgumentAt(s, env, argument)
    ensures AnyNodeIn(Block([s], None), node) <==> AnyNodeAt(s, node)
  {
    assert Rest(Block([s], None)) == Block([], None);
  }

  lemma OneStatementMarks(source: Text, s: Statement, scopes: seq<Bindings>, marks: Marks)
    requires scopes != []
    ensures MarkBlock(source, Block([s], None), scopes, marks) == MarkStatement(source, s, scopes, marks)
  {
    assert Rest(Block([s], None)) == Block([], None);
  }

  lemma SecretArgument(argument: Expression, env: Env, test: (Expression, Env) -> bool, node: Expression -> bool)
    ensures AnyArgument(Secret(argument), env, test) <==> AnyArgument(argument, env, test) || test(argument, env)
    ensures AnyNode(argument, node) ==> AnyNode(Secret(argument), node)
    ensures AnyNode(Secret(argument), node) ==>
              AnyNode(argument, node) || node(Secret(argument)) || node(Variable((0, 0), "secret"))
  {
    var e := Secret(argument);
    var sensitive := SensitiveArguments("secret");
    assert sensitive == [(0, CapabilityResource)] && [argument][1..] == [];
    assert AnyPosition(sensitive, [argument], env, test) <==> test(argument, env) by {
      if test(argument, env) { assert sensitive[0].0 < |[argument]|; }
    }
    assert AnyArgumentOf([argument], env, test) <==> AnyArgument(argument, env, test);
    assert AnyNodeOf([argument], node) <==> AnyNode(argument, node);
    assert AnyNode(e.callee, node) <==> node(e.callee);
  }

  lemma SecretMarks(source: Text, argument: Expression, scopes: seq<Bindings>, marks: Marks)
    requires Snapshot(source, argument, scopes).Regions() == []
    ensures Mark(source, Secret(argument), scopes, marks) == Mark(source, argument, scopes, marks)
  {
    var sensitive := SensitiveArguments("secret");
    assert sensitive == [(0, CapabilityResource)] && sensitive[1..] == [] && [argument][1..] == [];
    var callee := Variable((0, 0), "secret");
    assert Mark(source, callee, scopes, marks) == marks;
    var children := MarkEach(source, [argument], scopes, marks);
    assert children == MarkEach(source, [], scopes, Mark(source, argument, scopes, marks));
    assert MarkArguments(source, [argument], scopes, sensitive, children) == children;
  }

  // ----- A literal in parentheses

  const IN_PARENTHESES: Text := OfAscii("secret((\"x\"))")

  /** The parser gives the literal the span of its parentheses. */
  const PARENTHESISED: Expression := StringLiteral((7, 12), (9, 10), false)

  /** In `secret(("x"))` the text between the quotes reaches `secret`, and
      nothing is emitted. */
  lemma ParenthesisedLiteralLeaks()
    ensures var source, program := IN_PARENTHESES, [Evaluate(Secret(PARENTHESISED))];
            && Exposed(source, program, 9) && Wrapped(source, program, 9) && !CallsDeclared(program)
            && SensitiveSpans(source, program) == map[]
  {
    var source, s := IN_PARENTHESES, Evaluate(Secret(PARENTHESISED));
    assert source[7] == 0x28 && source[8] == QUOTE;
    assert TokenOf(source, PARENTHESISED) == None;
    OneStatement(s, Nowhere, ReachedBy(source, 9), WrappedAt(source, 9));
    OneStatement(s, Nowhere, CallsFunction(), WrappedAt(source, 9));
    SecretArgument(PARENTHESISED, Nowhere, ReachedBy(source, 9), WrappedAt(source, 9));
    SecretArgument(PARENTHESISED, Nowhere, CallsFunction(), WrappedAt(source, 9));
    OneStatementMarks(source, s, [map[]], map[]);
    SecretMarks(source, PARENTHESISED, [map[]], map[]);
  }

  // ----- A call of a declared function

  const NAMED_CALL: Text := OfAscii("fn key() { \"x\" } secret(key())")

  const KEY: Statement := Handler("key", None, [], Block([], Some(StringLiteral((11, 14), (12, 13), false))))

  const KEY_CALL: Expression := Call((24, 29), Variable((24, 27), "key"), [])

  /** In `fn key() { "x" } secret(key())` the text reaches `secret` through the
      call, its node is its own quotes, and nothing is emitted. */
  lemma NamedFunctionLeaks()
    ensures var source, program := NAMED_CALL, [KEY, Evaluate(Secret(KEY_CALL))];
            && Exposed(source, program, 12) && !Wrapped(source, program, 12) && CallsDeclared(program)
            && SensitiveSpans(source, program) == map[]
  {
    NamedCallExposes(NAMED_CALL);
    NamedCallIsDelimited();
    NamedCallMarks(NAMED_CALL);
  }

  lemma NamedCallExposes(source: Text)
    ensures var program := [KEY, Evaluate(Secret(KEY_CALL))];
            Exposed(source, program, 12) && CallsDeclared(program)
  {
    var s, env := Evaluate(Secret(KEY_CALL)), Around(Nowhere, KEY);
    assert Rest(Block([KEY, s], None)) == Block([s], None);
    NamedCallReaches(source);
    OneStatement(s, env, ReachedBy(source, 12), WrappedAt(source, 12));
    OneStatement(s, env, CallsFunction(), WrappedAt(source, 12));
    SecretArgument(KEY_CALL, env, ReachedBy(source, 12), WrappedAt(source, 12));
    SecretArgument(KEY_CALL, env, CallsFunction(), WrappedAt(source, 12));
  }

  lemma NamedCallIsDelimited()
    ensures !Wrapped(NAMED_CALL, [KEY, Evaluate(Secret(KEY_CALL))], 12)
  {
    var s, node := Evaluate(Secret(KEY_CALL)), WrappedAt(NAMED_CALL, 12);
    assert NAMED_CALL[11] == QUOTE && NAMED_CALL[13] == QUOTE;
    assert !node(KEY.body.tail.value);
    OnlyOneLiteral(node);
  }

  /** The function's body is the only literal of the program. */
  lemma OnlyOneLiteral(node: Expression -> bool)
    requires forall e :: node(e) ==> IsLiteral(e)
    requires !node(KEY.body.tail.value)
    ensures !AnyNodeIn(Block([KEY, Evaluate(Secret(KEY_CALL))], None), node)
  {
    var s := Evaluate(Secret(KEY_CALL));
    assert Rest(Block([KEY, s], None)) == Block([s], None);
    assert !AnyNode(KEY.body.tail.value, node) && !AnyNodeAt(KEY, node);
    assert !AnyNode(KEY_CALL.callee, node) && !AnyNodeOf([], node);
    assert !AnyNode(KEY_CALL, node);
    SecretArgument(KEY_CALL, Nowhere, CallsFunction(), node);
    OneStatement(s, Nowhere, CallsFunction(), node);
  }

  lemma NamedCallReaches(source: Text)
    ensures var env := Around(Nowhere, KEY);
            Reaches(source, Lexical, KEY_CALL, env, 12) && Calls(KEY_CALL, env)
  {
    var env := Around(Nowhere, KEY);
    assert BlockReaches(source, Lexical, KEY.body, Hidden(["key"], Nowhere), 12);
    assert ["key"] + [] == ["key"];
    assert NameReaches(source, Lexical, env, "key", 12) && NameCalls(env, "key");
  }

  lemma NamedCallMarks(source: Text)
    ensures SensitiveSpans(source, [KEY, Evaluate(Secret(KEY_CALL))]) == map[]
  {
    var s := Evaluate(Secret(KEY_CALL));
    var program := Block([KEY, s], None);
    assert Rest(program) == Block([s], None);
    KeyMarks(source);
    assert Declare(source, KEY, [map[]]) == [map[]];
    KeyCallMarks(source);
    SecretMarks(source, KEY_CALL, [map[]], map[]);
    OneStatementMarks(source, s, [map[]], map[]);
  }

  lemma KeyMarks(source: Text)
    ensures MarkStatement(source, KEY, [map[]], map[]) == map[]
  {
    var inner := [map[]] + [Opaque([])] + [map[]];
    assert MarkBlock(source, KEY.body, inner, map[]) == map[];
  }

  lemma KeyCallMarks(source: Text)
    ensures Snapshot(source, KEY_CALL, [map[]]).Regions() == []
    ensures Mark(source, KEY_CALL, [map[]], map[]) == map[]
  {
    assert Resolve([map[]], "key") == None;
    assert SensitiveArguments("key") == [];
  }
}
