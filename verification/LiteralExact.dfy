/** How precise the literal-flow analysis is
    (`crates/krit-assist/src/context.rs`). */
module LiteralExact {
  import opened Utf8
  import opened Wrappers
  import opened RedactionTargets
  import opened Ast
  import opened LiteralFlow
  import opened LiteralReach
  import opened LiteralRules

  // ----- Exact as long as nothing became a range

  /** While no ranges are kept, `t'` covers what `t` covers, and `added`. */
  predicate Exactly(t: Targets, t': Targets, added: bool, b: nat) {
    t'.ranges == [] ==> t.ranges == [] && (Covers(t'.Regions(), b) <==> Covers(t.Regions(), b) || added)
  }

  lemma ExactlyTwice(t: Targets, u: Targets, v: Targets, first: bool, second: bool, b: nat)
    requires Exactly(t, u, first, b) && Exactly(u, v, second, b)
    ensures Exactly(t, v, first || second, b)
  {
  }

  lemma {:induction false} RangesStay(t: Targets, ranges: seq<Range>)
    ensures ranges != [] || t.ranges != [] ==> AddRanges(t, ranges).ranges != []
    decreases |ranges|
  {
    if ranges != [] { RangesStay(AddRange(t, ranges[0]), ranges[1..]); }
  }

  lemma AddSpanExactly(t: Targets, span: Range, b: nat)
    ensures Exactly(t, AddSpan(t, span), Inside(span, b), b)
  {
    if !t.overflowed && |t.spans| < MAX_TRACKED_BINDING_SPANS {
      CoversConcat(t.spans, [span], b);
      CoversConcat(t.spans, t.ranges, b);
      CoversConcat(AddSpan(t, span).spans, t.ranges, b);
      if Inside(span, b) {
        CoversAt([span], 0, b);
        if span in t.spans {
          var i :| 0 <= i < |t.spans| && t.spans[i] == span;
          CoversAt(t.spans, i, b);
        }
      }
    }
  }

  lemma {:induction false} AddSpansExactly(t: Targets, spans: seq<Range>, b: nat)
    ensures Exactly(t, AddSpans(t, spans), Covers(spans, b), b)
    decreases |spans|
  {
    if spans != [] {
      AddSpanExactly(t, spans[0], b);
      AddSpansExactly(AddSpan(t, spans[0]), spans[1..], b);
      assert spans == [spans[0]] + spans[1..];
      CoversConcat([spans[0]], spans[1..], b);
      if Inside(spans[0], b) { CoversAt([spans[0]], 0, b); }
    }
  }

  lemma MergeExactly(t: Targets, other: Targets, b: nat)
    ensures Exactly(t, Merge(t, other), Covers(other.Regions(), b), b)
  {
    RangesStay(t, other.ranges);
    AddSpansExactly(AddRanges(t, other.ranges), other.spans, b);
    CoversConcat(other.spans, other.ranges, b);
  }

  lemma AddContentExactly(t: Targets, content: Option<Range>, b: nat)
    ensures Exactly(t, AddContent(t, content), InContent(content, b), b)
  {
    if content.Some? { AddSpanExactly(t, content.value, b); }
  }

  // ----- A snapshot without ranges

  /** A literal that the source takes for something other than its text.  The
      parser makes none: a node is the literal's own quotes, or it begins with a
      parenthesis. */
  function Misread(source: Text): Expression -> bool {
    e => IsLiteral(e) && TokenOf(source, e).Some? && !Delimited(source, e)
  }

  /** The scopes cover exactly what names reach when they are read flat. */
  ghost predicate KnowsExactly(source: Text, scopes: seq<Bindings>, env: Env, b: nat) {
    forall name :: NameCovers(scopes, name, b) <==> NameReaches(source, Flat, env, name, b)
  }

  lemma {:induction false} CollectExactly(source: Text, e: Expression, scopes: seq<Bindings>, env: Env, t: Targets,
                                          b: nat)
    requires KnowsExactly(source, scopes, env, b) && !AnyNode(e, Misread(source))
    ensures Exactly(t, Collect(source, e, scopes, t), Reaches(source, Flat, e, env, b), b)
    decreases Size(e), 0
  {
    match e
    case StringLiteral(_, _, _) => AddContentExactly(t, TokenOf(source, e), b);
    case Atom(_) =>
    case Template(_, _, _, holes) =>
      var token := TokenOf(source, e);
      AddContentExactly(t, token, b);
      CollectAllExactly(source, holes, scopes, env, AddContent(t, token), b);
      ExactlyTwice(t, AddContent(t, token), Collect(source, e, scopes, t), InContent(token, b),
                   AnyReaches(source, Flat, holes, env, b), b);
    case Variable(_, name) =>
      assert NameCovers(scopes, name, b) <==> NameReaches(source, Flat, env, name, b);
      if Resolve(scopes, name).Some? { MergeExactly(t, Resolve(scopes, name).value, b); }
    case Compound(_, _, operands) => CollectAllExactly(source, operands, scopes, env, t, b);
    case BlockValue(_, body) => CollectBlockExactly(source, body, scopes, env, t, b);
    case If(_, condition, consequent, alternative) =>
      var u := Collect(source, condition, scopes, t);
      var v := CollectBlock(source, consequent, scopes, u);
      CollectExactly(source, condition, scopes, env, t, b);
      CollectBlockExactly(source, consequent, scopes, env, u, b);
      CollectExactly(source, alternative, scopes, env, v, b);
      ExactlyTwice(t, u, v, Reaches(source, Flat, condition, env, b),
                   BlockReaches(source, Flat, consequent, env, b), b);
      ExactlyTwice(t, v, Collect(source, alternative, scopes, v),
                   Reaches(source, Flat, condition, env, b) || BlockReaches(source, Flat, consequent, env, b),
                   Reaches(source, Flat, alternative, env, b), b);
    case Lambda(_, _, body) => CollectBlockExactly(source, body, scopes, env, t, b);
    case Call(_, callee, arguments) => CollectTwoExactly(source, callee, arguments, scopes, env, t, b);
    case Match(_, subject, arms) => CollectTwoExactly(source, subject, arms, scopes, env, t, b);
    case Binary(_, left, right) =>
      var u := Collect(source, left, scopes, t);
      CollectExactly(source, left, scopes, env, t, b);
      CollectExactly(source, right, scopes, env, u, b);
      ExactlyTwice(t, u, Collect(source, right, scopes, u), Reaches(source, Flat, left, env, b),
                   Reaches(source, Flat, right, env, b), b);
  }

  lemma {:induction false} CollectTwoExactly(source: Text, e: Expression, es: seq<Expression>, scopes: seq<Bindings>,
                                             env: Env, t: Targets, b: nat)
    requires KnowsExactly(source, scopes, env, b) && !AnyNode(e, Misread(source)) && !AnyNodeOf(es, Misread(source))
    ensures Exactly(t, CollectAll(source, es, scopes, Collect(source, e, scopes, t)),
                    Reaches(source, Flat, e, env, b) || AnyReaches(source, Flat, es, env, b), b)
    decreases Size(e) + SizeAll(es), 1
  {
    var u := Collect(source, e, scopes, t);
    CollectExactly(source, e, scopes, env, t, b);
    CollectAllExactly(source, es, scopes, env, u, b);
    ExactlyTwice(t, u, CollectAll(source, es, scopes, u), Reaches(source, Flat, e, env, b),
                 AnyReaches(source, Flat, es, env, b), b);
  }

  lemma {:induction false} CollectAllExactly(source: Text, es: seq<Expression>, scopes: seq<Bindings>, env: Env,
                                             t: Targets, b: nat)
    requires KnowsExactly(source, scopes, env, b) && !AnyNodeOf(es, Misread(source))
    ensures Exactly(t, CollectAll(source, es, scopes, t), AnyReaches(source, Flat, es, env, b), b)
    decreases SizeAll(es), 0
  {
    if es != [] { CollectTwoExactly(source, es[0], es[1..], scopes, env, t, b); }
  }

  lemma {:induction false} CollectBlockExactly(source: Text, block: Block, scopes: seq<Bindings>, env: Env,
                                               t: Targets, b: nat)
    requires KnowsExactly(source, scopes, env, b) && !AnyNodeIn(block, Misread(source))
    ensures Exactly(t, CollectBlock(source, block, scopes, t), BlockReaches(source, Flat, block, env, b), b)
    decreases SizeBlock(block), 0
  {
    if block.statements == [] {
      if block.tail.Some? { CollectExactly(source, block.tail.value, scopes, env, t, b); }
    } else {
      var rest, head := Rest(block), block.statements[0];
      var u := CollectStatement(source, head, scopes, t);
      CollectStatementExactly(source, head, scopes, env, t, b);
      CollectBlockExactly(source, rest, scopes, env, u, b);
      ExactlyTwice(t, u, CollectBlock(source, rest, scopes, u), StatementReaches(source, Flat, head, env, b),
                   BlockReaches(source, Flat, rest, env, b), b);
    }
  }

  lemma {:induction false} CollectStatementExactly(source: Text, s: Statement, scopes: seq<Bindings>, env: Env,
                                                   t: Targets, b: nat)
    requires KnowsExactly(source, scopes, env, b) && !AnyNodeAt(s, Misread(source))
    ensures Exactly(t, CollectStatement(source, s, scopes, t), StatementReaches(source, Flat, s, env, b), b)
    decreases SizeStatement(s), 0
  {
    match s
    case Let(_, value) => CollectExactly(source, value, scopes, env, t, b);
    case LetElse(_, value, arm) =>
      var u := Collect(source, value, scopes, t);
      CollectExactly(source, value, scopes, env, t, b);
      CollectExactly(source, arm, scopes, env, u, b);
      ExactlyTwice(t, u, Collect(source, arm, scopes, u), Reaches(source, Flat, value, env, b),
                   Reaches(source, Flat, arm, env, b), b);
    case Handler(_, _, _, body) => CollectBlockExactly(source, body, scopes, env, t, b);
    case Evaluate(value) => CollectExactly(source, value, scopes, env, t, b);
  }

  /** A snapshot without ranges covers exactly the delimited literals that the
      expression holds, or reaches through the values of the names it mentions
      where they were declared: unrelated literals are untouched. */
  lemma SnapshotIsExact(source: Text, e: Expression, scopes: seq<Bindings>, env: Env, b: nat)
    requires KnowsExactly(source, scopes, env, b) && !AnyNode(e, Misread(source))
    requires Snapshot(source, e, scopes).ranges == []
    ensures Covers(Snapshot(source, e, scopes).Regions(), b) <==> Reaches(source, Flat, e, env, b)
  {
    CollectExactly(source, e, scopes, env, NOTHING, b);
  }

  // ----- Fewer literals than one value may carry

  predicate AllDifferent(s: seq<Range>) {
    forall i, j :: 0 <= i < j < |s| ==> s[i] != s[j]
  }

  lemma {:induction false} DifferentFit(s: seq<Range>, tokens: set<Range>)
    requires AllDifferent(s) && forall i :: 0 <= i < |s| ==> s[i] in tokens
    ensures |s| <= |tokens|
    decreases |s|
  {
    if s != [] {
      var last := s[|s| - 1];
      DifferentFit(s[..|s| - 1], tokens - {last});
    }
  }

  predicate IsSlim(t: Targets, tokens: set<Range>) {
    t.ranges == [] && !t.overflowed && AllDifferent(t.spans) && forall i :: 0 <= i < |t.spans| ==> t.spans[i] in tokens
  }

  /** Targets that hold some of the tokens, exactly. */
  function Slim(tokens: set<Range>): Targets -> bool {
    (t: Targets) => IsSlim(t, tokens)
  }

  function Among(tokens: set<Range>): Range -> bool {
    r => r in tokens
  }

  lemma AddSpanIsSlim(t: Targets, span: Range, tokens: set<Range>)
    requires IsSlim(t, tokens) && span in tokens && |tokens| < MAX_TRACKED_BINDING_SPANS
    ensures IsSlim(AddSpan(t, span), tokens)
  {
    DifferentFit(t.spans, tokens);
  }

  lemma {:induction false} AddSpansAreSlim(t: Targets, spans: seq<Range>, tokens: set<Range>)
    requires IsSlim(t, tokens) && |tokens| < MAX_TRACKED_BINDING_SPANS
    requires forall i :: 0 <= i < |spans| ==> spans[i] in tokens
    ensures IsSlim(AddSpans(t, spans), tokens)
    decreases |spans|
  {
    if spans != [] {
      AddSpanIsSlim(t, spans[0], tokens);
      AddSpansAreSlim(AddSpan(t, spans[0]), spans[1..], tokens);
    }
  }

  /** With fewer than 64 tokens nothing ever overflows. */
  lemma SlimIsClosed(source: Text, tokens: set<Range>)
    requires |tokens| < MAX_TRACKED_BINDING_SPANS
    ensures Closed(source, Slim(tokens), Among(tokens)) && Allows(Slim(tokens), Among(tokens), Among(tokens))
  {
    var good := Slim(tokens);
    assert IsSlim(NOTHING, tokens) && IsSlim(UNTRACEABLE, tokens);
    forall t, span | good(t) && Among(tokens)(span) ensures good(AddSpan(t, span)) { AddSpanIsSlim(t, span, tokens); }
    forall t, u | good(t) && good(u) ensures good(Merge(t, u)) {
      assert AddRanges(t, u.ranges) == t;
      AddSpansAreSlim(t, u.spans, tokens);
    }
    forall t, r | good(t) && r in t.Regions() ensures Among(tokens)(r) {
      assert t.Regions() == t.spans;
    }
  }

  // ----- The emitted spans, exactly

  /** The byte reaches the argument when names are read flat. */
  function ReachedFlat(source: Text, b: nat): (Expression, Env) -> bool {
    (argument, env) => Reaches(source, Flat, argument, env, b)
  }

  /** The byte is text of a delimited literal that looks secret-like. */
  function SecretAt(source: Text, b: nat): Expression -> bool {
    e => IsLiteral(e) && e.secretLike && Inside(e.content, b) && Delimited(source, e)
  }

  /** What the walk has to work with: scopes that know exactly, none of them
      overflowed, and literals that are tokens. */
  ghost predicate Ready(source: Text, scopes: seq<Bindings>, env: Env, tokens: set<Range>, b: nat) {
    && |tokens| < MAX_TRACKED_BINDING_SPANS && GoodScopes(scopes, Slim(tokens))
    && KnowsExactly(source, scopes, env, b)
  }

  /** A node the walk cannot account for. */
  function Odd(source: Text, tokens: set<Range>): Expression -> bool {
    e => Misread(source)(e) || Unfit(source, Among(tokens))(e)
  }

  lemma SnapshotIsSlim(source: Text, e: Expression, scopes: seq<Bindings>, env: Env, tokens: set<Range>, b: nat)
    requires Ready(source, scopes, env, tokens, b) && !AnyNode(e, Odd(source, tokens))
    ensures var snapshot := Snapshot(source, e, scopes);
            && IsSlim(snapshot, tokens) && !snapshot.untraceable
            && (Covers(snapshot.Regions(), b) <==> Reaches(source, Flat, e, env, b))
  {
    SlimIsClosed(source, tokens);
    FewerNodes(e, Unfit(source, Among(tokens)), Odd(source, tokens));
    FewerNodes(e, Misread(source), Odd(source, tokens));
    SnapshotKeeps(source, e, scopes, Slim(tokens), Among(tokens));
    assert Slim(tokens)(Snapshot(source, e, scopes));
    SnapshotIsExact(source, e, scopes, env, b);
    CollectGrows(source, e, scopes, NOTHING);
  }

  lemma DeclareIsReady(source: Text, scopes: seq<Bindings>, s: Statement, env: Env, tokens: set<Range>, b: nat)
    requires scopes != [] && Ready(source, scopes, env, tokens, b) && !AnyNodeAt(s, Odd(source, tokens))
    ensures Ready(source, Declare(source, s, scopes), Around(env, s), tokens, b)
  {
    var declared := Declare(source, s, scopes);
    if s.Let? || (s.LetElse? && s.binder.Some?) {
      var bound := if s.Let? then s.name else s.binder.value;
      SnapshotIsSlim(source, s.value, scopes, env, tokens, b);
      forall name ensures NameCovers(declared, name, b) <==> NameReaches(source, Flat, Around(env, s), name, b) {
        if name != bound {
          assert NameCovers(declared, name, b) <==> NameCovers(scopes, name, b);
        }
      }
    } else {
      forall name
        ensures NameReaches(source, Flat, Around(env, s), name, b) <==> NameReaches(source, Flat, env, name, b)
      {}
    }
  }

  lemma InnerScopeIsReady(source: Text, scopes: seq<Bindings>, parameters: seq<Name>, env: Env, tokens: set<Range>,
                          b: nat)
    requires Ready(source, scopes, env, tokens, b)
    ensures Ready(source, scopes + [map[]], env, tokens, b)
    ensures Ready(source, scopes + [Opaque(parameters)] + [map[]], Hidden(parameters, env), tokens, b)
  {
    SlimIsClosed(source, tokens);
    InnerScopeIsGood(source, scopes, parameters, Slim(tokens), Among(tokens));
    var inner := scopes + [Opaque(parameters)];
    forall name
      ensures NameCovers(scopes + [map[]], name, b) <==> NameReaches(source, Flat, env, name, b)
      ensures NameCovers(inner + [map[]], name, b) <==> NameReaches(source, Flat, Hidden(parameters, env), name, b)
    {
      ResolveInner(scopes, map[], name);
      ResolveInner(inner, map[], name);
      if name !in parameters {
        ResolveInner(scopes, Opaque(parameters), name);
      }
      assert NameCovers(scopes, name, b) <==> NameReaches(source, Flat, env, name, b);
    }
  }

  /** One step of the walk marks the byte exactly if it was, or is to be. */
  predicate Turns(marks: Marks, after: Marks, exposed: bool, b: nat) {
    Marked(after, b) <==> Marked(marks, b) || exposed
  }

  lemma {:induction false} MarkArgumentsTurn(source: Text, arguments: seq<Expression>, scopes: seq<Bindings>, env: Env,
                                             sensitive: seq<(nat, Category)>, marks: Marks, tokens: set<Range>, b: nat)
    requires Ready(source, scopes, env, tokens, b) && !AnyNodeOf(arguments, Odd(source, tokens))
    ensures Turns(marks, MarkArguments(source, arguments, scopes, sensitive, marks),
                  AnyPosition(sensitive, arguments, env, ReachedFlat(source, b)), b)
    decreases |sensitive|
  {
    if sensitive != [] {
      var (index, category) := sensitive[0];
      var rest, test := sensitive[1..], ReachedFlat(source, b);
      var next := marks;
      if index < |arguments| {
        var regions := Snapshot(source, arguments[index], scopes).Regions();
        next := MarkAll(marks, regions, category);
        MarkedAll(marks, regions, category, b);
        NodeOfMember(arguments, index, Odd(source, tokens));
        SnapshotIsSlim(source, arguments[index], scopes, env, tokens, b);
      }
      MarkArgumentsTurn(source, arguments, scopes, env, rest, next, tokens, b);
      FirstPosition(sensitive, arguments, env, test);
    }
  }

  lemma FirstPosition(sensitive: seq<(nat, Category)>, arguments: seq<Expression>, env: Env,
                      test: (Expression, Env) -> bool)
    requires sensitive != []
    ensures AnyPosition(sensitive, arguments, env, test) <==>
              || (sensitive[0].0 < |arguments| && test(arguments[sensitive[0].0], env))
              || AnyPosition(sensitive[1..], arguments, env, test)
  {
    if i :| 0 <= i < |sensitive| && sensitive[i].0 < |arguments| && test(arguments[sensitive[i].0], env) {
      assert i > 0 ==> sensitive[1..][i - 1] == sensitive[i];
    }
    var rest := sensitive[1..];
    if i :| 0 <= i < |rest| && rest[i].0 < |arguments| && test(arguments[rest[i].0], env) {
      assert sensitive[i + 1] == rest[i];
    }
  }

  lemma SecretTurns(source: Text, e: Expression, marks: Marks, tokens: set<Range>, b: nat)
    requires IsLiteral(e) && !Odd(source, tokens)(e)
    ensures Turns(marks, MarkSecretLike(marks, e.secretLike, TokenOf(source, e)), SecretAt(source, b)(e), b)
  {
    var after := MarkSecretLike(marks, e.secretLike, TokenOf(source, e));
    assert forall r :: r in after <==> r in marks || (e.secretLike && TokenOf(source, e) == Some(r));
    assert !Misread(source)(e);
    if SecretAt(source, b)(e) { assert e.content in after; }
    if r :| r in after && Inside(r, b) {
      assert r in marks || r == e.content;
    }
  }

  lemma {:induction false} MarkTurns(source: Text, e: Expression, scopes: seq<Bindings>, env: Env, marks: Marks,
                                     tokens: set<Range>, b: nat)
    requires Ready(source, scopes, env, tokens, b) && !AnyNode(e, Odd(source, tokens))
    ensures Turns(marks, Mark(source, e, scopes, marks),
                  AnyArgument(e, env, ReachedFlat(source, b)) || AnyNode(e, SecretAt(source, b)), b)
    decreases Size(e), 0
  {
    InnerScopeIsReady(source, scopes, if e.Lambda? then e.parameters else [], env, tokens, b);
    match e
    case StringLiteral(_, _, _) => SecretTurns(source, e, marks, tokens, b);
    case Atom(_) =>
    case Template(_, _, secretLike, holes) =>
      SecretTurns(source, e, marks, tokens, b);
      MarkEachTurns(source, holes, scopes, env, MarkSecretLike(marks, secretLike, TokenOf(source, e)), tokens, b);
    case Variable(_, _) =>
    case Compound(_, _, operands) => MarkEachTurns(source, operands, scopes, env, marks, tokens, b);
    case BlockValue(_, body) => MarkBlockTurns(source, body, scopes + [map[]], env, marks, tokens, b);
    case If(_, condition, consequent, alternative) =>
      var m := Mark(source, condition, scopes, marks);
      MarkTurns(source, condition, scopes, env, marks, tokens, b);
      MarkBlockTurns(source, consequent, scopes + [map[]], env, m, tokens, b);
      MarkTurns(source, alternative, scopes, env, MarkBlock(source, consequent, scopes + [map[]], m), tokens, b);
    case Lambda(_, parameters, body) =>
      MarkBlockTurns(source, body, scopes + [Opaque(parameters)] + [map[]], Hidden(parameters, env), marks, tokens, b);
    case Call(_, callee, arguments) =>
      var m := Mark(source, callee, scopes, marks);
      MarkTurns(source, callee, scopes, env, marks, tokens, b);
      MarkEachTurns(source, arguments, scopes, env, m, tokens, b);
      if callee.Variable? {
        MarkArgumentsTurn(source, arguments, scopes, env, SensitiveArguments(callee.name),
                          MarkEach(source, arguments, scopes, m), tokens, b);
      }
    case Match(_, subject, arms) =>
      MarkTurns(source, subject, scopes, env, marks, tokens, b);
      MarkEachTurns(source, arms, scopes, env, Mark(source, subject, scopes, marks), tokens, b);
    case Binary(_, left, right) =>
      MarkTurns(source, left, scopes, env, marks, tokens, b);
      MarkTurns(source, right, scopes, env, Mark(source, left, scopes, marks), tokens, b);
  }

  lemma {:induction false} MarkEachTurns(source: Text, es: seq<Expression>, scopes: seq<Bindings>, env: Env,
                                         marks: Marks, tokens: set<Range>, b: nat)
    requires Ready(source, scopes, env, tokens, b) && !AnyNodeOf(es, Odd(source, tokens))
    ensures Turns(marks, MarkEach(source, es, scopes, marks),
                  AnyArgumentOf(es, env, ReachedFlat(source, b)) || AnyNodeOf(es, SecretAt(source, b)), b)
    decreases SizeAll(es), 0
  {
    if es != [] {
      MarkTurns(source, es[0], scopes, env, marks, tokens, b);
      MarkEachTurns(source, es[1..], scopes, env, Mark(source, es[0], scopes, marks), tokens, b);
    }
  }

  lemma {:induction false} MarkBlockTurns(source: Text, block: Block, scopes: seq<Bindings>, env: Env, marks: Marks,
                                          tokens: set<Range>, b: nat)
    requires scopes != [] && Ready(source, scopes, env, tokens, b) && !AnyNodeIn(block, Odd(source, tokens))
    ensures Turns(marks, MarkBlock(source, block, scopes, marks),
                  AnyArgumentIn(block, env, ReachedFlat(source, b)) || AnyNodeIn(block, SecretAt(source, b)), b)
    decreases SizeBlock(block), 0
  {
    if block.statements == [] {
      if block.tail.Some? { MarkTurns(source, block.tail.value, scopes, env, marks, tokens, b); }
    } else {
      var rest, head := Rest(block), block.statements[0];
      MarkStatementTurns(source, head, scopes, env, marks, tokens, b);
      DeclareIsReady(source, scopes, head, env, tokens, b);
      MarkBlockTurns(source, rest, Declare(source, head, scopes), Around(env, head),
                     MarkStatement(source, head, scopes, marks), tokens, b);
    }
  }

  lemma {:induction false} MarkStatementTurns(source: Text, s: Statement, scopes: seq<Bindings>, env: Env, marks: Marks,
                                              tokens: set<Range>, b: nat)
    requires scopes != [] && Ready(source, scopes, env, tokens, b) && !AnyNodeAt(s, Odd(source, tokens))
    ensures Turns(marks, MarkStatement(source, s, scopes, marks),
                  AnyArgumentAt(s, env, ReachedFlat(source, b)) || AnyNodeAt(s, SecretAt(source, b)), b)
    decreases SizeStatement(s), 0
  {
    match s
    case Let(_, value) => MarkTurns(source, value, scopes, env, marks, tokens, b);
    case LetElse(_, value, arm) =>
      MarkTurns(source, value, scopes, env, marks, tokens, b);
      MarkTurns(source, arm, scopes, env, Mark(source, value, scopes, marks), tokens, b);
    case Handler(_, resource, parameters, body) =>
      var m := MarkResource(source, resource, marks);
      ResourceTurns(source, resource, env, marks, tokens, b);
      DeclareIsReady(source, scopes, s, env, tokens, b);
      InnerScopeIsReady(source, scopes, parameters, Around(env, s), tokens, b);
      MarkBlockTurns(source, body, scopes + [Opaque(parameters)] + [map[]], Hidden(parameters, Around(env, s)), m,
                     tokens, b);
    case Evaluate(value) => MarkTurns(source, value, scopes, env, marks, tokens, b);
  }

  lemma ResourceTurns(source: Text, resource: Option<(Span, Span)>, env: Env, marks: Marks, tokens: set<Range>, b: nat)
    requires resource.Some? ==> !Odd(source, tokens)(ResourceNode(resource.value))
    ensures Turns(marks, MarkResource(source, resource, marks),
                  resource.Some? && ReachedFlat(source, b)(ResourceNode(resource.value), env), b)
  {
    if resource.Some? {
      var node := ResourceNode(resource.value);
      var after := MarkResource(source, resource, marks);
      assert forall r :: r in after <==> r in marks || TokenOf(source, node) == Some(r);
      assert !Misread(source)(node);
      if ReachedFlat(source, b)(node, env) { assert node.content in after; }
      if r :| r in after && Inside(r, b) {
        assert r in marks || r == node.content;
      }
    }
  }

  lemma StartIsReady(source: Text, tokens: set<Range>, b: nat)
    requires |tokens| < MAX_TRACKED_BINDING_SPANS
    ensures Ready(source, [map[]], Nowhere, tokens, b)
  {
    forall name ensures NameCovers([map[]], name, b) <==> NameReaches(source, Flat, Nowhere, name, b) {
      var none: seq<Bindings> := [];
      ResolveInner(none, map[], name);
      assert none + [map[]] == [map[]];
    }
  }

  /** With fewer than 64 literals, the emitted spans cover exactly the bytes of
      secret-like literals and the bytes that reach a sensitive argument when
      names are read flat. */
  lemma MarkedExactly(source: Text, program: seq<Statement>, tokens: set<Range>, b: nat)
    requires |tokens| < MAX_TRACKED_BINDING_SPANS && !AnyNodeIn(Block(program, None), Odd(source, tokens))
    ensures Marked(SensitiveSpans(source, program), b) <==>
              || AnyArgumentIn(Block(program, None), Nowhere, ReachedFlat(source, b))
              || AnyNodeIn(Block(program, None), SecretAt(source, b))
  {
    StartIsReady(source, tokens, b);
    MarkBlockTurns(source, Block(program, None), [map[]], Nowhere, map[], tokens, b);
  }

  // ----- Exactly which exposed bytes are missed

  /** Among the bytes that reach a sensitive argument without a call, and with
      fewer than 64 literals, the ones missed are exactly the text of literals
      whose node is not their own quotes. */
  lemma MissedIfWrapped(source: Text, program: seq<Statement>, tokens: set<Range>, b: nat)
    requires AnyArgumentIn(Block(program, None), Nowhere, ReachedDirectly(source, b))
    requires |tokens| < MAX_TRACKED_BINDING_SPANS
    requires !AnyNodeIn(Block(program, None), Unfit(source, Among(tokens)))
    requires Wrapped(source, program, b) ==> forall r :: r in tokens ==> !Inside(r, b)
    ensures Marked(SensitiveSpans(source, program), b) <==> !Wrapped(source, program, b)
  {
    if Wrapped(source, program, b) {
      SlimIsClosed(source, tokens);
      SpansKeep(source, program, Slim(tokens), Among(tokens), Among(tokens));
      assert forall r :: r in SensitiveSpans(source, program) ==> Among(tokens)(r);
    } else {
      EveryExposedByteIsMarked(source, program, b);
    }
  }

  // ----- A test that passes less

  lemma {:induction false} FewerNodes(e: Expression, less: Expression -> bool, more: Expression -> bool)
    requires (forall x :: less(x) ==> more(x)) && !AnyNode(e, more)
    ensures !AnyNode(e, less)
    decreases Size(e)
  {
    match e
    case StringLiteral(_, _, _) =>
    case Atom(_) =>
    case Template(_, _, _, holes) => FewerNodesOf(holes, less, more);
    case Variable(_, _) =>
    case Compound(_, _, operands) => FewerNodesOf(operands, less, more);
    case BlockValue(_, body) => FewerNodesIn(body, less, more);
    case If(_, condition, consequent, alternative) =>
      FewerNodes(condition, less, more); FewerNodesIn(consequent, less, more); FewerNodes(alternative, less, more);
    case Lambda(_, _, body) => FewerNodesIn(body, less, more);
    case Call(_, callee, arguments) => FewerNodes(callee, less, more); FewerNodesOf(arguments, less, more);
    case Match(_, subject, arms) => FewerNodes(subject, less, more); FewerNodesOf(arms, less, more);
    case Binary(_, left, right) => FewerNodes(left, less, more); FewerNodes(right, less, more);
  }

  lemma {:induction false} FewerNodesOf(es: seq<Expression>, less: Expression -> bool, more: Expression -> bool)
    requires (forall x :: less(x) ==> more(x)) && !AnyNodeOf(es, more)
    ensures !AnyNodeOf(es, less)
    decreases SizeAll(es)
  {
    if es != [] { FewerNodes(es[0], less, more); FewerNodesOf(es[1..], less, more); }
  }

  lemma {:induction false} FewerNodesIn(b: Block, less: Expression -> bool, more: Expression -> bool)
    requires (forall x :: less(x) ==> more(x)) && !AnyNodeIn(b, more)
    ensures !AnyNodeIn(b, less)
    decreases SizeBlock(b)
  {
    if b.statements != [] {
      var rest := Rest(b);
      FewerNodesAt(b.statements[0], less, more);
      FewerNodesIn(rest, less, more);
    } else if b.tail.Some? {
      FewerNodes(b.tail.value, less, more);
    }
  }

  lemma {:induction false} FewerNodesAt(s: Statement, less: Expression -> bool, more: Expression -> bool)
    requires (forall x :: less(x) ==> more(x)) && !AnyNodeAt(s, more)
    ensures !AnyNodeAt(s, less)
    decreases SizeStatement(s)
  {
    match s
    case Let(_, value) => FewerNodes(value, less, more);
    case LetElse(_, value, arm) => FewerNodes(value, less, more); FewerNodes(arm, less, more);
    case Handler(_, _, _, body) => FewerNodesIn(body, less, more);
    case Evaluate(value) => FewerNodes(value, less, more);
  }
}
