/** What holds of every snapshot and every emitted span of the literal-flow
    analysis, if the operations on targets keep it
    (`crates/krit-assist/src/context.rs`). */
module LiteralRules {
  import opened Utf8
  import opened Wrappers
  import opened RedactionTargets
  import opened SourceSpans
  import opened Ast
  import opened LiteralFlow

  // ----- A property that collecting keeps

  /** Adding a fitting literal, merging, and adding a range on overflow keep
      targets good. */
  ghost predicate Closed(source: Text, good: Targets -> bool, fits: Range -> bool) {
    && good(NOTHING) && good(UNTRACEABLE)
    && (forall t, span :: good(t) && fits(span) ==> good(AddSpan(t, span)))
    && (forall t, u :: good(t) && good(u) ==> good(Merge(t, u)))
    && (forall t, start: nat, end: nat :: good(t) && t.overflowed && CharRange(source, start, end).Some? ==>
          good(AddRange(t, CharRange(source, start, end).value)))
  }

  /** A literal that the source takes for something that does not fit. */
  function Unfit(source: Text, fits: Range -> bool): Expression -> bool {
    e => IsLiteral(e) && TokenOf(source, e).Some? && !fits(TokenOf(source, e).value)
  }

  predicate GoodScopes(scopes: seq<Bindings>, good: Targets -> bool) {
    forall i, name :: 0 <= i < |scopes| && name in scopes[i] ==> good(scopes[i][name])
  }

  lemma {:induction false} ResolvedIsGood(scopes: seq<Bindings>, name: Name, good: Targets -> bool)
    requires GoodScopes(scopes, good)
    ensures Resolve(scopes, name).Some? ==> good(Resolve(scopes, name).value)
  {
    if scopes != [] { ResolvedIsGood(scopes[..|scopes| - 1], name, good); }
  }

  lemma {:induction false} CollectKeeps(source: Text, e: Expression, scopes: seq<Bindings>, t: Targets,
                                        good: Targets -> bool, fits: Range -> bool)
    requires Closed(source, good, fits) && GoodScopes(scopes, good) && good(t) && !AnyNode(e, Unfit(source, fits))
    ensures good(Collect(source, e, scopes, t))
    decreases Size(e)
  {
    match e
    case StringLiteral(_, _, _) =>
    case Atom(_) =>
    case Template(_, _, _, holes) =>
      CollectAllKeeps(source, holes, scopes, AddContent(t, TokenOf(source, e)), good, fits);
    case Variable(_, name) => ResolvedIsGood(scopes, name, good);
    case Compound(_, _, operands) => CollectAllKeeps(source, operands, scopes, t, good, fits);
    case BlockValue(_, body) => CollectBlockKeeps(source, body, scopes, t, good, fits);
    case If(_, condition, consequent, alternative) =>
      CollectKeeps(source, condition, scopes, t, good, fits);
      var u := Collect(source, condition, scopes, t);
      CollectBlockKeeps(source, consequent, scopes, u, good, fits);
      CollectKeeps(source, alternative, scopes, CollectBlock(source, consequent, scopes, u), good, fits);
    case Lambda(_, _, body) => CollectBlockKeeps(source, body, scopes, t, good, fits);
    case Call(_, callee, arguments) =>
      CollectKeeps(source, callee, scopes, t, good, fits);
      CollectAllKeeps(source, arguments, scopes, Collect(source, callee, scopes, t), good, fits);
    case Match(_, subject, arms) =>
      CollectKeeps(source, subject, scopes, t, good, fits);
      CollectAllKeeps(source, arms, scopes, Collect(source, subject, scopes, t), good, fits);
    case Binary(_, left, right) =>
      CollectKeeps(source, left, scopes, t, good, fits);
      CollectKeeps(source, right, scopes, Collect(source, left, scopes, t), good, fits);
  }

  lemma {:induction false} CollectAllKeeps(source: Text, es: seq<Expression>, scopes: seq<Bindings>, t: Targets,
                                           good: Targets -> bool, fits: Range -> bool)
    requires Closed(source, good, fits) && GoodScopes(scopes, good) && good(t) && !AnyNodeOf(es, Unfit(source, fits))
    ensures good(CollectAll(source, es, scopes, t))
    decreases SizeAll(es)
  {
    if es != [] {
      CollectKeeps(source, es[0], scopes, t, good, fits);
      CollectAllKeeps(source, es[1..], scopes, Collect(source, es[0], scopes, t), good, fits);
    }
  }

  lemma {:induction false} CollectBlockKeeps(source: Text, b: Block, scopes: seq<Bindings>, t: Targets,
                                             good: Targets -> bool, fits: Range -> bool)
    requires Closed(source, good, fits) && GoodScopes(scopes, good) && good(t) && !AnyNodeIn(b, Unfit(source, fits))
    ensures good(CollectBlock(source, b, scopes, t))
    decreases SizeBlock(b)
  {
    if b.statements != [] {
      var rest := Rest(b);
      CollectStatementKeeps(source, b.statements[0], scopes, t, good, fits);
      CollectBlockKeeps(source, rest, scopes, CollectStatement(source, b.statements[0], scopes, t), good, fits);
    } else if b.tail.Some? {
      CollectKeeps(source, b.tail.value, scopes, t, good, fits);
    }
  }

  lemma {:induction false} CollectStatementKeeps(source: Text, s: Statement, scopes: seq<Bindings>, t: Targets,
                                                 good: Targets -> bool, fits: Range -> bool)
    requires Closed(source, good, fits) && GoodScopes(scopes, good) && good(t) && !AnyNodeAt(s, Unfit(source, fits))
    ensures good(CollectStatement(source, s, scopes, t))
    decreases SizeStatement(s)
  {
    match s
    case Let(_, value) => CollectKeeps(source, value, scopes, t, good, fits);
    case LetElse(_, value, arm) =>
      CollectKeeps(source, value, scopes, t, good, fits);
      CollectKeeps(source, arm, scopes, Collect(source, value, scopes, t), good, fits);
    case Handler(_, _, _, body) => CollectBlockKeeps(source, body, scopes, t, good, fits);
    case Evaluate(value) => CollectKeeps(source, value, scopes, t, good, fits);
  }

  lemma SnapshotKeeps(source: Text, e: Expression, scopes: seq<Bindings>, good: Targets -> bool, fits: Range -> bool)
    requires Closed(source, good, fits) && GoodScopes(scopes, good) && !AnyNode(e, Unfit(source, fits))
    ensures good(Snapshot(source, e, scopes))
  {
    CollectKeeps(source, e, scopes, NOTHING, good, fits);
  }

  lemma DeclareKeeps(source: Text, s: Statement, scopes: seq<Bindings>, good: Targets -> bool, fits: Range -> bool)
    requires Closed(source, good, fits) && scopes != [] && GoodScopes(scopes, good)
    requires !AnyNodeAt(s, Unfit(source, fits))
    ensures GoodScopes(Declare(source, s, scopes), good)
  {
    if s.Let? || (s.LetElse? && s.binder.Some?) {
      SnapshotKeeps(source, s.value, scopes, good, fits);
    }
  }

  lemma InnerScopeIsGood(source: Text, scopes: seq<Bindings>, parameters: seq<Name>, good: Targets -> bool,
                         fits: Range -> bool)
    requires Closed(source, good, fits) && GoodScopes(scopes, good)
    ensures GoodScopes(scopes + [map[]], good) && GoodScopes(scopes + [Opaque(parameters)] + [map[]], good)
  {
  }

  // ----- A property that emitted spans then have

  predicate KeysOk(marks: Marks, ok: Range -> bool) {
    forall r :: r in marks ==> ok(r)
  }

  /** Good targets cover only regions that are fine, and so are literals that fit. */
  ghost predicate Allows(good: Targets -> bool, fits: Range -> bool, ok: Range -> bool) {
    && (forall t, r :: good(t) && r in t.Regions() ==> ok(r))
    && (forall r :: fits(r) ==> ok(r))
  }

  lemma {:induction false} MarkAllKeeps(marks: Marks, regions: seq<Range>, category: Category, ok: Range -> bool)
    requires KeysOk(marks, ok) && forall r :: r in regions ==> ok(r)
    ensures KeysOk(MarkAll(marks, regions, category), ok)
    decreases |regions|
  {
    if regions != [] { MarkAllKeeps(marks[regions[0] := category], regions[1..], category, ok); }
  }

  lemma {:induction false} MarkArgumentsKeeps(source: Text, arguments: seq<Expression>, scopes: seq<Bindings>,
                                              sensitive: seq<(nat, Category)>, marks: Marks,
                                              good: Targets -> bool, fits: Range -> bool, ok: Range -> bool)
    requires Closed(source, good, fits) && Allows(good, fits, ok) && GoodScopes(scopes, good)
    requires KeysOk(marks, ok) && !AnyNodeOf(arguments, Unfit(source, fits))
    ensures KeysOk(MarkArguments(source, arguments, scopes, sensitive, marks), ok)
    decreases |sensitive|
  {
    if sensitive != [] {
      var (index, category) := sensitive[0];
      var next := marks;
      if index < |arguments| {
        NodeOfMember(arguments, index, Unfit(source, fits));
        SnapshotKeeps(source, arguments[index], scopes, good, fits);
        var regions := Snapshot(source, arguments[index], scopes).Regions();
        MarkAllKeeps(marks, regions, category, ok);
        next := MarkAll(marks, regions, category);
      }
      MarkArgumentsKeeps(source, arguments, scopes, sensitive[1..], next, good, fits, ok);
    }
  }

  lemma {:induction false} MarkKeeps(source: Text, e: Expression, scopes: seq<Bindings>, marks: Marks,
                                     good: Targets -> bool, fits: Range -> bool, ok: Range -> bool)
    requires Closed(source, good, fits) && Allows(good, fits, ok) && GoodScopes(scopes, good)
    requires KeysOk(marks, ok) && !AnyNode(e, Unfit(source, fits))
    ensures KeysOk(Mark(source, e, scopes, marks), ok)
    decreases Size(e)
  {
    InnerScopeIsGood(source, scopes, if e.Lambda? then e.parameters else [], good, fits);
    match e
    case StringLiteral(_, _, _) =>
    case Atom(_) =>
    case Template(_, _, secretLike, holes) =>
      MarkEachKeeps(source, holes, scopes, MarkSecretLike(marks, secretLike, TokenOf(source, e)), good, fits, ok);
    case Variable(_, _) =>
    case Compound(_, _, operands) => MarkEachKeeps(source, operands, scopes, marks, good, fits, ok);
    case BlockValue(_, body) => MarkBlockKeeps(source, body, scopes + [map[]], marks, good, fits, ok);
    case If(_, condition, consequent, alternative) =>
      MarkKeeps(source, condition, scopes, marks, good, fits, ok);
      var m := Mark(source, condition, scopes, marks);
      MarkBlockKeeps(source, consequent, scopes + [map[]], m, good, fits, ok);
      MarkKeeps(source, alternative, scopes, MarkBlock(source, consequent, scopes + [map[]], m), good, fits, ok);
    case Lambda(_, parameters, body) =>
      MarkBlockKeeps(source, body, scopes + [Opaque(parameters)] + [map[]], marks, good, fits, ok);
    case Call(_, callee, arguments) =>
      MarkKeeps(source, callee, scopes, marks, good, fits, ok);
      var m := Mark(source, callee, scopes, marks);
      MarkEachKeeps(source, arguments, scopes, m, good, fits, ok);
      if callee.Variable? {
        MarkArgumentsKeeps(source, arguments, scopes, SensitiveArguments(callee.name),
                           MarkEach(source, arguments, scopes, m), good, fits, ok);
      }
    case Match(_, subject, arms) =>
      MarkKeeps(source, subject, scopes, marks, good, fits, ok);
      MarkEachKeeps(source, arms, scopes, Mark(source, subject, scopes, marks), good, fits, ok);
    case Binary(_, left, right) =>
      MarkKeeps(source, left, scopes, marks, good, fits, ok);
      MarkKeeps(source, right, scopes, Mark(source, left, scopes, marks), good, fits, ok);
  }

  lemma {:induction false} MarkEachKeeps(source: Text, es: seq<Expression>, scopes: seq<Bindings>, marks: Marks,
                                         good: Targets -> bool, fits: Range -> bool, ok: Range -> bool)
    requires Closed(source, good, fits) && Allows(good, fits, ok) && GoodScopes(scopes, good)
    requires KeysOk(marks, ok) && !AnyNodeOf(es, Unfit(source, fits))
    ensures KeysOk(MarkEach(source, es, scopes, marks), ok)
    decreases SizeAll(es)
  {
    if es != [] {
      MarkKeeps(source, es[0], scopes, marks, good, fits, ok);
      MarkEachKeeps(source, es[1..], scopes, Mark(source, es[0], scopes, marks), good, fits, ok);
    }
  }

  lemma {:induction false} MarkBlockKeeps(source: Text, b: Block, scopes: seq<Bindings>, marks: Marks,
                                          good: Targets -> bool, fits: Range -> bool, ok: Range -> bool)
    requires Closed(source, good, fits) && Allows(good, fits, ok) && scopes != [] && GoodScopes(scopes, good)
    requires KeysOk(marks, ok) && !AnyNodeIn(b, Unfit(source, fits))
    ensures KeysOk(MarkBlock(source, b, scopes, marks), ok)
    decreases SizeBlock(b)
  {
    if b.statements != [] {
      var rest, head := Rest(b), b.statements[0];
      MarkStatementKeeps(source, head, scopes, marks, good, fits, ok);
      DeclareKeeps(source, head, scopes, good, fits);
      MarkBlockKeeps(source, rest, Declare(source, head, scopes), MarkStatement(source, head, scopes, marks), good,
                     fits, ok);
    } else if b.tail.Some? {
      MarkKeeps(source, b.tail.value, scopes, marks, good, fits, ok);
    }
  }

  lemma {:induction false} MarkStatementKeeps(source: Text, s: Statement, scopes: seq<Bindings>, marks: Marks,
                                              good: Targets -> bool, fits: Range -> bool, ok: Range -> bool)
    requires Closed(source, good, fits) && Allows(good, fits, ok) && GoodScopes(scopes, good)
    requires KeysOk(marks, ok) && !AnyNodeAt(s, Unfit(source, fits))
    ensures KeysOk(MarkStatement(source, s, scopes, marks), ok)
    decreases SizeStatement(s)
  {
    match s
    case Let(_, value) => MarkKeeps(source, value, scopes, marks, good, fits, ok);
    case LetElse(_, value, arm) =>
      MarkKeeps(source, value, scopes, marks, good, fits, ok);
      MarkKeeps(source, arm, scopes, Mark(source, value, scopes, marks), good, fits, ok);
    case Handler(_, resource, parameters, body) =>
      InnerScopeIsGood(source, scopes, parameters, good, fits);
      MarkBlockKeeps(source, body, scopes + [Opaque(parameters)] + [map[]], MarkResource(source, resource, marks),
                     good, fits, ok);
    case Evaluate(value) => MarkKeeps(source, value, scopes, marks, good, fits, ok);
  }

  /** Every emitted span is fine. */
  lemma SpansKeep(source: Text, program: seq<Statement>, good: Targets -> bool, fits: Range -> bool, ok: Range -> bool)
    requires Closed(source, good, fits) && Allows(good, fits, ok)
    requires !AnyNodeIn(Block(program, None), Unfit(source, fits))
    ensures KeysOk(SensitiveSpans(source, program), ok)
  {
    MarkBlockKeeps(source, Block(program, None), [map[]], map[], good, fits, ok);
  }

  // ----- Character boundaries

  function OnBoundaries(source: Text): Range -> bool {
    range => RegionOk(range, Boundaries(source))
  }

  function AllOnBoundaries(source: Text): Targets -> bool {
    (t: Targets) => AllOk(t.Regions(), Boundaries(source))
  }

  lemma BoundariesAreClosed(source: Text)
    ensures Closed(source, AllOnBoundaries(source), OnBoundaries(source))
    ensures Allows(AllOnBoundaries(source), OnBoundaries(source), OnBoundaries(source))
  {
    var good, fits, boundary := AllOnBoundaries(source), OnBoundaries(source), Boundaries(source);
    assert NOTHING.Regions() == [] && UNTRACEABLE.Regions() == [];
    forall t, span | good(t) && fits(span) ensures good(AddSpan(t, span)) { AddSpanOk(t, span, boundary); }
    forall t, u | good(t) && good(u) ensures good(Merge(t, u)) { MergeOk(t, u, boundary); }
    forall t, start: nat, end: nat | good(t) && t.overflowed && CharRange(source, start, end).Some?
      ensures good(AddRange(t, CharRange(source, start, end).value))
    {
      AddRangeOk(t, CharRange(source, start, end).value, boundary);
    }
    forall t, r | good(t) && r in t.Regions() ensures fits(r) {
      var i :| 0 <= i < |t.Regions()| && t.Regions()[i] == r;
    }
  }

  lemma TokensAreOnBoundaries(source: Text, e: Expression)
    requires WellFormed(source)
    ensures !Unfit(source, OnBoundaries(source))(e)
  {
    if IsLiteral(e) {
      ContentOnBoundaries(source, e.span.0, e.span.1);
      TemplateOnBoundaries(source, e.span.0, e.span.1);
      var token := TokenOf(source, e);
      if token.Some? {
        var (start, end) := token.value;
        assert Boundaries(source)(start) && Boundaries(source)(end);
        assert OnBoundaries(source)(token.value);
      }
    }
  }

  /** In every program of well-formed text, every emitted span is in the text on
      character boundaries, so cutting at its ends never panics. */
  lemma EverySpanIsOnBoundaries(source: Text, program: seq<Statement>, r: Range)
    requires WellFormed(source) && r in SensitiveSpans(source, program)
    ensures r.0 <= r.1 <= |source| && IsBoundary(source, r.0) && IsBoundary(source, r.1)
  {
    forall e ensures !Unfit(source, OnBoundaries(source))(e) { TokensAreOnBoundaries(source, e); }
    NoNodeIn(Block(program, None), Unfit(source, OnBoundaries(source)));
    BoundariesAreClosed(source);
    SpansKeep(source, program, AllOnBoundaries(source), OnBoundaries(source), OnBoundaries(source));
    assert OnBoundaries(source)(r);
  }

  // ----- A test that nothing passes

  lemma {:induction false} NoNode(e: Expression, test: Expression -> bool)
    requires forall x :: !test(x)
    ensures !AnyNode(e, test)
    decreases Size(e)
  {
    match e
    case StringLiteral(_, _, _) =>
    case Atom(_) =>
    case Template(_, _, _, holes) => NoNodeOf(holes, test);
    case Variable(_, _) =>
    case Compound(_, _, operands) => NoNodeOf(operands, test);
    case BlockValue(_, body) => NoNodeIn(body, test);
    case If(_, condition, consequent, alternative) =>
      NoNode(condition, test); NoNodeIn(consequent, test); NoNode(alternative, test);
    case Lambda(_, _, body) => NoNodeIn(body, test);
    case Call(_, callee, arguments) => NoNode(callee, test); NoNodeOf(arguments, test);
    case Match(_, subject, arms) => NoNode(subject, test); NoNodeOf(arms, test);
    case Binary(_, left, right) => NoNode(left, test); NoNode(right, test);
  }

  lemma {:induction false} NoNodeOf(es: seq<Expression>, test: Expression -> bool)
    requires forall x :: !test(x)
    ensures !AnyNodeOf(es, test)
    decreases SizeAll(es)
  {
    if es != [] { NoNode(es[0], test); NoNodeOf(es[1..], test); }
  }

  lemma {:induction false} NoNodeIn(b: Block, test: Expression -> bool)
    requires forall x :: !test(x)
    ensures !AnyNodeIn(b, test)
    decreases SizeBlock(b)
  {
    if b.statements != [] {
      var rest := Rest(b);
      NoNodeAt(b.statements[0], test);
      NoNodeIn(rest, test);
    } else if b.tail.Some? {
      NoNode(b.tail.value, test);
    }
  }

  lemma {:induction false} NoNodeAt(s: Statement, test: Expression -> bool)
    requires forall x :: !test(x)
    ensures !AnyNodeAt(s, test)
    decreases SizeStatement(s)
  {
    match s
    case Let(_, value) => NoNode(value, test);
    case LetElse(_, value, arm) => NoNode(value, test); NoNode(arm, test);
    case Handler(_, _, _, body) => NoNodeIn(body, test);
    case Evaluate(value) => NoNode(value, test);
  }
}
