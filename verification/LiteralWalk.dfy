/** The walks as the source runs them.  They recurse neither into the alternative
    of an `if` nor into the left operand of an operator: a loop moves on to those
    and keeps the right operands on a stack.  Nodes are visited once, by span
    (`crates/krit-assist/src/context.rs`). */
module LiteralWalk {
  import opened Utf8
  import opened Wrappers
  import opened RedactionTargets
  import opened SourceSpans
  import opened Ast
  import opened LiteralFlow

  // ----- The stack of pending operands, last on top

  function StackSize(stack: seq<Expression>): nat {
    if stack == [] then 0 else StackSize(stack[..|stack| - 1]) + Size(stack[|stack| - 1])
  }

  function StackSpans(stack: seq<Expression>): set<Span> {
    if stack == [] then {} else StackSpans(stack[..|stack| - 1]) + SpansOf(stack[|stack| - 1])
  }

  predicate DistinctStack(stack: seq<Expression>) {
    stack == [] ||
    (var top, below := stack[|stack| - 1], stack[..|stack| - 1];
     Distinct(top) && DistinctStack(below) && SpansOf(top) !! StackSpans(below))
  }

  function CollectStack(source: Text, stack: seq<Expression>, scopes: seq<Bindings>, t: Targets): Targets {
    if stack == [] then t
    else CollectStack(source, stack[..|stack| - 1], scopes, Collect(source, stack[|stack| - 1], scopes, t))
  }

  function MarkStack(source: Text, stack: seq<Expression>, scopes: seq<Bindings>, marks: Marks): Marks {
    if stack == [] then marks
    else MarkStack(source, stack[..|stack| - 1], scopes, Mark(source, stack[|stack| - 1], scopes, marks))
  }

  lemma Pushed(source: Text, stack: seq<Expression>, top: Expression, scopes: seq<Bindings>)
    ensures StackSize(stack + [top]) == StackSize(stack) + Size(top)
    ensures StackSpans(stack + [top]) == StackSpans(stack) + SpansOf(top)
    ensures DistinctStack(stack + [top]) <==> Distinct(top) && DistinctStack(stack) && SpansOf(top) !! StackSpans(stack)
    ensures forall t :: CollectStack(source, stack + [top], scopes, t) ==
                        CollectStack(source, stack, scopes, Collect(source, top, scopes, t))
    ensures forall m :: MarkStack(source, stack + [top], scopes, m) ==
                        MarkStack(source, stack, scopes, Mark(source, top, scopes, m))
  {
    assert (stack + [top])[..|stack|] == stack;
  }

  // ----- Collecting

  /** What is still to do: visited, current and pending spans partition what
      the walk is to visit. */
  ghost predicate Pending(visited: set<Span>, current: Expression, stack: seq<Expression>, all: set<Span>) {
    && Distinct(current) && DistinctStack(stack)
    && visited !! SpansOf(current) && visited !! StackSpans(stack) && SpansOf(current) !! StackSpans(stack)
    && visited + SpansOf(current) + StackSpans(stack) == all
  }

  lemma IfPending(visited: set<Span>, current: Expression, stack: seq<Expression>, all: set<Span>)
    requires Pending(visited, current, stack, all) && current.If?
    ensures var marked := visited + {current.span};
            && Distinct(current.condition) && SpansOf(current.condition) !! marked
            && DistinctBlock(current.consequent)
            && SpansOfBlock(current.consequent) !! marked + SpansOf(current.condition)
            && Pending(marked + SpansOf(current.condition) + SpansOfBlock(current.consequent), current.alternative,
                       stack, all)
  {
  }

  lemma BinaryPending(visited: set<Span>, current: Expression, stack: seq<Expression>, all: set<Span>)
    requires Pending(visited, current, stack, all) && current.Binary?
    ensures Pending(visited + {current.span}, current.left, stack + [current.right], all)
    ensures StackSize(stack + [current.right]) == StackSize(stack) + Size(current.right)
  {
    Pushed([], stack, current.right, []);
  }

  lemma NextPending(visited: set<Span>, current: Expression, stack: seq<Expression>, all: set<Span>)
    requires Pending(visited, current, stack, all)
    ensures if stack == [] then visited + SpansOf(current) == all
            else Pending(visited + SpansOf(current), stack[|stack| - 1], stack[..|stack| - 1], all)
  {
  }

  lemma Unseen(visited: set<Span>, current: Expression, stack: seq<Expression>, all: set<Span>)
    requires Pending(visited, current, stack, all)
    ensures current.span !in visited && current.span in SpansOf(current)
    ensures visited + {current.span} + SpansOf(current) == visited + SpansOf(current)
    ensures SpansOf(current) !! visited + {current.span} - {current.span}
  {
  }

  /** The same with what is collected so far, which leads to `goal`. */
  ghost predicate Underway(source: Text, scopes: seq<Bindings>, visited: set<Span>, current: Expression,
                           stack: seq<Expression>, t: Targets, all: set<Span>, goal: Targets) {
    && Pending(visited, current, stack, all)
    && CollectStack(source, stack, scopes, Collect(source, current, scopes, t)) == goal
  }

  function Left(current: Expression, stack: seq<Expression>): nat {
    Size(current) + StackSize(stack)
  }

  lemma IfStep(source: Text, scopes: seq<Bindings>, visited: set<Span>, current: Expression, stack: seq<Expression>,
               t: Targets, all: set<Span>, goal: Targets, visited': set<Span>, t': Targets)
    requires Underway(source, scopes, visited, current, stack, t, all, goal) && current.If?
    requires visited' == visited + {current.span} + SpansOf(current.condition) + SpansOfBlock(current.consequent)
    requires Collect(source, current.alternative, scopes, t') == Collect(source, current, scopes, t)
    ensures Underway(source, scopes, visited', current.alternative, stack, t', all, goal)
    ensures Left(current.alternative, stack) < Left(current, stack)
  {
    IfPending(visited, current, stack, all);
  }

  lemma BinaryStep(source: Text, scopes: seq<Bindings>, visited: set<Span>, current: Expression, stack: seq<Expression>,
                   t: Targets, all: set<Span>, goal: Targets)
    requires Underway(source, scopes, visited, current, stack, t, all, goal) && current.Binary?
    ensures Underway(source, scopes, visited + {current.span}, current.left, stack + [current.right], t, all, goal)
    ensures Left(current.left, stack + [current.right]) < Left(current, stack)
  {
    BinaryPending(visited, current, stack, all);
    Pushed(source, stack, current.right, scopes);
  }

  lemma NextStep(source: Text, scopes: seq<Bindings>, visited: set<Span>, current: Expression, stack: seq<Expression>,
                 t: Targets, all: set<Span>, goal: Targets, visited': set<Span>, t': Targets)
    requires Underway(source, scopes, visited, current, stack, t, all, goal)
    requires visited' == visited + {current.span} + SpansOf(current) && t' == Collect(source, current, scopes, t)
    ensures if stack == [] then visited' == all && t' == goal
            else && Underway(source, scopes, visited', stack[|stack| - 1], stack[..|stack| - 1], t', all, goal)
                 && Left(stack[|stack| - 1], stack[..|stack| - 1]) < Left(current, stack)
  {
    Unseen(visited, current, stack, all);
    NextPending(visited, current, stack, all);
    assert Size(current) > 0;
  }

  /** `collect`: with distinct spans, the loop collects what plain recursion
      does. */
  method CollectExpression(source: Text, e: Expression, scopes: seq<Bindings>, seen: set<Span>, t: Targets)
    returns (visited: set<Span>, targets: Targets)
    requires Distinct(e) && SpansOf(e) !! seen
    ensures targets == Collect(source, e, scopes, t) && visited == seen + SpansOf(e)
    decreases Size(e), 1
  {
    visited, targets := seen, t;
    var stack: seq<Expression> := [];
    var current := e;
    ghost var all, goal := seen + SpansOf(e), Collect(source, e, scopes, t);
    while true
      invariant Underway(source, scopes, visited, current, stack, targets, all, goal)
      invariant Left(current, stack) <= Size(e)
      decreases Left(current, stack)
    {
      Unseen(visited, current, stack, all);
      ghost var before, earlier := visited, targets;
      if current.span !in visited {
        if current.If? {
          IfPending(visited, current, stack, all);
          visited := visited + {current.span};
          visited, targets := CollectBranch(source, current, scopes, visited, targets);
          IfStep(source, scopes, before, current, stack, earlier, all, goal, visited, targets);
          current := current.alternative;
          continue;
        }
        if current.Binary? {
          BinaryStep(source, scopes, visited, current, stack, targets, all, goal);
          visited := visited + {current.span};
          stack := stack + [current.right];
          current := current.left;
          continue;
        }
        visited := visited + {current.span};
        visited, targets := CollectOperands(source, current, scopes, visited, targets);
      }
      NextStep(source, scopes, before, current, stack, earlier, all, goal, visited, targets);
      if stack == [] {
        break;
      }
      current := stack[|stack| - 1];
      stack := stack[..|stack| - 1];
    }
  }

  /** The condition and consequent of an `if`. */
  method CollectBranch(source: Text, e: Expression, scopes: seq<Bindings>, seen: set<Span>, t: Targets)
    returns (visited: set<Span>, targets: Targets)
    requires e.If? && Distinct(e.condition) && SpansOf(e.condition) !! seen
    requires DistinctBlock(e.consequent) && SpansOfBlock(e.consequent) !! seen + SpansOf(e.condition)
    ensures Collect(source, e.alternative, scopes, targets) == Collect(source, e, scopes, t)
    ensures visited == seen + SpansOf(e.condition) + SpansOfBlock(e.consequent)
    decreases Size(e), 0
  {
    visited, targets := CollectExpression(source, e.condition, scopes, seen, t);
    visited, targets := CollectStatements(source, e.consequent, scopes, visited, targets);
  }

  /** The kinds off the spine, once marked as visited. */
  method CollectOperands(source: Text, e: Expression, scopes: seq<Bindings>, seen: set<Span>, t: Targets)
    returns (visited: set<Span>, targets: Targets)
    requires Distinct(e) && !e.If? && !e.Binary? && SpansOf(e) !! seen - {e.span} && e.span in seen
    ensures targets == Collect(source, e, scopes, t) && visited == seen + SpansOf(e)
    decreases Size(e), 0
  {
    visited, targets := seen, t;
    match e
    case StringLiteral(_, _, _) =>
      targets := AddContent(t, TokenOf(source, e));
    case Template(_, _, _, holes) =>
      targets := AddContent(t, TokenOf(source, e));
      visited, targets := CollectEach(source, holes, scopes, visited, targets);
    case Atom(_) =>
    case Variable(_, name) =>
      var bound := Resolve(scopes, name);
      if bound.Some? {
        targets := Merge(t, bound.value);
      }
    case Compound(_, _, operands) => visited, targets := CollectEach(source, operands, scopes, visited, targets);
    case BlockValue(_, body) => visited, targets := CollectStatements(source, body, scopes, visited, targets);
    case Lambda(_, _, body) => visited, targets := CollectStatements(source, body, scopes, visited, targets);
    case Call(_, callee, arguments) =>
      visited, targets := CollectExpression(source, callee, scopes, visited, targets);
      visited, targets := CollectEach(source, arguments, scopes, visited, targets);
    case Match(_, subject, arms) =>
      visited, targets := CollectExpression(source, subject, scopes, visited, targets);
      visited, targets := CollectEach(source, arms, scopes, visited, targets);
  }

  /** The loop over operands, arguments or arms. */
  method CollectEach(source: Text, es: seq<Expression>, scopes: seq<Bindings>, seen: set<Span>, t: Targets)
    returns (visited: set<Span>, targets: Targets)
    requires DistinctAll(es) && SpansOfAll(es) !! seen
    ensures targets == CollectAll(source, es, scopes, t) && visited == seen + SpansOfAll(es)
    decreases SizeAll(es), 0
  {
    visited, targets := seen, t;
    for i := 0 to |es|
      invariant DistinctAll(es[i..]) && SpansOfAll(es[i..]) !! visited && SizeAll(es[i..]) <= SizeAll(es)
      invariant visited + SpansOfAll(es[i..]) == seen + SpansOfAll(es)
      invariant CollectAll(source, es[i..], scopes, targets) == CollectAll(source, es, scopes, t)
    {
      assert es[i..][1..] == es[i + 1..];
      visited, targets := CollectExpression(source, es[i], scopes, visited, targets);
    }
  }

  /** `collect_block`. */
  method CollectStatements(source: Text, b: Block, scopes: seq<Bindings>, seen: set<Span>, t: Targets)
    returns (visited: set<Span>, targets: Targets)
    requires DistinctBlock(b) && SpansOfBlock(b) !! seen
    ensures targets == CollectBlock(source, b, scopes, t) && visited == seen + SpansOfBlock(b)
    decreases SizeBlock(b), 0
  {
    visited, targets := seen, t;
    ghost var rest := b;
    for i := 0 to |b.statements|
      invariant rest == Block(b.statements[i..], b.tail)
      invariant DistinctBlock(rest) && SpansOfBlock(rest) !! visited && SizeBlock(rest) <= SizeBlock(b)
      invariant visited + SpansOfBlock(rest) == seen + SpansOfBlock(b)
      invariant CollectBlock(source, rest, scopes, targets) == CollectBlock(source, b, scopes, t)
    {
      assert b.statements[i..][1..] == b.statements[i + 1..];
      rest := Rest(rest);
      visited, targets := CollectOne(source, b.statements[i], scopes, visited, targets);
    }
    if b.tail.Some? {
      visited, targets := CollectExpression(source, b.tail.value, scopes, visited, targets);
    }
  }

  method CollectOne(source: Text, s: Statement, scopes: seq<Bindings>, seen: set<Span>, t: Targets)
    returns (visited: set<Span>, targets: Targets)
    requires DistinctStatement(s) && SpansOfStatement(s) !! seen
    ensures targets == CollectStatement(source, s, scopes, t) && visited == seen + SpansOfStatement(s)
    decreases SizeStatement(s), 0
  {
    match s
    case Let(_, value) => visited, targets := CollectExpression(source, value, scopes, seen, t);
    case LetElse(_, value, arm) =>
      visited, targets := CollectExpression(source, value, scopes, seen, t);
      visited, targets := CollectExpression(source, arm, scopes, visited, targets);
    case Evaluate(value) => visited, targets := CollectExpression(source, value, scopes, seen, t);
    case Handler(_, _, _, body) => visited, targets := CollectStatements(source, body, scopes, seen, t);
  }

  /** `snapshot`. */
  method TakeSnapshot(source: Text, e: Expression, scopes: seq<Bindings>) returns (targets: Targets)
    requires Distinct(e)
    ensures targets == Snapshot(source, e, scopes)
  {
    var _, collected := CollectExpression(source, e, scopes, {}, NOTHING);
    targets := collected;
    if targets.overflowed {
      var range := CharBoundaryRange(source, e.span.0, e.span.1);
      if range.Some? {
        targets := AddRange(targets, range.value);
      }
    }
  }

  // ----- Marking

  lemma MarkOfIf(source: Text, e: Expression, scopes: seq<Bindings>, marks: Marks)
    requires e.If? && Distinct(e)
    ensures Distinct(e.condition) && DistinctBlock(e.consequent) && Distinct(e.alternative)
    ensures Size(e) == 1 + Size(e.condition) + SizeBlock(e.consequent) + Size(e.alternative)
    ensures Mark(source, e, scopes, marks) ==
            Mark(source, e.alternative, scopes,
                 MarkBlock(source, e.consequent, scopes + [map[]], Mark(source, e.condition, scopes, marks)))
  {
  }

  lemma MarkOfBinary(source: Text, e: Expression, stack: seq<Expression>, scopes: seq<Bindings>, marks: Marks)
    requires e.Binary? && Distinct(e)
    ensures Distinct(e.left) && Distinct(e.right)
    ensures Size(e.left) + StackSize(stack + [e.right]) < Size(e) + StackSize(stack)
    ensures MarkStack(source, stack + [e.right], scopes, Mark(source, e.left, scopes, marks)) ==
            MarkStack(source, stack, scopes, Mark(source, e, scopes, marks))
  {
    Pushed(source, stack, e.right, scopes);
  }

  /** The walk over a program, with the scopes it pushes and pops and the spans
      it has emitted. */
  class Walker {
    const source: Text
    var scopes: seq<Bindings>
    var marks: Marks

    constructor (source: Text)
      ensures this.source == source && scopes == [map[]] && marks == map[]
    {
      this.source, scopes, marks := source, [map[]], map[];
    }

    /** `ast_sensitive_literal_spans`. */
    method Program(program: seq<Statement>)
      requires scopes == [map[]] && marks == map[] && DistinctBlock(Block(program, None))
      modifies this
      ensures marks == SensitiveSpans(source, program)
    {
      ghost var rest := Block(program, None);
      for i := 0 to |program|
        invariant rest == Block(program[i..], None) && DistinctBlock(rest) && scopes != []
        invariant MarkBlock(source, rest, scopes, marks) == SensitiveSpans(source, program)
      {
        assert program[i..][1..] == program[i + 1..];
        rest := Rest(rest);
        StatementSpans(program[i]);
        DeclareStatement(program[i]);
      }
    }

    /** `declare`. */
    method DeclareStatement(s: Statement)
      requires scopes != [] && DistinctStatement(s)
      modifies this`scopes
      ensures scopes == Declare(source, s, old(scopes))
    {
      if s.Let? || (s.LetElse? && s.binder.Some?) {
        var name := if s.Let? then s.name else s.binder.value;
        var targets := TakeSnapshot(source, s.value, scopes);
        var last := |scopes| - 1;
        scopes := scopes[last := scopes[last][name := targets]];
      }
    }

    /** `statement_spans`. */
    method StatementSpans(s: Statement)
      requires scopes != [] && DistinctStatement(s)
      modifies this
      ensures scopes == old(scopes) && marks == MarkStatement(source, s, scopes, old(marks))
      decreases SizeStatement(s), 0
    {
      match s
      case Let(_, value) => ExpressionSpans(value);
      case LetElse(_, value, arm) => ExpressionSpans(value); ExpressionSpans(arm);
      case Handler(_, resource, parameters, body) =>
        marks := MarkResource(source, resource, marks);
        ghost var outer := scopes;
        scopes := scopes + [Opaque(parameters)];
        BlockSpans(body);
        scopes := scopes[..|scopes| - 1];
        assert scopes == outer;
      case Evaluate(value) => ExpressionSpans(value);
    }

    /** `block_spans`. */
    method BlockSpans(b: Block)
      requires DistinctBlock(b)
      modifies this
      ensures scopes == old(scopes) && marks == MarkBlock(source, b, scopes + [map[]], old(marks))
      decreases SizeBlock(b), 0
    {
      ghost var outer := scopes;
      scopes := scopes + [map[]];
      ghost var inner := scopes;
      ghost var rest := b;
      for i := 0 to |b.statements|
        invariant rest == Block(b.statements[i..], b.tail) && DistinctBlock(rest) && SizeBlock(rest) <= SizeBlock(b)
        invariant |scopes| == |outer| + 1 && scopes[..|outer|] == outer
        invariant MarkBlock(source, rest, scopes, marks) == MarkBlock(source, b, inner, old(marks))
      {
        assert b.statements[i..][1..] == b.statements[i + 1..];
        rest := Rest(rest);
        StatementSpans(b.statements[i]);
        DeclareStatement(b.statements[i]);
      }
      if b.tail.Some? {
        ExpressionSpans(b.tail.value);
      }
      scopes := scopes[..|scopes| - 1];
    }

    /** `expression_spans`: the loop marks what plain recursion does. */
    method ExpressionSpans(e: Expression)
      requires Distinct(e)
      modifies this
      ensures scopes == old(scopes) && marks == Mark(source, e, scopes, old(marks))
      decreases Size(e), 1
    {
      var stack: seq<Expression> := [];
      var current := e;
      ghost var goal := Mark(source, e, scopes, marks);
      while true
        invariant scopes == old(scopes) && Distinct(current) && AllDistinct(stack)
        invariant MarkStack(source, stack, scopes, Mark(source, current, scopes, marks)) == goal
        invariant Size(current) + StackSize(stack) <= Size(e)
        decreases Size(current) + StackSize(stack)
      {
        if current.If? {
          BranchSpans(current);
          current := current.alternative;
          continue;
        }
        if current.Binary? {
          MarkOfBinary(source, current, stack, scopes, marks);
          AllDistinctPushed(stack, current.right);
          stack := stack + [current.right];
          current := current.left;
          continue;
        }
        OperandSpans(current);
        if stack == [] {
          break;
        }
        MarkOfTop(source, stack, scopes, marks);
        current := stack[|stack| - 1];
        stack := stack[..|stack| - 1];
      }
    }

    /** The condition and consequent of an `if`. */
    method BranchSpans(e: Expression)
      requires Distinct(e) && e.If?
      modifies this
      ensures scopes == old(scopes) && Mark(source, e.alternative, scopes, marks) == Mark(source, e, scopes, old(marks))
      ensures Distinct(e.alternative) && Size(e.alternative) < Size(e)
      decreases Size(e), 0
    {
      MarkOfIf(source, e, scopes, marks);
      ExpressionSpans(e.condition);
      BlockSpans(e.consequent);
    }

    /** The kinds off the spine. */
    method OperandSpans(e: Expression)
      requires Distinct(e) && !e.If? && !e.Binary?
      modifies this
      ensures scopes == old(scopes) && marks == Mark(source, e, scopes, old(marks))
      decreases Size(e), 0
    {
      match e
      case StringLiteral(_, _, secretLike) =>
        marks := MarkSecretLike(marks, secretLike, TokenOf(source, e));
      case Template(_, _, secretLike, holes) =>
        marks := MarkSecretLike(marks, secretLike, TokenOf(source, e));
        EachSpans(holes);
      case Atom(_) =>
      case Variable(_, _) =>
      case Compound(_, _, operands) => EachSpans(operands);
      case BlockValue(_, body) => BlockSpans(body);
      case Lambda(_, parameters, body) =>
        ghost var outer := scopes;
        scopes := scopes + [Opaque(parameters)];
        BlockSpans(body);
        scopes := scopes[..|scopes| - 1];
        assert scopes == outer;
      case Call(_, callee, arguments) =>
        ExpressionSpans(callee);
        EachSpans(arguments);
        if callee.Variable? {
          ArgumentSpans(SensitiveArguments(callee.name), arguments);
        }
      case Match(_, subject, arms) =>
        ExpressionSpans(subject);
        EachSpans(arms);
    }

    method EachSpans(es: seq<Expression>)
      requires DistinctAll(es)
      modifies this
      ensures scopes == old(scopes) && marks == MarkEach(source, es, scopes, old(marks))
      decreases SizeAll(es), 0
    {
      for i := 0 to |es|
        invariant scopes == old(scopes) && DistinctAll(es[i..]) && SizeAll(es[i..]) <= SizeAll(es)
        invariant MarkEach(source, es[i..], scopes, marks) == MarkEach(source, es, scopes, old(marks))
      {
        assert es[i..][1..] == es[i + 1..];
        ExpressionSpans(es[i]);
      }
    }

    /** The sensitive arguments of one call. */
    method ArgumentSpans(sensitive: seq<(nat, Category)>, arguments: seq<Expression>)
      requires DistinctAll(arguments)
      modifies this`marks
      ensures marks == MarkArguments(source, arguments, scopes, sensitive, old(marks))
    {
      for i := 0 to |sensitive|
        invariant MarkArguments(source, arguments, scopes, sensitive[i..], marks) ==
                  MarkArguments(source, arguments, scopes, sensitive, old(marks))
      {
        assert sensitive[i..][1..] == sensitive[i + 1..];
        var (index, category) := sensitive[i];
        if index < |arguments| {
          DistinctMember(arguments, index);
          var snapshot := TakeSnapshot(source, arguments[index], scopes);
          InsertRegions(snapshot.Regions(), category);
        }
      }
    }

    method InsertRegions(regions: seq<Range>, category: Category)
      modifies this`marks
      ensures marks == MarkAll(old(marks), regions, category)
    {
      for i := 0 to |regions|
        invariant MarkAll(marks, regions[i..], category) == MarkAll(old(marks), regions, category)
      {
        assert regions[i..][1..] == regions[i + 1..];
        marks := marks[regions[i] := category];
      }
    }
  }

  lemma MarkOfTop(source: Text, stack: seq<Expression>, scopes: seq<Bindings>, marks: Marks)
    requires stack != [] && AllDistinct(stack)
    ensures var top, below := stack[|stack| - 1], stack[..|stack| - 1];
            && Distinct(top) && AllDistinct(below) && StackSize(stack) == Size(top) + StackSize(below)
            && MarkStack(source, stack, scopes, marks) ==
               MarkStack(source, below, scopes, Mark(source, top, scopes, marks))
  {
  }

  lemma AllDistinctPushed(stack: seq<Expression>, top: Expression)
    requires AllDistinct(stack) && Distinct(top)
    ensures AllDistinct(stack + [top])
  {
  }

  predicate AllDistinct(stack: seq<Expression>) {
    forall i :: 0 <= i < |stack| ==> Distinct(stack[i])
  }

  lemma {:induction false} DistinctMember(es: seq<Expression>, i: nat)
    requires DistinctAll(es) && i < |es|
    ensures Distinct(es[i])
  {
    if i > 0 { DistinctMember(es[1..], i - 1); }
  }
}
