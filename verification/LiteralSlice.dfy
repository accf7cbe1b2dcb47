/** What the literal-flow analysis means for the slice that leaves the machine:
    two texts that differ only in exposed bytes are redacted alike
    (`crates/krit-assist/src/context.rs`). */
module LiteralSlice {
  import opened Utf8
  import opened Wrappers
  import opened RedactionTargets
  import opened SourceSpans
  import opened Ast
  import opened LiteralFlow
  import opened LiteralReach
  import Intervals
  import RedactSlice

  // ----- Texts that the analysis does not tell apart

  /** Where the delimiters of a literal's node may stand, the texts have quotes
      at the same places. */
  predicate SameQuotes(source: Text, other: Text, e: Expression) {
    var reach := if e.Template? then 3 else 1;
    forall i :: 0 <= i < |source| && i < |other|
                && (e.span.0 <= i < e.span.0 + reach || e.span.1 - reach <= i < e.span.1) ==>
      (source[i] == QUOTE <==> other[i] == QUOTE)
  }

  function QuotesDiffer(source: Text, other: Text): Expression -> bool {
    e => IsLiteral(e) && !SameQuotes(source, other, e)
  }

  lemma SameLiteralContent(source: Text, other: Text, e: Expression)
    requires |source| == |other| && SameQuotes(source, other, e)
    ensures LiteralContentSpan(source, e.span.0, e.span.1) == LiteralContentSpan(other, e.span.0, e.span.1)
  {
  }

  lemma SameTriples(source: Text, other: Text, e: Expression)
    requires |source| == |other| && SameQuotes(source, other, e) && e.Template?
    ensures HasTripleQuotes(source, e.span.0, e.span.1) <==> HasTripleQuotes(other, e.span.0, e.span.1)
  {
    var (start, end) := e.span;
    if start + 6 <= end <= |source| {
      TripleAt(source, start);
      TripleAt(source, end - 3);
      TripleAt(other, start);
      TripleAt(other, end - 3);
    }
  }

  lemma TripleAt(s: Text, i: nat)
    requires i + 3 <= |s|
    ensures s[i..i + 3] == [QUOTE, QUOTE, QUOTE] <==> s[i] == QUOTE && s[i + 1] == QUOTE && s[i + 2] == QUOTE
  {
    assert s[i..i + 3] == [s[i], s[i + 1], s[i + 2]];
  }

  /** The source takes a literal for the same text in both. */
  lemma SameToken(source: Text, other: Text, e: Expression)
    requires SameCharacters(source, other) && IsLiteral(e) && !QuotesDiffer(source, other)(e)
    ensures TokenOf(source, e) == TokenOf(other, e)
  {
    SameLiteralContent(source, other, e);
    if e.Template? { SameTriples(source, other, e); }
  }

  // ----- The same snapshots

  lemma {:induction false} SameCollect(source: Text, other: Text, e: Expression, scopes: seq<Bindings>, t: Targets)
    requires SameCharacters(source, other) && !AnyNode(e, QuotesDiffer(source, other))
    ensures Collect(source, e, scopes, t) == Collect(other, e, scopes, t)
    decreases Size(e)
  {
    match e
    case StringLiteral(_, _, _) => SameToken(source, other, e);
    case Atom(_) =>
    case Template(_, _, _, holes) =>
      SameToken(source, other, e);
      SameCollectAll(source, other, holes, scopes, AddContent(t, TokenOf(source, e)));
    case Variable(_, _) =>
    case Compound(_, _, operands) => SameCollectAll(source, other, operands, scopes, t);
    case BlockValue(_, body) => SameCollectBlock(source, other, body, scopes, t);
    case If(_, condition, consequent, alternative) =>
      var u := Collect(source, condition, scopes, t);
      SameCollect(source, other, condition, scopes, t);
      SameCollectBlock(source, other, consequent, scopes, u);
      SameCollect(source, other, alternative, scopes, CollectBlock(source, consequent, scopes, u));
    case Lambda(_, _, body) => SameCollectBlock(source, other, body, scopes, t);
    case Call(_, callee, arguments) =>
      SameCollect(source, other, callee, scopes, t);
      SameCollectAll(source, other, arguments, scopes, Collect(source, callee, scopes, t));
    case Match(_, subject, arms) =>
      SameCollect(source, other, subject, scopes, t);
      SameCollectAll(source, other, arms, scopes, Collect(source, subject, scopes, t));
    case Binary(_, left, right) =>
      SameCollect(source, other, left, scopes, t);
      SameCollect(source, other, right, scopes, Collect(source, left, scopes, t));
  }

  lemma {:induction false} SameCollectAll(source: Text, other: Text, es: seq<Expression>, scopes: seq<Bindings>,
                                          t: Targets)
    requires SameCharacters(source, other) && !AnyNodeOf(es, QuotesDiffer(source, other))
    ensures CollectAll(source, es, scopes, t) == CollectAll(other, es, scopes, t)
    decreases SizeAll(es)
  {
    if es != [] {
      SameCollect(source, other, es[0], scopes, t);
      SameCollectAll(source, other, es[1..], scopes, Collect(source, es[0], scopes, t));
    }
  }

  lemma {:induction false} SameCollectBlock(source: Text, other: Text, b: Block, scopes: seq<Bindings>, t: Targets)
    requires SameCharacters(source, other) && !AnyNodeIn(b, QuotesDiffer(source, other))
    ensures CollectBlock(source, b, scopes, t) == CollectBlock(other, b, scopes, t)
    decreases SizeBlock(b)
  {
    if b.statements != [] {
      var rest := Rest(b);
      SameCollectStatement(source, other, b.statements[0], scopes, t);
      SameCollectBlock(source, other, rest, scopes, CollectStatement(source, b.statements[0], scopes, t));
    } else if b.tail.Some? {
      SameCollect(source, other, b.tail.value, scopes, t);
    }
  }

  lemma {:induction false} SameCollectStatement(source: Text, other: Text, s: Statement, scopes: seq<Bindings>,
                                                t: Targets)
    requires SameCharacters(source, other) && !AnyNodeAt(s, QuotesDiffer(source, other))
    ensures CollectStatement(source, s, scopes, t) == CollectStatement(other, s, scopes, t)
    decreases SizeStatement(s)
  {
    match s
    case Let(_, value) => SameCollect(source, other, value, scopes, t);
    case LetElse(_, value, arm) =>
      SameCollect(source, other, value, scopes, t);
      SameCollect(source, other, arm, scopes, Collect(source, value, scopes, t));
    case Handler(_, _, _, body) => SameCollectBlock(source, other, body, scopes, t);
    case Evaluate(value) => SameCollect(source, other, value, scopes, t);
  }

  lemma SameSnapshot(source: Text, other: Text, e: Expression, scopes: seq<Bindings>)
    requires SameCharacters(source, other) && !AnyNode(e, QuotesDiffer(source, other))
    ensures Snapshot(source, e, scopes) == Snapshot(other, e, scopes)
  {
    SameCollect(source, other, e, scopes, NOTHING);
    SameCharRange(source, other, e.span.0, e.span.1);
  }

  lemma SameDeclare(source: Text, other: Text, s: Statement, scopes: seq<Bindings>)
    requires SameCharacters(source, other) && scopes != [] && !AnyNodeAt(s, QuotesDiffer(source, other))
    ensures Declare(source, s, scopes) == Declare(other, s, scopes)
  {
    if s.Let? || (s.LetElse? && s.binder.Some?) { SameSnapshot(source, other, s.value, scopes); }
  }

  // ----- The same marks

  lemma {:induction false} SameArguments(source: Text, other: Text, arguments: seq<Expression>, scopes: seq<Bindings>,
                                         sensitive: seq<(nat, Category)>, marks: Marks)
    requires SameCharacters(source, other) && !AnyNodeOf(arguments, QuotesDiffer(source, other))
    ensures MarkArguments(source, arguments, scopes, sensitive, marks) ==
            MarkArguments(other, arguments, scopes, sensitive, marks)
    decreases |sensitive|
  {
    if sensitive != [] {
      var (index, category) := sensitive[0];
      var next := marks;
      if index < |arguments| {
        NodeOfMember(arguments, index, QuotesDiffer(source, other));
        SameSnapshot(source, other, arguments[index], scopes);
        next := MarkAll(marks, Snapshot(source, arguments[index], scopes).Regions(), category);
      }
      SameArguments(source, other, arguments, scopes, sensitive[1..], next);
    }
  }

  lemma {:induction false} SameMark(source: Text, other: Text, e: Expression, scopes: seq<Bindings>, marks: Marks)
    requires SameCharacters(source, other) && !AnyNode(e, QuotesDiffer(source, other))
    ensures Mark(source, e, scopes, marks) == Mark(other, e, scopes, marks)
    decreases Size(e)
  {
    match e
    case StringLiteral(_, _, _) => SameToken(source, other, e);
    case Atom(_) =>
    case Template(_, _, secretLike, holes) =>
      SameToken(source, other, e);
      SameMarkEach(source, other, holes, scopes, MarkSecretLike(marks, secretLike, TokenOf(source, e)));
    case Variable(_, _) =>
    case Compound(_, _, operands) => SameMarkEach(source, other, operands, scopes, marks);
    case BlockValue(_, body) => SameMarkBlock(source, other, body, scopes + [map[]], marks);
    case If(_, condition, consequent, alternative) =>
      var m := Mark(source, condition, scopes, marks);
      SameMark(source, other, condition, scopes, marks);
      SameMarkBlock(source, other, consequent, scopes + [map[]], m);
      SameMark(source, other, alternative, scopes, MarkBlock(source, consequent, scopes + [map[]], m));
    case Lambda(_, parameters, body) =>
      SameMarkBlock(source, other, body, scopes + [Opaque(parameters)] + [map[]], marks);
    case Call(_, callee, arguments) =>
      var m := Mark(source, callee, scopes, marks);
      SameMark(source, other, callee, scopes, marks);
      SameMarkEach(source, other, arguments, scopes, m);
      if callee.Variable? {
        SameArguments(source, other, arguments, scopes, SensitiveArguments(callee.name),
                      MarkEach(source, arguments, scopes, m));
      }
    case Match(_, subject, arms) =>
      SameMark(source, other, subject, scopes, marks);
      SameMarkEach(source, other, arms, scopes, Mark(source, subject, scopes, marks));
    case Binary(_, left, right) =>
      SameMark(source, other, left, scopes, marks);
      SameMark(source, other, right, scopes, Mark(source, left, scopes, marks));
  }

  lemma {:induction false} SameMarkEach(source: Text, other: Text, es: seq<Expression>, scopes: seq<Bindings>,
                                        marks: Marks)
    requires SameCharacters(source, other) && !AnyNodeOf(es, QuotesDiffer(source, other))
    ensures MarkEach(source, es, scopes, marks) == MarkEach(other, es, scopes, marks)
    decreases SizeAll(es)
  {
    if es != [] {
      SameMark(source, other, es[0], scopes, marks);
      SameMarkEach(source, other, es[1..], scopes, Mark(source, es[0], scopes, marks));
    }
  }

  lemma {:induction false} SameMarkBlock(source: Text, other: Text, b: Block, scopes: seq<Bindings>, marks: Marks)
    requires SameCharacters(source, other) && scopes != [] && !AnyNodeIn(b, QuotesDiffer(source, other))
    ensures MarkBlock(source, b, scopes, marks) == MarkBlock(other, b, scopes, marks)
    decreases SizeBlock(b)
  {
    if b.statements != [] {
      var rest, head := Rest(b), b.statements[0];
      SameMarkStatement(source, other, head, scopes, marks);
      SameDeclare(source, other, head, scopes);
      SameMarkBlock(source, other, rest, Declare(source, head, scopes), MarkStatement(source, head, scopes, marks));
    } else if b.tail.Some? {
      SameMark(source, other, b.tail.value, scopes, marks);
    }
  }

  lemma {:induction false} SameMarkStatement(source: Text, other: Text, s: Statement, scopes: seq<Bindings>,
                                             marks: Marks)
    requires SameCharacters(source, other) && !AnyNodeAt(s, QuotesDiffer(source, other))
    ensures MarkStatement(source, s, scopes, marks) == MarkStatement(other, s, scopes, marks)
    decreases SizeStatement(s)
  {
    match s
    case Let(_, value) => SameMark(source, other, value, scopes, marks);
    case LetElse(_, value, arm) =>
      SameMark(source, other, value, scopes, marks);
      SameMark(source, other, arm, scopes, Mark(source, value, scopes, marks));
    case Handler(_, resource, parameters, body) =>
      if resource.Some? { SameToken(source, other, ResourceNode(resource.value)); }
      SameMarkBlock(source, other, body, scopes + [Opaque(parameters)] + [map[]],
                    MarkResource(source, resource, marks));
    case Evaluate(value) => SameMark(source, other, value, scopes, marks);
  }

  // ----- The slice

  /** By start, then by end. */
  predicate ListedBefore(a: Range, c: Range) {
    a.0 < c.0 || (a.0 == c.0 && a.1 <= c.1)
  }

  lemma {:induction false} FirstSpan(spans: set<Range>) returns (first: Range)
    requires spans != {}
    ensures first in spans && forall r :: r in spans ==> ListedBefore(first, r)
    decreases |spans|
  {
    var r :| r in spans;
    var rest := spans - {r};
    first := r;
    if rest != {} {
      var other := FirstSpan(rest);
      first := if ListedBefore(r, other) then r else other;
    }
    forall q | q in spans ensures ListedBefore(first, q) {
      assert q == r || q in rest;
    }
  }

  /** The emitted spans with their categories, in order. */
  ghost function Listed(marks: Marks): seq<Intervals.Interval>
    decreases |marks|
  {
    if marks == map[] then []
    else
      assert exists r :: r in marks && forall q :: q in marks ==> ListedBefore(r, q) by {
        var first := FirstSpan(marks.Keys);
      }
      var r :| r in marks && forall q :: q in marks ==> ListedBefore(r, q);
      [Intervals.Interval(r.0, r.1, Label(marks[r]))] + Listed(marks - {r})
  }

  lemma {:induction false} MarkedIsListed(marks: Marks, b: nat)
    requires Marked(marks, b)
    ensures Intervals.Covered(Listed(marks), b)
    decreases |marks|
  {
    var q :| q in marks && Inside(q, b);
    var first := FirstSpan(marks.Keys);
    var r :| r in marks && Listed(marks) == [Intervals.Interval(r.0, r.1, Label(marks[r]))] + Listed(marks - {r});
    var head := Intervals.Interval(r.0, r.1, Label(marks[r]));
    if q == r {
      assert Intervals.Contains(head, b);
    } else {
      assert q in marks - {r};
      MarkedIsListed(marks - {r}, b);
    }
    RedactSlice.CoveredCons(head, Listed(marks - {r}), b);
  }

  /** The redacted slice of a program's text. */
  ghost function SliceOf(source: Text, program: seq<Statement>, lo: nat, hi: nat): Text
    requires lo <= hi <= |source|
  {
    RedactSlice.Reference(source, RedactSlice.Clipped(Listed(SensitiveSpans(source, program)), lo, hi), lo, hi, lo)
  }

  /** End to end: two texts of one program that differ only in bytes which reach
      a sensitive argument without a call, in literals whose nodes are their own
      quotes, have the same redacted slice. */
  lemma SliceHidesEveryExposedByte(source: Text, other: Text, program: seq<Statement>, lo: nat, hi: nat)
    requires lo <= hi <= |source| && SameCharacters(source, other)
    requires !AnyNodeIn(Block(program, None), QuotesDiffer(source, other))
    requires forall b :: 0 <= b < |source| && source[b] != other[b] ==>
               AnyArgumentIn(Block(program, None), Nowhere, ReachedDirectly(source, b)) && !Wrapped(source, program, b)
    ensures SliceOf(source, program, lo, hi) == SliceOf(other, program, lo, hi)
  {
    SameMarkBlock(source, other, Block(program, None), [map[]], map[]);
    var marks := SensitiveSpans(source, program);
    var regions := RedactSlice.Clipped(Listed(marks), lo, hi);
    forall i | lo <= i < hi && !Intervals.Covered(regions, i) ensures source[i] == other[i] {
      RedactSlice.ClippedCovers(Listed(marks), lo, hi, i);
      if source[i] != other[i] {
        EveryExposedByteIsMarked(source, program, i);
        MarkedIsListed(marks, i);
      }
    }
    RedactSlice.NothingLeaks(source, other, regions, lo, hi, lo);
  }
}
