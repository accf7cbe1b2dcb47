/** The machine against the reference: its control is the reference's, its
    bounded targets carry the reference's unbounded taints, and the spans it
    emits cover every literal that the reference exposes
    (`crates/krit-assist/src/context.rs`). */
module TolerantSound {
  import opened Utf8
  import opened Wrappers
  import opened RedactionTargets
  import opened SourceSpans
  import opened LiteralFlow
  import opened TolerantText
  import opened TolerantReference
  import opened TolerantBindings
  import opened TolerantMachine

  // ----- The stacks

  function Blocks(groups: seq<GroupKind>): nat {
    if groups == [] then 0
    else Blocks(groups[..|groups| - 1]) + (if groups[|groups| - 1].BlockGroup? then 1 else 0)
  }

  lemma BlocksPushed(groups: seq<GroupKind>, kind: GroupKind)
    ensures Blocks(groups + [kind]) == Blocks(groups) + (if kind.BlockGroup? then 1 else 0)
  {
    assert (groups + [kind])[..|groups|] == groups;
  }

  predicate StacksOk(frames: seq<CallFrame>, groups: seq<GroupKind>, scopes: nat) {
    |frames| == |groups| && scopes == 1 + Blocks(groups)
  }

  lemma StacksBegun(c: Control, kind: GroupKind, scopes: nat)
    requires StacksOk(c.frames, c.groups, scopes)
    ensures var begun := GroupBegun(c, kind);
            StacksOk(begun.frames, begun.groups, scopes + (if kind.BlockGroup? then 1 else 0))
  {
    BlocksPushed(c.groups, kind);
  }

  lemma StacksOpened(c: Control, scopes: nat)
    requires StacksOk(c.frames, c.groups, scopes)
    ensures StacksOk(ParenOpened(c).frames, ParenOpened(c).groups, scopes)
  {
    BlocksPushed(c.groups, CallGroup);
  }

  /** Where a block closes there is always a scope to leave. */
  lemma StacksShut(c: Control, scopes: nat)
    requires StacksOk(c.frames, c.groups, scopes) && c.groups != []
    ensures var kind := c.groups[|c.groups| - 1];
            && (kind.BlockGroup? ==> scopes > 1)
            && StacksOk(GroupShut(c).frames, GroupShut(c).groups, scopes - (if kind.BlockGroup? then 1 else 0))
  {
  }

  // ----- Emitted spans

  function Ranges(spans: seq<Emitted>): seq<Range> {
    seq(|spans|, i requires 0 <= i < |spans| => spans[i].range)
  }

  /** Every emitted span is in the source on character boundaries, and together
      they cover every exposed literal. */
  ghost predicate SpansOk(source: Text, spans: seq<Emitted>, literals: seq<Range>, exposed: set<nat>) {
    && (forall i :: 0 <= i < |spans| ==> RegionOk(spans[i].range, Boundaries(source)))
    && HoldsAll(Ranges(spans), literals, exposed)
  }

  lemma EmitOk(source: Text, spans: seq<Emitted>, regions: seq<Range>, category: Category, literals: seq<Range>,
               exposed: set<nat>, ks: set<nat>)
    requires SpansOk(source, spans, literals, exposed)
    requires AllOk(regions, Boundaries(source)) && HoldsAll(regions, literals, ks)
    ensures SpansOk(source, Emit(spans, regions, category), literals, exposed + ks)
  {
    var after := Emit(spans, regions, category);
    assert Ranges(after) == Ranges(spans) + regions;
    forall k | k in exposed + ks ensures k < |literals| && Holds(Ranges(after), literals[k]) {
      forall b | Inside(literals[k], b) ensures Covers(Ranges(after), b) {
        CoversConcat(Ranges(spans), regions, b);
      }
    }
  }

  lemma SpansMoreLiterals(source: Text, spans: seq<Emitted>, literals: seq<Range>, exposed: set<nat>, literal: Range)
    requires SpansOk(source, spans, literals, exposed)
    ensures SpansOk(source, spans, literals + [literal], exposed)
  {
  }

  // ----- The coupling

  /** Same control; targets, bindings and spans that hold what the reference
      knows. */
  ghost predicate Follows(source: Text, m: Machine, t: Trace) {
    && m.control == t.control
    && ScopesOk(source, m.scopes, t.scopes, t.literals)
    && PendingOk(source, m.pending, t.pending, t.literals, |m.scopes|)
    && SpansOk(source, m.spans, t.literals, t.exposed)
  }

  ghost predicate InStep(source: Text, m: Machine, t: Trace) {
    Follows(source, m, t) && StacksOk(m.control.frames, m.control.groups, |m.scopes|)
  }

  lemma StartFollows(source: Text)
    ensures InStep(source, MACHINE_START, START)
  {
  }

  // ----- Names

  lemma TaintNothing(held: seq<Held>)
    ensures TaintAll(held, {}) == held
  {
    assert forall i :: 0 <= i < |held| ==> held[i].taint + {} == held[i].taint;
  }

  ghost predicate MayCarry(source: Text, value: Option<Targets>, literals: seq<Range>, ks: set<nat>) {
    if value.Some? then Carries(source, value.value, literals, ks) else ks == {}
  }

  lemma JoinedCarries(source: Text, found: Option<Targets>, p: PendingBinding, literals: seq<Range>,
                      ks: set<nat>, more: set<nat>)
    requires MayCarry(source, found, literals, ks) && Carries(source, p.targets, literals, more)
    ensures Carries(source, Joined(source, found, p), literals, ks + more)
  {
    FinishCarries(source, p, literals, more);
    if found.Some? {
      MergeCarries(source, found.value, InProgress(source, p), literals, ks, more);
    } else {
      assert ks + more == more;
    }
  }

  lemma BoundCarries(source: Text, scopes: seq<Frame>, known: seq<Taints>, literals: seq<Range>, name: Text)
    requires ScopesOk(source, scopes, known, literals)
    ensures ValueFloor(scopes, name) == Floor(known, name)
    ensures MayCarry(source, BoundValue(scopes, name), literals, BoundTaint(known, name))
  {
    SameBarrier(source, scopes, known, literals, name);
    var at := Barrier(scopes, name);
    if at.Some? {
      assert FrameOk(source, scopes[at.value], known[at.value], literals);
      assert BindingOk(source, scopes[at.value][name], known[at.value][name], literals);
    }
  }

  lemma {:induction false} HeldCarries(source: Text, pending: seq<PendingBinding>, held: seq<Held>,
                                       literals: seq<Range>, live: nat, name: Text, floor: Option<nat>,
                                       found: Option<Targets>, ks: set<nat>, i: nat)
    requires PendingOk(source, pending, held, literals, live) && i <= |pending|
    requires MayCarry(source, found, literals, ks)
    ensures MayCarry(source, HeldValue(source, pending, name, floor, found, i), literals,
                     ks + HeldTaint(held, name, floor, i))
    decreases |pending| - i
  {
    if i == |pending| {
      assert ks + {} == ks;
    } else {
      HeldCarries(source, pending, held, literals, live, name, floor, found, ks, i + 1);
      assert Agrees(pending[i], held[i]);
      var above, rest := HeldValue(source, pending, name, floor, found, i + 1), HeldTaint(held, name, floor, i + 1);
      if CanMean(pending[i], name, floor) {
        JoinedCarries(source, above, pending[i], literals, ks + rest, held[i].taint);
        assert ks + rest + held[i].taint == ks + (held[i].taint + rest);
      } else {
        assert {} + rest == rest;
      }
    }
  }

  /** A lookup carries every literal the reference says a use of the name can
      carry. */
  lemma InheritedCarries(source: Text, m: Machine, t: Trace, name: Text)
    requires Follows(source, m, t)
    ensures MayCarry(source, InheritedValue(source, m.scopes, m.pending, name), t.literals,
                     Taint(t.scopes, t.pending, name))
  {
    BoundCarries(source, m.scopes, t.scopes, t.literals, name);
    HeldCarries(source, m.pending, t.pending, t.literals, |m.scopes|, name, ValueFloor(m.scopes, name),
                BoundValue(m.scopes, name), BoundTaint(t.scopes, name), 0);
  }

  lemma PassFollows(source: Text, m: Machine, t: Trace, value: Targets, ks: set<nat>)
    requires Follows(source, m, t) && Carries(source, value, t.literals, ks)
    ensures Follows(source, ValuePassed(m, value),
                    t.(pending := TaintAll(t.pending, ks),
                       exposed := if FrameCategory(t.control.frames).Some? then t.exposed + ks else t.exposed))
  {
    InheritOk(source, m.pending, t.pending, t.literals, |m.scopes|, value, ks);
    var category := FrameCategory(m.control.frames);
    if category.Some? {
      EmitOk(source, m.spans, value.Regions(), category.value, t.literals, t.exposed, ks);
    }
  }

  lemma UseFollows(source: Text, m: Machine, t: Trace, name: Text)
    requires Follows(source, m, t)
    ensures Follows(source, NameUsed(source, m, name), Used(t, name))
  {
    InheritedCarries(source, m, t, name);
    var value, ks := InheritedValue(source, m.scopes, m.pending, name), Taint(t.scopes, t.pending, name);
    if value.Some? {
      PassFollows(source, m, t, value.value, ks);
    } else {
      TaintNothing(t.pending);
      assert t.exposed + {} == t.exposed;
    }
  }

  lemma {:induction false} UsesFollow(source: Text, m: Machine, t: Trace, names: seq<Text>)
    requires Follows(source, m, t)
    ensures Follows(source, NamesUsed(source, m, names), UsedAll(t, names))
    decreases |names|
  {
    if names != [] {
      UseFollows(source, m, t, names[0]);
      UsesFollow(source, NameUsed(source, m, names[0]), Used(t, names[0]), names[1..]);
    }
  }

  lemma DeclareFollows(source: Text, m: Machine, t: Trace, name: Text, depth: nat)
    requires Follows(source, m, t) && |m.scopes| > 0
    ensures Follows(source, NameDeclared(m, name, depth), Declared(t, name, depth))
  {
    NothingCarries(source, t.literals);
  }

  lemma TouchFollows(source: Text, m: Machine, t: Trace, start: nat, end: nat)
    requires Follows(source, m, t)
    ensures Follows(source, Touched(m, start, end), t)
  {
    TouchOk(source, m.pending, t.pending, t.literals, |m.scopes|, start, end);
  }

  /** A finished value is bound where it was declared: its scope is live. */
  lemma FinishFollows(source: Text, m: Machine, t: Trace)
    requires Follows(source, m, t)
    ensures Follows(source, TopFinished(source, m), Finished(t))
  {
    if m.pending != [] {
      var top := |m.pending| - 1;
      var p, held := m.pending[top], t.pending[top];
      assert Agrees(p, held);
      FinishCarries(source, p, t.literals, held.taint);
      BindOk(source, m.scopes, t.scopes, t.literals, p.scope, p.name, Finish(source, p), held.taint);
    }
  }

  lemma {:induction false} ScopeFinishFollows(source: Text, m: Machine, t: Trace)
    requires Follows(source, m, t)
    ensures Follows(source, ScopeFinished(source, m), InnerFinished(t))
    decreases |m.pending|
  {
    if m.pending != [] {
      assert Agrees(m.pending[|m.pending| - 1], t.pending[|m.pending| - 1]);
      if m.pending[|m.pending| - 1].scope >= |m.scopes| - 1 {
        FinishFollows(source, m, t);
        ScopeFinishFollows(source, TopFinished(source, m), Finished(t));
      }
    }
  }

  /** Nothing of the innermost scope is still pending. */
  lemma {:induction false} NoneLeft(source: Text, m: Machine)
    ensures var after := ScopeFinished(source, m);
            after.pending != [] ==> after.pending[|after.pending| - 1].scope < |after.scopes| - 1
    decreases |m.pending|
  {
    if m.pending != [] && m.pending[|m.pending| - 1].scope >= |m.scopes| - 1 {
      NoneLeft(source, TopFinished(source, m));
    }
  }

  lemma PopFollows(source: Text, m: Machine, t: Trace)
    requires Follows(source, m, t) && |m.scopes| > 0
    requires m.pending != [] ==> m.pending[|m.pending| - 1].scope < |m.scopes| - 1
    ensures Follows(source, m.(scopes := m.scopes[..|m.scopes| - 1]), t.(scopes := t.scopes[..|t.scopes| - 1]))
  {
    assert forall i :: 0 <= i < |m.pending| ==> m.pending[i].scope <= m.pending[|m.pending| - 1].scope;
  }

  lemma LeaveFollows(source: Text, m: Machine, t: Trace)
    requires Follows(source, m, t) && |m.scopes| > 1
    ensures Follows(source, ScopeLeft(source, m), ScopePopped(t))
    ensures |ScopeLeft(source, m).scopes| == |m.scopes| - 1
  {
    ScopeFinishFollows(source, m, t);
    NoneLeft(source, m);
    PopFollows(source, ScopeFinished(source, m), InnerFinished(t));
  }

  // ----- Identifiers

  /** Follows does not look inside the control. */
  lemma SameControl(source: Text, m: Machine, t: Trace, c: Control)
    requires Follows(source, m, t)
    ensures Follows(source, m.(control := c), t.(control := c))
  {
  }

  lemma ClassifyFollows(source: Text, m: Machine, t: Trace, identifier: Text)
    requires InStep(source, m, t) && m.control.cursor <= |source|
    ensures InStep(source, IdentifierClassified(source, m, identifier), Classified(source, t, identifier))
  {
    var c := m.control;
    var role := RoleOf(source, c, AsString(identifier));
    var named := Named(c, role, identifier);
    SameControl(source, m, t, named);
    match role
    case Declaration => DeclareFollows(source, m.(control := named), t.(control := named), identifier, DepthOf(c));
    case Use => UseFollows(source, m.(control := named), t.(control := named), identifier);
    case _ =>
  }

  lemma IdentifierFollows(source: Text, m: Machine, t: Trace)
    requires InStep(source, m, t) && m.control.cursor < |source|
    ensures InStep(source, IdentifierScanned(source, m), IdentifierRead(source, t))
  {
    var start, end := m.control.cursor, IdentifierEnd(source, m.control.cursor + 1);
    var name := source[start..end];
    var c := m.control.(cursor := end, closingPattern := false);
    TouchFollows(source, m, t, start, end);
    SameControl(source, Touched(m, start, end), t, c);
    var read, known := Touched(m, start, end).(control := c), t.(control := c);
    ClassifyFollows(source, read, known, name);
    var classified := IdentifierClassified(source, read, name);
    SameControl(source, classified, Classified(source, known, name), WithToken(classified.control, Identifier(name)));
  }

  // ----- Delimiters

  lemma PushFollows(source: Text, m: Machine, t: Trace, kind: GroupKind)
    requires InStep(source, m, t)
    ensures InStep(source, GroupPushed(m, kind), GroupOpened(t, kind))
  {
    var c := m.control;
    StacksBegun(c, kind, |m.scopes|);
    if kind.BlockGroup? {
      var parameters := if c.sawFunctionKeyword then c.parameters else [];
      NothingCarries(source, t.literals);
      assert FrameOk(source, ParameterFrame(parameters), ParameterScope(parameters), t.literals);
      ScopePushed(source, m.scopes, t.scopes, t.literals, ParameterFrame(parameters), ParameterScope(parameters));
    }
  }

  lemma ScopePushed(source: Text, scopes: seq<Frame>, known: seq<Taints>, literals: seq<Range>, frame: Frame,
                    taints: Taints)
    requires ScopesOk(source, scopes, known, literals) && FrameOk(source, frame, taints, literals)
    ensures ScopesOk(source, scopes + [frame], known + [taints], literals)
  {
  }

  lemma PopGroupFollows(source: Text, m: Machine, t: Trace, byte: Byte)
    requires InStep(source, m, t)
    ensures InStep(source, GroupPopped(source, m, byte), GroupClosed(t, byte))
  {
    var c := m.control;
    if Matches(byte, c.groups) {
      StacksShut(c, |m.scopes|);
      var shut := Advanced(WithToken(GroupShut(c), Other));
      SameControl(source, m, t, shut);
      if c.groups[|c.groups| - 1].BlockGroup? {
        LeaveFollows(source, m.(control := shut), t.(control := shut));
      }
    } else {
      SameControl(source, m, t, Advanced(WithToken(c, Other)));
    }
  }

  lemma DelimiterFollows(source: Text, m: Machine, t: Trace, byte: Byte)
    requires InStep(source, m, t)
    ensures InStep(source, DelimiterScanned(source, m, byte), DelimiterRead(t, byte))
  {
    var c := m.control;
    if byte == OPEN_PAREN {
      StacksOpened(c, |m.scopes|);
      SameControl(source, m, t, ParenOpened(c));
    } else if byte == CLOSE_PAREN {
      if c.groups != [] { StacksShut(c, |m.scopes|); }
      SameControl(source, m, t, ParenClosed(c));
    } else if byte == COMMA {
      SameControl(source, m, t, CommaRead(c));
    } else if byte == OPEN_BRACKET {
      PushFollows(source, m, t, BracketGroup);
    } else if byte == OPEN_BRACE {
      PushFollows(source, m, t, BraceKind(c.tokens, c.sawFunctionKeyword));
    } else {
      PopGroupFollows(source, m, t, byte);
    }
  }

  // ----- Literals

  /** A literal begins and ends on character boundaries. */
  lemma LiteralOnBoundaries(source: Text, cursor: nat)
    requires WellFormed(source) && cursor < |source| && source[cursor] == QUOTE
    ensures var (start, end, next) := LiteralAt(source, cursor);
            IsBoundary(source, start) && IsBoundary(source, end)
  {
    if HasTriple(source, cursor) {
      AsciiIsBoundary(source, cursor + 2);
      var end := FirstClosing(source, cursor + 3, cursor + 3);
      if end < |source| { AsciiIsBoundary(source, end); }
    } else {
      AsciiIsBoundary(source, cursor);
      var end := StringEnd(source, cursor + 1, false);
      if end < |source| { AsciiIsBoundary(source, end); }
    }
  }

  lemma RecordFollows(source: Text, m: Machine, t: Trace, span: Range, names: seq<Text>)
    requires Follows(source, m, t) && RegionOk(span, Boundaries(source))
    ensures Follows(source, LiteralRecorded(source, m, span, names), Recorded(t, span, names))
  {
    var k := |t.literals|;
    var taken := t.(literals := t.literals + [span], pending := TaintAll(t.pending, {k}));
    RecordOk(source, m.pending, t.pending, t.literals, |m.scopes|, span);
    ScopesMoreLiterals(source, m.scopes, t.scopes, t.literals, span);
    SpansMoreLiterals(source, m.spans, t.literals, t.exposed, span);
    UsesFollow(source, m.(pending := RecordAll(m.pending, span)), taken, names);
  }

  lemma JudgeFollows(source: Text, secretLike: Text -> bool, m: Machine, t: Trace, span: Range, content: Text)
    requires Follows(source, m, t) && RegionOk(span, Boundaries(source))
    requires t.literals != [] && t.literals[|t.literals| - 1] == span
    ensures Follows(source, LiteralJudged(secretLike, m, span, content), Judged(secretLike, t, content))
  {
    var category := LiteralCategory(m.control, secretLike, content);
    if category.Some? {
      forall b | Inside(span, b) ensures Covers([span], b) { CoversAt([span], 0, b); }
      EmitOk(source, m.spans, [span], category.value, t.literals, t.exposed, {|t.literals| - 1});
      assert Emit(m.spans, [span], category.value) == m.spans + [Emitted(span, category.value)];
    }
  }

  lemma LiteralFollows(source: Text, secretLike: Text -> bool, m: Machine, t: Trace, span: Range, content: Text,
                       next: nat)
    requires InStep(source, m, t) && RegionOk(span, Boundaries(source))
    ensures InStep(source, LiteralPassed(source, secretLike, m, span, content, next),
                   LiteralTaken(secretLike, t, span, content, next))
  {
    var names := HoleRoots(content, 0);
    var touched := Touched(m, m.control.cursor, next);
    TouchFollows(source, m, t, m.control.cursor, next);
    RecordFollows(source, touched, t, span, names);
    var recorded, known := LiteralRecorded(source, touched, span, names), Recorded(t, span, names);
    JudgeFollows(source, secretLike, recorded, known, span, content);
    SameControl(source, LiteralJudged(secretLike, recorded, span, content), Judged(secretLike, known, content),
                WithToken(m.control, Other).(cursor := next));
  }

  ghost predicate CutsWell(source: Text, cursor: nat)
    requires cursor < |source|
  {
    var (start, end, next) := LiteralAt(source, cursor);
    RegionOk((start, end), Boundaries(source))
  }

  /** Every literal of the text can be cut out of it. */
  ghost predicate AllCutWell(source: Text) {
    forall q :: 0 <= q < |source| && source[q] == QUOTE ==> CutsWell(source, q)
  }

  lemma WellFormedCutsWell(source: Text)
    requires WellFormed(source)
    ensures AllCutWell(source)
  {
    forall q | 0 <= q < |source| && source[q] == QUOTE ensures CutsWell(source, q) { LiteralOnBoundaries(source, q); }
  }

  lemma LiteralScanFollows(source: Text, secretLike: Text -> bool, m: Machine, t: Trace)
    requires AllCutWell(source) && InStep(source, m, t)
    requires m.control.cursor < |source| && source[m.control.cursor] == QUOTE
    ensures InStep(source, LiteralScanned(source, secretLike, m), LiteralRead(source, secretLike, t))
  {
    assert CutsWell(source, m.control.cursor);
    var (start, end, next) := LiteralAt(source, m.control.cursor);
    LiteralFollows(source, secretLike, m, t, (start, end), source[start..end], next);
  }

  // ----- Bytes

  lemma NoticeFollows(source: Text, m: Machine, t: Trace, byte: Byte)
    requires InStep(source, m, t)
    ensures InStep(source, ByteNoticed(m, byte), t.(control := Noticed(t.control, byte)))
  {
    var c := m.control.(closingPattern := false);
    if m.control.closingPattern && byte == CLOSE_PAREN {
      SameControl(source, m, t, c);
    } else if !IsWhitespace(byte) && byte != EQUALS {
      TouchFollows(source, m, t, c.cursor, c.cursor + 1);
      SameControl(source, Touched(m, c.cursor, c.cursor + 1), t, c);
    }
  }

  lemma LineFollows(source: Text, m: Machine, t: Trace)
    requires InStep(source, m, t)
    ensures InStep(source, LineScanned(source, m), LineEnded(t))
  {
    assert m.pending != [] ==> Agrees(m.pending[|m.pending| - 1], t.pending[|m.pending| - 1]);
    FinishFollows(source, m, t);
    SameControl(source, m, t, Advanced(m.control));
    SameControl(source, TopFinished(source, m), Finished(t), Advanced(m.control));
  }

  lemma SemicolonFollows(source: Text, m: Machine, t: Trace)
    requires InStep(source, m, t)
    ensures InStep(source, SemicolonScanned(source, m), SemicolonRead(t))
  {
    FinishFollows(source, m, t);
    SameControl(source, TopFinished(source, m), Finished(t), Advanced(WithToken(m.control, Other)));
  }

  lemma ByteFollows(source: Text, secretLike: Text -> bool, m: Machine, t: Trace)
    requires AllCutWell(source) && InStep(source, m, t) && m.control.cursor < |source|
    ensures InStep(source, ByteScanned(source, secretLike, m), ByteRead(source, secretLike, t))
  {
    var byte := source[m.control.cursor];
    var n, known := ByteNoticed(m, byte), t.(control := Noticed(t.control, byte));
    NoticeFollows(source, m, t, byte);
    if byte == LF {
      LineFollows(source, n, known);
    } else if byte == SEMICOLON {
      SemicolonFollows(source, n, known);
    } else if IsDelimiter(byte) {
      DelimiterFollows(source, n, known, byte);
    } else if byte == QUOTE {
      LiteralScanFollows(source, secretLike, n, known);
    } else {
      SameControl(source, n, known, OtherRead(n.control, byte));
    }
  }

  lemma StepFollows(source: Text, secretLike: Text -> bool, m: Machine, t: Trace)
    requires AllCutWell(source) && InStep(source, m, t) && m.control.cursor < |source|
    ensures InStep(source, StepScanned(source, secretLike, m), Stepped(source, secretLike, t))
  {
    var cursor := m.control.cursor;
    if BeginsComment(source, cursor) {
      SameControl(source, m, t, m.control.(cursor := CommentEnd(source, cursor + 2)));
    } else if IsIdentifierStart(source[cursor]) {
      IdentifierFollows(source, m, t);
    } else {
      ByteFollows(source, secretLike, m, t);
    }
  }

  lemma {:induction false} TextFollows(source: Text, secretLike: Text -> bool, m: Machine, t: Trace)
    requires AllCutWell(source) && InStep(source, m, t) && m.control.cursor <= |source|
    ensures InStep(source, TextScanned(source, secretLike, m), Scanned(source, secretLike, t))
    decreases |source| - m.control.cursor
  {
    if m.control.cursor < |source| {
      StepFollows(source, secretLike, m, t);
      TextFollows(source, secretLike, StepScanned(source, secretLike, m), Stepped(source, secretLike, t));
    }
  }

  /** On every well-formed text, however malformed as a program, the machine ends
      with its stacks in step, every emitted span lies in the text on character
      boundaries, and every literal that the reference exposes is covered. */
  lemma ScanIsSound(source: Text, secretLike: Text -> bool)
    requires WellFormed(source)
    ensures var m := TextScanned(source, secretLike, MACHINE_START);
            StacksOk(m.control.frames, m.control.groups, |m.scopes|)
    ensures SpansOk(source, SpansOf(source, secretLike), LiteralsOf(source, secretLike), ExposedOf(source, secretLike))
  {
    StartFollows(source);
    WellFormedCutsWell(source);
    TextFollows(source, secretLike, MACHINE_START, START);
  }
}
