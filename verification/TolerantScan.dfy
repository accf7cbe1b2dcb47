/** The tolerant scanner: one pass over any text, however malformed, that finds
    the literals in sensitive positions
    (`crates/krit-assist/src/context.rs`).

    Every method takes the scanner's variables to the machine's next state; what
    the machine's states promise is proved in `TolerantSound`. */
module TolerantScan {
  import opened Utf8
  import opened Wrappers
  import opened RedactionTargets
  import opened SourceSpans
  import opened LiteralFlow
  import opened TolerantText
  import opened TolerantReference
  import opened TolerantBindings
  import opened TolerantMachine
  import opened TolerantSound

  lemma EmitOneMore(spans: seq<Emitted>, regions: seq<Range>, category: Category, i: nat)
    requires i < |regions|
    ensures Emit(spans, regions[..i + 1], category) ==
            Emit(spans, regions[..i], category) + [Emitted(regions[i], category)]
  {
  }

  // ----- Updates of the control

  /** What an identifier is, and what it does to the flags. */
  method NameControl(source: Text, c: Control, identifier: Text) returns (role: Role, after: Control)
    requires c.cursor <= |source|
    ensures role == RoleOf(source, c, AsString(identifier)) && after == Named(c, role, identifier)
  {
    var name := AsString(identifier);
    if name == "let" {
      return Keyword, c.(expectBindingName := true);
    } else if name == "fn" {
      return Keyword, c.(sawFunctionKeyword := true, parameters := []);
    } else if c.expectBindingName && c.patternBinderDepth.None? && name in {"Ok", "Err", "Some"}
              && NextVisibleIs(source, c.cursor, OPEN_PAREN) {
      return Pattern, c.(patternBinderDepth := Some(|c.frames|));
    } else if c.expectBindingName && c.patternBinderDepth.None? && name == "None" {
      return Nothing, c.(expectBindingName := false);
    } else if c.expectBindingName {
      after := c.(expectBindingName := false);
      if c.patternBinderDepth.Some? {
        after := after.(patternBinderDepth := None, closingPattern := true);
      }
      return Declaration, after;
    } else if c.collectingParameters && c.expectParameterName {
      return Parameter, c.(expectParameterName := false, parameters := c.parameters + [identifier]);
    }
    return Use, c;
  }

  method BeginCall(control: Control) returns (after: Control)
    ensures after == ParenOpened(control)
  {
    var c := control;
    if c.sawFunctionKeyword && !c.collectingParameters {
      c := c.(collectingParameters := true, expectParameterName := true);
    }
    var name := GroupedIdentifier(c.tokens);
    c := c.(frames := c.frames + [CallFrame(name, 0)], groups := c.groups + [CallGroup]);
    return c.(tokens := c.tokens + [LeftParen], cursor := c.cursor + 1);
  }

  /** Both `pop` calls; each does nothing to an empty stack. */
  method PopGroup(control: Control) returns (after: Control)
    ensures after == GroupShut(control)
  {
    after := control;
    if after.frames != [] {
      after := after.(frames := after.frames[..|after.frames| - 1]);
    }
    if after.groups != [] {
      after := after.(groups := after.groups[..|after.groups| - 1]);
    }
  }

  /** Only a call's own `)` closes it. */
  method EndCall(control: Control) returns (after: Control)
    ensures after == ParenClosed(control)
  {
    var c := control;
    if c.groups != [] && c.groups[|c.groups| - 1].CallGroup? {
      if c.collectingParameters {
        c := c.(collectingParameters := false, expectParameterName := false);
      }
      c := PopGroup(c);
    }
    return c.(tokens := c.tokens + [RightParen], cursor := c.cursor + 1);
  }

  method NextArgument(control: Control) returns (after: Control)
    ensures after == CommaRead(control)
  {
    var c := control;
    if c.collectingParameters {
      c := c.(expectParameterName := true);
    }
    if c.frames != [] {
      var top := |c.frames| - 1;
      c := c.(frames := c.frames[top := c.frames[top].(argument := c.frames[top].argument + 1)]);
    }
    return c.(tokens := c.tokens + [Other], cursor := c.cursor + 1);
  }

  method BeginGroup(control: Control, kind: GroupKind) returns (after: Control)
    ensures after == GroupBegun(control, kind)
  {
    var c := control.(frames := control.frames + [CallFrame(None, 0)], groups := control.groups + [kind]);
    if kind.BlockGroup? && c.sawFunctionKeyword {
      c := c.(parameters := [], sawFunctionKeyword := false);
    }
    return c.(tokens := c.tokens + [Other], cursor := c.cursor + 1);
  }

  // ----- Lookups

  /** The search of `reference!` for what a name carries. */
  method Inherited(source: Text, scopes: seq<Frame>, pending: seq<PendingBinding>, name: Text)
    returns (inherited: Option<Targets>)
    ensures inherited == InheritedValue(source, scopes, pending, name)
  {
    var at := Barrier(scopes, name);
    var floor := None;
    inherited := None;
    if at.Some? {
      if scopes[at.value][name].untraceable {
        floor := at;
      } else {
        inherited := Some(scopes[at.value][name]);
      }
    }
    ghost var bound := inherited;
    var i := |pending|;
    while i > 0
      invariant 0 <= i <= |pending|
      invariant inherited == HeldValue(source, pending, name, floor, bound, i)
    {
      i := i - 1;
      if pending[i].name == name && !(floor.Some? && pending[i].scope < floor.value) {
        var candidate := InProgress(source, pending[i]);
        inherited := Some(if inherited.Some? then Merge(inherited.value, candidate) else candidate);
      }
    }
  }

  // ----- Extents

  /** Where the literal that opens at the cursor begins and ends, and where the
      scan goes on. */
  method LiteralExtent(source: Text, cursor: nat) returns (start: nat, end: nat, after: nat)
    requires WellFormed(source) && cursor < |source| && source[cursor] == QUOTE
    ensures (start, end, after) == LiteralAt(source, cursor)
    ensures IsBoundary(source, start) && IsBoundary(source, end)
  {
    LiteralOnBoundaries(source, cursor);
    if HasTriple(source, cursor) {
      start := cursor + 3;
      end := TextBlockEnd(source, start);
      after := Capped(source, end + 3);
    } else {
      start := cursor + 1;
      end := ScanToQuote(source, start);
      after := Capped(source, end + 1);
    }
  }

  // ----- The scanner

  class Scanner {
    const source: Text
    const secretLike: Text -> bool
    /** Cursor, tokens, open groups and flags. */
    var control: Control
    var spans: seq<Emitted>
    var scopes: seq<Frame>
    var pending: seq<PendingBinding>

    function State(): Machine
      reads this
    {
      Machine(control, spans, scopes, pending)
    }

    predicate Valid()
      reads this
    {
      WellFormed(source) && control.cursor <= |source|
    }

    constructor (source: Text, secretLike: Text -> bool)
      requires WellFormed(source)
      ensures Valid() && this.source == source && this.secretLike == secretLike && State() == MACHINE_START
    {
      this.source, this.secretLike := source, secretLike;
      control, spans, scopes, pending := AT_START, [], [map[]], [];
    }

    // ----- Bindings

    /** `finish_top!`. */
    method FinishTop()
      modifies this`pending, this`scopes
      ensures State() == TopFinished(source, old(State()))
    {
      if pending != [] {
        var binding := pending[|pending| - 1];
        pending := pending[..|pending| - 1];
        if binding.scope < |scopes| {
          scopes := scopes[binding.scope := scopes[binding.scope][binding.name := Finish(source, binding)]];
        }
      }
    }

    /** `reference!`. */
    method Reference(name: Text)
      modifies this`pending, this`spans
      ensures State() == NameUsed(source, old(State()), name)
    {
      var inherited := Inherited(source, scopes, pending, name);
      if inherited.Some? {
        InheritEvery(inherited.value);
        var category := FrameCategory(control.frames);
        if category.Some? {
          EmitEvery(inherited.value.Regions(), category.value);
        }
      }
    }

    method InheritEvery(value: Targets)
      modifies this`pending
      ensures pending == InheritAll(old(pending), value)
    {
      for i := 0 to |pending|
        invariant |pending| == |old(pending)|
        invariant forall k :: 0 <= k < |pending| ==>
                    pending[k] == if k < i then InheritAll(old(pending), value)[k] else old(pending)[k]
      {
        pending := pending[i := pending[i].(targets := Merge(pending[i].targets, value))];
      }
    }

    /** A visible byte range belongs to the value of every open binding. */
    method TouchEvery(start: nat, end: nat)
      modifies this`pending
      ensures State() == Touched(old(State()), start, end)
    {
      for i := 0 to |pending|
        invariant |pending| == |old(pending)|
        invariant forall k :: 0 <= k < |pending| ==>
                    pending[k] == if k < i then TouchAll(old(pending), start, end)[k] else old(pending)[k]
      {
        pending := pending[i := Touch(pending[i], start, end)];
      }
    }

    method EmitEvery(regions: seq<Range>, category: Category)
      modifies this`spans
      ensures spans == Emit(old(spans), regions, category)
    {
      for i := 0 to |regions|
        invariant spans == Emit(old(spans), regions[..i], category)
      {
        EmitOneMore(old(spans), regions, category, i);
        spans := spans + [Emitted(regions[i], category)];
      }
      assert regions[..|regions|] == regions;
    }

    // ----- Comments and identifiers

    method SkipComment()
      requires Valid() && BeginsComment(source, control.cursor)
      modifies this`control
      ensures Valid() && control == old(control).(cursor := CommentEnd(source, old(control).cursor + 2))
    {
      var cursor := control.cursor + 2;
      while cursor < |source| && !IsNewline(source[cursor])
        invariant cursor <= |source| && CommentEnd(source, cursor) == CommentEnd(source, control.cursor + 2)
      {
        cursor := cursor + 1;
      }
      control := control.(cursor := cursor);
    }

    method ScanIdentifier()
      requires Valid() && control.cursor < |source| && IsIdentifierStart(source[control.cursor])
      modifies this`control, this`pending, this`spans
      ensures Valid() && State() == IdentifierScanned(source, old(State()))
    {
      var start := control.cursor;
      var end := SkipIdentifier(source, start + 1);
      IdentifierOnBoundaries(source, start, end);
      var identifier := Slice(source, start, end);
      TouchEvery(start, end);
      control := control.(cursor := end, closingPattern := false);
      Classify(identifier);
      control := control.(tokens := control.tokens + [Identifier(identifier)]);
    }

    /** A keyword, a pattern, a declared name, a parameter, or a use. */
    method Classify(identifier: Text)
      requires Valid()
      modifies this`control, this`pending, this`spans
      ensures Valid() && State() == IdentifierClassified(source, old(State()), identifier)
    {
      var depth := if control.patternBinderDepth.Some? then control.patternBinderDepth.value else |control.frames|;
      var role, after := NameControl(source, control, identifier);
      control := after;
      if role.Declaration? {
        pending := pending + [NewBinding(identifier, depth, if |scopes| > 0 then |scopes| - 1 else 0)];
      } else if role.Use? {
        Reference(identifier);
      }
    }

    // ----- Delimiters

    /** A bracket or brace: a frame, a group and, for a block, a scope. */
    method OpenGroup(kind: GroupKind)
      modifies this`control, this`scopes
      ensures State() == GroupPushed(old(State()), kind)
    {
      if kind.BlockGroup? {
        var parameters := if control.sawFunctionKeyword then control.parameters else [];
        scopes := scopes + [map name | name in parameters :: UNTRACEABLE];
      }
      control := BeginGroup(control, kind);
    }

    /** A closer closes only the group it matches. */
    method CloseGroup(byte: Byte)
      modifies this`control, this`scopes, this`pending
      ensures State() == GroupPopped(source, old(State()), byte)
    {
      var leaves := false;
      if Matches(byte, control.groups) {
        leaves := control.groups[|control.groups| - 1].BlockGroup? && |scopes| > 1;
        control := PopGroup(control);
      }
      PassByte();
      if leaves {
        PopScope();
      }
    }

    /** A byte that stands for no particular token. */
    method PassByte()
      modifies this`control
      ensures control == Advanced(WithToken(old(control), Other))
    {
      control := control.(tokens := control.tokens + [Other], cursor := control.cursor + 1);
    }

    /** Leaving a block: its own bindings are finished, then discarded. */
    method PopScope()
      requires |scopes| > 1
      modifies this`scopes, this`pending
      ensures State() == ScopeLeft(source, old(State()))
    {
      while pending != [] && pending[|pending| - 1].scope >= |scopes| - 1
        invariant |scopes| == |old(scopes)| && ScopeFinished(source, State()) == ScopeFinished(source, old(State()))
        decreases |pending|
      {
        FinishTop();
      }
      scopes := scopes[..|scopes| - 1];
    }

    method ScanDelimiter(byte: Byte)
      requires IsDelimiter(byte)
      modifies this`control, this`scopes, this`pending
      ensures State() == DelimiterScanned(source, old(State()), byte)
    {
      if byte == OPEN_PAREN {
        control := BeginCall(control);
      } else if byte == CLOSE_PAREN {
        control := EndCall(control);
      } else if byte == COMMA {
        control := NextArgument(control);
      } else if byte == OPEN_BRACKET {
        OpenGroup(BracketGroup);
      } else if byte == OPEN_BRACE {
        OpenGroup(BraceKind(control.tokens, control.sawFunctionKeyword));
      } else {
        CloseGroup(byte);
      }
    }

    // ----- Literals

    /** Remembers a literal in every open binding, follows its holes, and emits
        it if it has a category. */
    method ScanLiteral()
      requires Valid() && control.cursor < |source| && source[control.cursor] == QUOTE
      modifies this`pending, this`spans, this`control
      ensures Valid() && State() == LiteralScanned(source, secretLike, old(State()))
    {
      var start, end, after := LiteralExtent(source, control.cursor);
      var content := Slice(source, start, end);
      BetweenIsWellFormed(source, start, end);
      ReadLiteral((start, end), content, after);
    }

    method ReadLiteral(span: Range, content: Text, after: nat)
      requires WellFormed(content)
      modifies this`pending, this`spans, this`control
      ensures State() == LiteralPassed(source, secretLike, old(State()), span, content, after)
    {
      TouchEvery(control.cursor, after);
      TakeLiteral(span, content);
      Judge(span, content);
      control := control.(cursor := after, tokens := control.tokens + [Other]);
    }

    /** Every open binding takes the literal, then what its holes carry. */
    method TakeLiteral(span: Range, content: Text)
      requires WellFormed(content)
      modifies this`pending, this`spans
      ensures State() == LiteralRecorded(source, old(State()), span, HoleRoots(content, 0))
    {
      RecordEvery(span);
      var roots := FindHoleRoots(content);
      ReferenceEvery(roots);
    }

    method Judge(span: Range, content: Text)
      modifies this`spans
      ensures State() == LiteralJudged(secretLike, old(State()), span, content)
    {
      var category :=
        if LastNamed(control.tokens, {"queue", "schedule"}) then Some(CapabilityResource)
        else if FrameCategory(control.frames).Some? then FrameCategory(control.frames)
        else if secretLike(content) then Some(SecretLike)
        else None;
      if category.Some? {
        spans := spans + [Emitted(span, category.value)];
      }
    }

    method RecordEvery(span: Range)
      modifies this`pending
      ensures pending == RecordAll(old(pending), span)
    {
      for i := 0 to |pending|
        invariant |pending| == |old(pending)|
        invariant forall k :: 0 <= k < |pending| ==>
                    pending[k] == if k < i then RecordAll(old(pending), span)[k] else old(pending)[k]
      {
        pending := pending[i := pending[i].(targets := AddSpan(pending[i].targets, span))];
      }
    }

    method ReferenceEvery(names: seq<Text>)
      modifies this`pending, this`spans
      ensures State() == NamesUsed(source, old(State()), names)
    {
      for i := 0 to |names|
        invariant control == old(control) && scopes == old(scopes)
        invariant NamesUsed(source, State(), names[i..]) == NamesUsed(source, old(State()), names)
      {
        assert names[i..][1..] == names[i + 1..];
        Reference(names[i]);
      }
    }

    // ----- The loop

    /** A byte that is not white space belongs to the value of every open
        binding, except the `)` that closes a let-else pattern. */
    method Notice()
      requires Valid() && control.cursor < |source|
      modifies this`control, this`pending
      ensures State() == ByteNoticed(old(State()), source[old(control).cursor])
    {
      var byte := source[control.cursor];
      if control.closingPattern && byte == CLOSE_PAREN {
        control := control.(closingPattern := false);
      } else if !IsWhitespace(byte) && byte != EQUALS {
        control := control.(closingPattern := false);
        TouchEvery(control.cursor, control.cursor + 1);
      }
    }

    /** A newline ends the innermost binding, unless a group opened in its value
        is still open. */
    method EndLine()
      modifies this`pending, this`scopes, this`control
      ensures State() == LineScanned(source, old(State()))
    {
      if pending != [] && |control.frames| <= pending[|pending| - 1].depth {
        FinishTop();
      }
      control := control.(cursor := control.cursor + 1);
    }

    method ScanOther(byte: Byte)
      modifies this`control
      ensures control == OtherRead(old(control), byte)
    {
      if !IsWhitespace(byte) {
        control := control.(tokens := control.tokens + [Other]);
      }
      control := control.(cursor := control.cursor + 1);
    }

    method ScanByte()
      requires Valid() && control.cursor < |source|
      modifies this`control, this`spans, this`scopes, this`pending
      ensures Valid() && State() == ByteScanned(source, secretLike, old(State()))
    {
      var byte := source[control.cursor];
      Notice();
      if byte == LF {
        EndLine();
      } else if byte == SEMICOLON {
        FinishTop();
        PassByte();
      } else if IsDelimiter(byte) {
        ScanDelimiter(byte);
      } else if byte == QUOTE {
        ScanLiteral();
      } else {
        ScanOther(byte);
      }
    }

    method Step()
      requires Valid() && control.cursor < |source|
      modifies this`control, this`spans, this`scopes, this`pending
      ensures Valid() && State() == StepScanned(source, secretLike, old(State()))
    {
      var cursor := control.cursor;
      if source[cursor] == SLASH && cursor + 1 < |source| && source[cursor + 1] == SLASH {
        SkipComment();
      } else if IsIdentifierStart(source[cursor]) {
        ScanIdentifier();
      } else {
        ScanByte();
      }
    }

    /** `tolerant_sensitive_literal_spans`: on every text the scan ends, with the
        stacks in step and nothing pending; the spans are those of the machine,
        each in the text on character boundaries, and together they cover every
        literal that the reference scan lets reach a sensitive position. */
    method Scan()
      requires Valid() && State() == MACHINE_START
      modifies this`control, this`spans, this`scopes, this`pending
      ensures control.cursor == |source| && pending == [] && StacksOk(control.frames, control.groups, |scopes|)
      ensures spans == SpansOf(source, secretLike)
      ensures SpansOk(source, spans, LiteralsOf(source, secretLike), ExposedOf(source, secretLike))
    {
      while control.cursor < |source|
        invariant Valid()
        invariant TextScanned(source, secretLike, State()) == TextScanned(source, secretLike, MACHINE_START)
        decreases |source| - control.cursor
      {
        Step();
      }
      ScanIsSound(source, secretLike);
      while pending != []
        invariant control.cursor == |source| && spans == SpansOf(source, secretLike)
        invariant StacksOk(control.frames, control.groups, |scopes|)
        decreases |pending|
      {
        FinishTop();
      }
    }
  }
}
