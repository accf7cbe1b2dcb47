/** What the tolerant scan means for the slice that leaves the machine: two texts
    that differ only in exposed literals are redacted alike
    (`crates/krit-assist/src/context.rs`). */
module TolerantSlice {
  import opened Utf8
  import opened Wrappers
  import opened RedactionTargets
  import opened SourceSpans
  import opened LiteralFlow
  import opened TolerantText
  import opened TolerantReference
  import opened TolerantBindings
  import opened TolerantMachine
  import opened TolerantSound
  import Intervals
  import RedactSlice

  // ----- Where literals lie

  /** The first quote at or after `i`, or the end. */
  function NextQuote(source: Text, i: nat): (q: nat)
    requires i <= |source|
    ensures i <= q <= |source| && (q < |source| ==> source[q] == QUOTE)
    ensures forall j :: i <= j < q ==> source[j] != QUOTE
    decreases |source| - i
  {
    if i < |source| && source[i] != QUOTE then NextQuote(source, i + 1) else i
  }

  /** A step adds a literal exactly where the cursor is at a quote. */
  lemma StepLiterals(source: Text, secretLike: Text -> bool, t: Trace)
    requires t.control.cursor < |source|
    ensures var after, (start, end, next) := Stepped(source, secretLike, t), LiteralAt(source, t.control.cursor);
            if source[t.control.cursor] == QUOTE
            then after.literals == t.literals + [(start, end)] && after.control.cursor == next
            else after.literals == t.literals
  {
  }

  /** Every literal found so far ends before the cursor. */
  predicate Behind(t: Trace) {
    forall k :: 0 <= k < |t.literals| ==> t.literals[k].1 <= t.control.cursor
  }

  lemma StepBehind(source: Text, secretLike: Text -> bool, t: Trace)
    requires t.control.cursor < |source| && Behind(t)
    ensures Behind(Stepped(source, secretLike, t))
  {
    StepLiterals(source, secretLike, t);
  }

  /** Every literal still to be found begins after the next quote. */
  lemma {:induction false} FutureLiterals(source: Text, secretLike: Text -> bool, t: Trace)
    requires t.control.cursor <= |source|
    ensures var all := Scanned(source, secretLike, t).literals;
            && t.literals <= all
            && forall k :: |t.literals| <= k < |all| ==> NextQuote(source, t.control.cursor) < all[k].0
    decreases |source| - t.control.cursor
  {
    if t.control.cursor < |source| {
      StepLiterals(source, secretLike, t);
      FutureLiterals(source, secretLike, Stepped(source, secretLike, t));
    }
  }

  // ----- Texts that differ only inside literals

  predicate AgreeTo(source: Text, other: Text, from: nat, last: nat) {
    |source| == |other| && forall b :: from <= b <= last && b < |source| ==> source[b] == other[b]
  }

  predicate InSome(ranges: seq<Range>, b: nat) {
    exists k :: 0 <= k < |ranges| && Inside(ranges[k], b)
  }

  predicate SameOutside(source: Text, other: Text, literals: seq<Range>) {
    |source| == |other| && forall b :: 0 <= b < |source| && source[b] != other[b] ==> InSome(literals, b)
  }

  /** A literal that opens at `q` has this text. */
  ghost predicate Opens(source: Text, q: nat, literal: Range) {
    q < |source| && source[q] == QUOTE && LiteralAt(source, q).0 == literal.0 && LiteralAt(source, q).1 == literal.1
  }

  /** In both texts the literal ends at the same place, and its contents have the
      same holes and look secret-like or not alike. */
  ghost predicate SameLiteral(source: Text, other: Text, secretLike: Text -> bool, literal: Range)
    requires |source| == |other|
  {
    && literal.0 <= literal.1 <= |source|
    && (forall q :: Opens(source, q, literal) ==> LiteralAt(other, q) == LiteralAt(source, q))
    && var content, changed := source[literal.0..literal.1], other[literal.0..literal.1];
       HoleRoots(content, 0) == HoleRoots(changed, 0) && (secretLike(content) <==> secretLike(changed))
  }

  ghost predicate SameLiterals(source: Text, other: Text, secretLike: Text -> bool, literals: seq<Range>)
    requires |source| == |other|
  {
    forall k :: 0 <= k < |literals| ==> SameLiteral(source, other, secretLike, literals[k])
  }

  /** What a step looks at outside a literal is the same in both texts. */
  lemma StepAgrees(source: Text, other: Text, secretLike: Text -> bool, t: Trace)
    requires t.control.cursor < |source| && Behind(t)
    requires SameOutside(source, other, Scanned(source, secretLike, t).literals)
    ensures source[t.control.cursor] == other[t.control.cursor]
    ensures source[t.control.cursor] != QUOTE ==>
              AgreeTo(source, other, t.control.cursor,
                      NextQuote(source, Stepped(source, secretLike, t).control.cursor))
  {
    var after, all := Stepped(source, secretLike, t), Scanned(source, secretLike, t).literals;
    StepLiterals(source, secretLike, t);
    FutureLiterals(source, secretLike, after);
    var last := if source[t.control.cursor] == QUOTE then t.control.cursor else NextQuote(source, after.control.cursor);
    forall b | t.control.cursor <= b <= last && b < |source| ensures source[b] == other[b] {
      forall k | 0 <= k < |all| ensures !Inside(all[k], b) {
        assert k < |after.literals| ==> all[k] == after.literals[k];
      }
      assert !InSome(all, b);
    }
  }

  // ----- The machine reads the text only through these

  lemma SameValues(source: Text, other: Text, p: PendingBinding)
    requires SameCharacters(source, other)
    ensures Finish(source, p) == Finish(other, p) && InProgress(source, p) == InProgress(other, p)
  {
    if p.valueStart.Some? { SameCharRange(source, other, p.valueStart.value, p.valueEnd); }
  }

  lemma SameTopFinished(source: Text, other: Text, m: Machine)
    requires SameCharacters(source, other)
    ensures TopFinished(source, m) == TopFinished(other, m)
  {
    if m.pending != [] { SameValues(source, other, m.pending[|m.pending| - 1]); }
  }

  lemma {:induction false} SameHeldValue(source: Text, other: Text, pending: seq<PendingBinding>, name: Text,
                                         floor: Option<nat>, found: Option<Targets>, i: nat)
    requires SameCharacters(source, other) && i <= |pending|
    ensures HeldValue(source, pending, name, floor, found, i) == HeldValue(other, pending, name, floor, found, i)
    decreases |pending| - i
  {
    if i < |pending| {
      SameValues(source, other, pending[i]);
      SameHeldValue(source, other, pending, name, floor, found, i + 1);
    }
  }

  lemma SameNameUsed(source: Text, other: Text, m: Machine, name: Text)
    requires SameCharacters(source, other)
    ensures NameUsed(source, m, name) == NameUsed(other, m, name)
  {
    SameHeldValue(source, other, m.pending, name, ValueFloor(m.scopes, name), BoundValue(m.scopes, name), 0);
  }

  lemma {:induction false} SameNamesUsed(source: Text, other: Text, m: Machine, names: seq<Text>)
    requires SameCharacters(source, other)
    ensures NamesUsed(source, m, names) == NamesUsed(other, m, names)
    decreases |names|
  {
    if names != [] {
      SameNameUsed(source, other, m, names[0]);
      SameNamesUsed(source, other, NameUsed(source, m, names[0]), names[1..]);
    }
  }

  lemma {:induction false} SameScopeFinished(source: Text, other: Text, m: Machine)
    requires SameCharacters(source, other)
    ensures ScopeFinished(source, m) == ScopeFinished(other, m)
    decreases |m.pending|
  {
    if m.pending != [] && m.pending[|m.pending| - 1].scope >= |m.scopes| - 1 {
      SameTopFinished(source, other, m);
      SameScopeFinished(source, other, TopFinished(source, m));
    }
  }

  lemma SameDelimiter(source: Text, other: Text, m: Machine, byte: Byte)
    requires SameCharacters(source, other)
    ensures DelimiterScanned(source, m, byte) == DelimiterScanned(other, m, byte)
  {
    SameScopeFinished(source, other, m.(control := Advanced(WithToken(GroupShut(m.control), Other))));
  }

  // ----- Looking ahead

  lemma {:induction false} SameIdentifierEnd(source: Text, other: Text, i: nat, last: nat)
    requires i <= |source| && IdentifierEnd(source, i) <= last && AgreeTo(source, other, i, last)
    ensures IdentifierEnd(source, i) == IdentifierEnd(other, i)
    decreases |source| - i
  {
    if i < |source| && IsIdentifierContinue(source[i]) {
      SameIdentifierEnd(source, other, i + 1, last);
    }
  }

  lemma {:induction false} SameCommentEnd(source: Text, other: Text, i: nat, last: nat)
    requires i <= |source| && CommentEnd(source, i) <= last && AgreeTo(source, other, i, last)
    ensures CommentEnd(source, i) == CommentEnd(other, i)
    decreases |source| - i
  {
    if i < |source| && !IsNewline(source[i]) {
      SameCommentEnd(source, other, i + 1, last);
    }
  }

  lemma {:induction false} SameNextVisible(source: Text, other: Text, i: nat, b: Byte)
    requires i <= |source| && AgreeTo(source, other, i, NextQuote(source, i))
    ensures NextVisibleIs(source, i, b) == NextVisibleIs(other, i, b)
    decreases |source| - i
  {
    if i < |source| && IsWhitespace(source[i]) {
      SameNextVisible(source, other, i + 1, b);
    }
  }

  // ----- Steps

  lemma SameClassified(source: Text, other: Text, m: Machine, identifier: Text)
    requires SameCharacters(source, other) && m.control.cursor <= |source|
    requires AgreeTo(source, other, m.control.cursor, NextQuote(source, m.control.cursor))
    ensures IdentifierClassified(source, m, identifier) == IdentifierClassified(other, m, identifier)
  {
    var c := m.control;
    SameNextVisible(source, other, c.cursor, OPEN_PAREN);
    var role := RoleOf(source, c, AsString(identifier));
    SameNameUsed(source, other, m.(control := Named(c, role, identifier)), identifier);
  }

  lemma SameIdentifier(source: Text, other: Text, m: Machine)
    requires SameCharacters(source, other) && m.control.cursor < |source|
    requires AgreeTo(source, other, m.control.cursor,
                     NextQuote(source, IdentifierEnd(source, m.control.cursor + 1)))
    ensures IdentifierScanned(source, m) == IdentifierScanned(other, m)
  {
    var start, end := m.control.cursor, IdentifierEnd(source, m.control.cursor + 1);
    SameName(source, other, start, NextQuote(source, end));
    SameIdentifierTaken(source, other, m, source[start..end], end);
  }

  lemma SameName(source: Text, other: Text, start: nat, last: nat)
    requires start < |source| && IdentifierEnd(source, start + 1) <= last && AgreeTo(source, other, start, last)
    ensures var end := IdentifierEnd(source, start + 1);
            IdentifierEnd(other, start + 1) == end && source[start..end] == other[start..end]
  {
    SameIdentifierEnd(source, other, start + 1, last);
  }

  lemma SameIdentifierTaken(source: Text, other: Text, m: Machine, name: Text, end: nat)
    requires SameCharacters(source, other) && end <= |source| && AgreeTo(source, other, end, NextQuote(source, end))
    ensures IdentifierTaken(source, m, name, end) == IdentifierTaken(other, m, name, end)
  {
    var c := m.control.(cursor := end, closingPattern := false);
    SameClassified(source, other, Touched(m, m.control.cursor, end).(control := c), name);
  }

  lemma SameLiteralScanned(source: Text, other: Text, secretLike: Text -> bool, m: Machine)
    requires SameCharacters(source, other) && m.control.cursor < |source| && source[m.control.cursor] == QUOTE
    requires var (start, end, _) := LiteralAt(source, m.control.cursor);
             SameLiteral(source, other, secretLike, (start, end))
    ensures LiteralScanned(source, secretLike, m) == LiteralScanned(other, secretLike, m)
  {
    var (start, end, next) := LiteralAt(source, m.control.cursor);
    assert Opens(source, m.control.cursor, (start, end));
    var touched := Touched(m, m.control.cursor, next);
    SameNamesUsed(source, other, touched.(pending := RecordAll(touched.pending, (start, end))),
                  HoleRoots(source[start..end], 0));
  }

  lemma SameByte(source: Text, other: Text, secretLike: Text -> bool, m: Machine)
    requires SameCharacters(source, other) && m.control.cursor < |source|
    requires source[m.control.cursor] == other[m.control.cursor]
    requires source[m.control.cursor] == QUOTE ==>
               var (start, end, _) := LiteralAt(source, m.control.cursor);
               SameLiteral(source, other, secretLike, (start, end))
    ensures ByteScanned(source, secretLike, m) == ByteScanned(other, secretLike, m)
  {
    var byte := source[m.control.cursor];
    var n := ByteNoticed(m, byte);
    if byte == LF || byte == SEMICOLON {
      SameTopFinished(source, other, n);
    } else if IsDelimiter(byte) {
      SameDelimiter(source, other, n, byte);
    } else if byte == QUOTE {
      SameLiteralScanned(source, other, secretLike, n);
    }
  }

  lemma NextLiteralIsSame(source: Text, other: Text, secretLike: Text -> bool, t: Trace)
    requires |source| == |other| && t.control.cursor < |source| && source[t.control.cursor] == QUOTE
    requires SameLiterals(source, other, secretLike, Scanned(source, secretLike, t).literals)
    ensures var (start, end, _) := LiteralAt(source, t.control.cursor);
            SameLiteral(source, other, secretLike, (start, end))
  {
    var after, all := Stepped(source, secretLike, t), Scanned(source, secretLike, t).literals;
    StepLiterals(source, secretLike, t);
    FutureLiterals(source, secretLike, after);
    assert all[|t.literals|] == after.literals[|t.literals|];
  }

  lemma SameStep(source: Text, other: Text, secretLike: Text -> bool, m: Machine, t: Trace)
    requires SameCharacters(source, other) && m.control == t.control && t.control.cursor < |source| && Behind(t)
    requires SameOutside(source, other, Scanned(source, secretLike, t).literals)
    requires SameLiterals(source, other, secretLike, Scanned(source, secretLike, t).literals)
    ensures StepScanned(source, secretLike, m) == StepScanned(other, secretLike, m)
  {
    StepAgrees(source, other, secretLike, t);
    if source[m.control.cursor] == QUOTE {
      NextLiteralIsSame(source, other, secretLike, t);
      SameLiteralStep(source, other, secretLike, m);
    } else {
      StepCursor(source, secretLike, t);
      SamePlainStep(source, other, secretLike, m, Stepped(source, secretLike, t).control.cursor);
    }
  }

  /** Where comments and identifiers lead. */
  predicate LeadsTo(source: Text, cursor: nat, next: nat)
    requires cursor < |source|
  {
    if BeginsComment(source, cursor) then next == CommentEnd(source, cursor + 2)
    else if IsIdentifierStart(source[cursor]) then next == IdentifierEnd(source, cursor + 1)
    else cursor < next <= |source|
  }

  lemma StepCursor(source: Text, secretLike: Text -> bool, t: Trace)
    requires t.control.cursor < |source|
    ensures LeadsTo(source, t.control.cursor, Stepped(source, secretLike, t).control.cursor)
  {
  }

  lemma SameLiteralStep(source: Text, other: Text, secretLike: Text -> bool, m: Machine)
    requires SameCharacters(source, other) && m.control.cursor < |source|
    requires source[m.control.cursor] == other[m.control.cursor] == QUOTE
    requires var (start, end, _) := LiteralAt(source, m.control.cursor);
             SameLiteral(source, other, secretLike, (start, end))
    ensures StepScanned(source, secretLike, m) == StepScanned(other, secretLike, m)
  {
    SameByte(source, other, secretLike, m);
  }

  lemma SamePlainStep(source: Text, other: Text, secretLike: Text -> bool, m: Machine, next: nat)
    requires SameCharacters(source, other) && m.control.cursor < |source|
    requires source[m.control.cursor] == other[m.control.cursor] != QUOTE
    requires next <= |source| && LeadsTo(source, m.control.cursor, next)
    requires AgreeTo(source, other, m.control.cursor, NextQuote(source, next))
    ensures StepScanned(source, secretLike, m) == StepScanned(other, secretLike, m)
  {
    var cursor := m.control.cursor;
    if BeginsComment(source, cursor) {
      SameCommentEnd(source, other, cursor + 2, NextQuote(source, next));
    } else if IsIdentifierStart(source[cursor]) {
      SameIdentifier(source, other, m);
    } else {
      SameByte(source, other, secretLike, m);
    }
  }

  /** Both texts take the machine through the same states. */
  lemma {:induction false} SameScan(source: Text, other: Text, secretLike: Text -> bool, m: Machine, t: Trace)
    requires AllCutWell(source) && SameCharacters(source, other)
    requires InStep(source, m, t) && m.control.cursor <= |source| && Behind(t)
    requires SameOutside(source, other, Scanned(source, secretLike, t).literals)
    requires SameLiterals(source, other, secretLike, Scanned(source, secretLike, t).literals)
    ensures TextScanned(source, secretLike, m) == TextScanned(other, secretLike, m)
    decreases |source| - m.control.cursor
  {
    if m.control.cursor < |source| {
      SameStep(source, other, secretLike, m, t);
      StepFollows(source, secretLike, m, t);
      StepBehind(source, secretLike, t);
      SameScan(source, other, secretLike, StepScanned(source, secretLike, m), Stepped(source, secretLike, t));
    }
  }

  /** Texts that differ only inside literals, with the same ends and holes, have
      the same spans. */
  lemma SameSpans(source: Text, other: Text, secretLike: Text -> bool)
    requires WellFormed(source) && SameCharacters(source, other)
    requires SameOutside(source, other, LiteralsOf(source, secretLike))
    requires SameLiterals(source, other, secretLike, LiteralsOf(source, secretLike))
    ensures SpansOf(source, secretLike) == SpansOf(other, secretLike)
  {
    StartFollows(source);
    WellFormedCutsWell(source);
    SameScan(source, other, secretLike, MACHINE_START, START);
  }

  // ----- The slice

  function Listed(spans: seq<Emitted>): seq<Intervals.Interval> {
    seq(|spans|, i requires 0 <= i < |spans| =>
      Intervals.Interval(spans[i].range.0, spans[i].range.1, Label(spans[i].category)))
  }

  /** The redacted slice of a text that need not parse. */
  ghost function SliceOf(source: Text, secretLike: Text -> bool, lo: nat, hi: nat): Text
    requires lo <= hi <= |source|
  {
    RedactSlice.Reference(source, RedactSlice.Clipped(Listed(SpansOf(source, secretLike)), lo, hi), lo, hi, lo)
  }

  /** The literals that reach a sensitive position. */
  ghost predicate InExposed(source: Text, secretLike: Text -> bool, b: nat) {
    exists k :: k in ExposedOf(source, secretLike) && k < |LiteralsOf(source, secretLike)|
                && Inside(LiteralsOf(source, secretLike)[k], b)
  }

  lemma ExposedIsListed(source: Text, secretLike: Text -> bool, b: nat)
    requires WellFormed(source) && InExposed(source, secretLike, b)
    ensures Intervals.Covered(Listed(SpansOf(source, secretLike)), b)
    ensures InSome(LiteralsOf(source, secretLike), b)
  {
    ScanIsSound(source, secretLike);
    var spans, literals := SpansOf(source, secretLike), LiteralsOf(source, secretLike);
    var k :| k in ExposedOf(source, secretLike) && k < |literals| && Inside(literals[k], b);
    assert Holds(Ranges(spans), literals[k]);
    assert Covers(Ranges(spans), b);
    var i :| 0 <= i < |spans| && Inside(Ranges(spans)[i], b);
    assert Intervals.Contains(Listed(spans)[i], b);
  }

  /** End to end: two texts that differ only inside literals which reach a
      sensitive position, with the same ends and holes, have the same redacted
      slice, whether or not they parse. */
  lemma SliceHidesEveryExposedByte(source: Text, other: Text, secretLike: Text -> bool, lo: nat, hi: nat)
    requires WellFormed(source) && SameCharacters(source, other) && lo <= hi <= |source|
    requires SameLiterals(source, other, secretLike, LiteralsOf(source, secretLike))
    requires forall b :: 0 <= b < |source| && source[b] != other[b] ==> InExposed(source, secretLike, b)
    ensures SliceOf(source, secretLike, lo, hi) == SliceOf(other, secretLike, lo, hi)
  {
    forall b | 0 <= b < |source| && source[b] != other[b] ensures InSome(LiteralsOf(source, secretLike), b) {
      ExposedIsListed(source, secretLike, b);
    }
    SameSpans(source, other, secretLike);
    var listed := Listed(SpansOf(source, secretLike));
    var regions := RedactSlice.Clipped(listed, lo, hi);
    forall i | lo <= i < hi && !Intervals.Covered(regions, i) ensures source[i] == other[i] {
      RedactSlice.ClippedCovers(listed, lo, hi, i);
      if source[i] != other[i] { ExposedIsListed(source, secretLike, i); }
    }
    RedactSlice.NothingLeaks(source, other, regions, lo, hi, lo);
  }
}
