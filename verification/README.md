# A verified model of Krit's algorithmic cores

Krit is a small language with a capability host, an editor assistant, a
language server, a bounded cache and a SQLite bridge. This project models the
parts of it that carry the promises its comments make, and proves those
promises for every input, every run and every reachable state.

A Rust `str` is modelled by its bytes (`Utf8.Text`), so every offset is an
index into a sequence and `WellFormed` (section 4 of RFC 3629) says the bytes
are a `str`. Code that works step by step is a `class` or a method with a loop;
pure code is functions. `dafny verify dfyconfig.toml` checks everything.

| component | files |
|---|---|
| cache | `CacheConfig`, `CacheModel`, `CacheEviction`, `CacheInvariant`, `CacheNamespace`, `CacheStore`, `CacheOperations`, `CacheRuns` |
| request targets | `Split`, `RequestTarget`, `PathStability`, `PathBuilders` |
| redaction of a parsed program | `RedactionTargets`, `SourceSpans`, `Ast`, `LiteralFlow`, `LiteralWalk`, `LiteralReach`, `LiteralGaps`, `LiteralRules`, `LiteralExact`, `LiteralSlice` |
| redaction of any text | `TolerantText`, `TolerantReference`, `TolerantBindings`, `TolerantMachine`, `TolerantSound`, `TolerantScan`, `TolerantSlice` |
| the redacted slice | `Intervals`, `RedactSlice` |
| positions | `TextPosition` |
| proposals | `Proposal`, `Exchange` |
| database | `RowJson`, `RowRoundTrip`, `RowEncoder`, `DatabaseConnection`, `DatabaseInvocation` |
| build outputs | `BuildOutputs` |

Main results:

- **Cache.** Every run keeps exact accounting, unique recency stamps and all
  budgets (`CacheRuns.EveryRun`); every hit is the last write
  (`EveryHitIsTheLastWrite`); a write is readable at once (`ReadYourWrite`); with
  a clock that does not run backwards, every live entry that is missing was a
  counted victim of a write after its own last write
  (`EveryMissingEntryWasEvicted`). The eviction loop ends, needs no error path,
  and takes exactly the least recently used entries, no more than needed
  (`CacheStore.MakeRoom`).
- **Paths.** Any number of decoders of either reading agree on an accepted path,
  and removing dot segments from the result changes nothing
  (`PathStability.AcceptedPathIsStable`). The segment builder and the host rule
  agree exactly; composition holds exactly when the prefix is not `/` alone and
  does not end in `:/`, and both kinds of prefix are exhibited.
- **Literal flow.** The reference knows where each literal's text is, whatever
  span its node has, and reads names as closures over lexical environments in
  which functions are bound too. A sensitive argument is one of a direct call of
  a built-in by its own name. The promise that every literal which can reach one
  is covered is false of the code for `secret(("x"))`, whose literal has the span
  of its parentheses, and for `fn key() { "x" } secret(key())`, a call by name
  (`LiteralGaps`). Outside these two families it holds for every program
  (`LiteralReach.WithoutCallsAllIsMarked`). With fewer than 64 literals, a byte
  that reaches an argument without such a call is missed exactly when it is in a
  literal whose node is not its own quotes (`LiteralExact.MissedIfWrapped`), and
  the marked bytes are exactly those of an independent semantics
  (`LiteralExact.MarkedExactly`). Two texts that differ only in exposed bytes have
  the same marks, and the same slice leaves the machine
  (`LiteralSlice.SliceHidesEveryExposedByte`).
- **Tolerant scan.** Which literals a text has, and which of them reach a
  sensitive position, are functions of the text, by a reference scan whose taint
  sets are unbounded (`TolerantReference`). The scanner's variables take exactly
  the states of a machine (`TolerantMachine`), so its spans are a function of the
  text too (`TolerantScan.Scanner.Scan`); on any text the machine keeps its stacks
  in step, cuts only at character boundaries, and covers with its bounded targets
  every literal that the reference exposes (`TolerantSound.ScanIsSound`). Two
  texts that differ only in exposed literals have the same spans and the same
  slice (`TolerantSlice.SliceHidesEveryExposedByte`).
- **Exchange.** With foreign writes between any two system calls and any call
  failing: success means the displaced file matched; a rollback restores it; and
  the rollback destroys a foreign write exactly when the last write between the
  two exchanges was not the candidate.
- **Rows.** Encoding succeeds exactly when the declared columns of every row are
  there and representable and the whole document fits; an independent JSON
  reader gets the columns and rows back (`RowRoundTrip.DocumentRoundTrip`).
- **Transactions.** Whatever fails, every sequence of steps ends with each
  database idle or refusing all later transactions; an operation takes place
  outside its transaction exactly when an earlier statement unwound it
  (`DatabaseInvocation`).
- **Build outputs.** Any number of files is replaced or none is, whichever call
  fails, as long as the calls that undo or clean up go through; success needs
  exactly the forward calls to go through (`BuildOutputs.Disk.ReplaceBuildOutputs`).

## Model

| member | source | states |
|---|---|---|
| `RequestTarget.DecodeSegment` | crates/krit-capability/src/request_target.rs:100-123 | the decoding loop accepts exactly the segments whose escapes are complete and name no refused byte, and gives their bytes |
| `RequestTarget.PercentEncode` | crates/krit-capability/src/request_target.rs:203-214 | the loop appends the encoding of every byte in order |
| `RequestTarget.EncodeQuery` | crates/krit-capability/src/request_target.rs:312-324 | the loop joins the encoded pairs with `=` and `&` |
| `PathStability.DecodeOfJoin` | crates/krit-capability/src/request_target.rs:72-123 | decoding a whole path is decoding its segments and joining them again: `/` boundaries survive |
| `PathStability.PassesWithoutEscapes` | crates/krit-capability/src/request_target.rs:144-165 | text in which no escape begins is a fixed point of any sequence of decoders |
| `PathStability.NothingToRemove` | crates/krit-capability/src/request_target.rs:134-140 | section 5.2.4 of RFC 3986 leaves a path without dot segments unchanged |
| `PathStability.AcceptedPathIsStable` | crates/krit-capability/src/request_target.rs:22-183 | one or more passes of any decoders over an accepted path agree on one text, split at `/` into the decoded segments, none of them a dot segment or overlong; dot-segment removal leaves that text alone |
| `PathBuilders.HostDecodesEncoding` | crates/krit-capability/src/request_target.rs:100-123 | the host decodes an encoded text back to it exactly when it holds no byte the host refuses as an escape |
| `PathBuilders.SegmentAgreesWithHost` | crates/krit-capability/src/request_target.rs:236-304 | the builder takes exactly the non-empty texts whose encoding the host accepts after `/`, and what it builds decodes to the text |
| `PathBuilders.SegmentComposes` | crates/krit-capability/src/request_target.rs:284-304 | between an accepted prefix and a suffix accepted after `/`, a built segment is accepted exactly when the prefix is not `/` alone and does not end in `:/` |
| `PathBuilders.RootPrefixBreaks` | crates/krit-capability/src/request_target.rs:284-304 | `/` and `/a:/` are accepted and still break composition |
| `PathBuilders.QueryIsValid` | crates/krit-capability/src/request_target.rs:90-95 | every built query is accepted |
| `PathBuilders.QueryRoundTrip` | crates/krit-capability/src/request_target.rs:312-324 | a reader that cuts at `&`, then at the first `=`, and decodes both sides has the list of pairs again |
| `PathBuilders.QueryIsInjective` | crates/krit-capability/src/request_target.rs:312-324 | different lists of pairs have different queries |
| `CacheNamespace.Remove` | crates/krit-cache/src/store.rs:102-110 | afterwards the three indexes still describe the same entries and the bytes are exact; the result is the charge of the removed entry |
| `CacheNamespace.EvictOne` | crates/krit-cache/src/store.rs:113-120 | evicts the entry with the least stamp, or nothing from an empty namespace |
| `CacheNamespace.SweepExpired` | crates/krit-cache/src/store.rs:123-140 | removes expired entries, earliest deadline first, up to the bound per operation, and returns their exact number and charge |
| `CacheNamespace.Refresh` | crates/krit-cache/src/store.rs:282-291 | moves one entry to a new recency position and nothing else |
| `CacheNamespace.Insert` | crates/krit-cache/src/store.rs:414-427 | adds one entry to all three indexes and its charge |
| `CacheStore.OldestNamespace` | crates/krit-cache/src/store.rs:511-527 | finds the namespace that holds the least stamp anywhere |
| `CacheStore.EvictGlobally` | crates/krit-cache/src/store.rs:511-527 | takes the entry with the least stamp in any namespace |
| `CacheStore.MakeRoom` | crates/krit-cache/src/store.rs:380-412 | the loop ends without an error and with room in both budgets; a local victim has a smaller stamp than what is left of the namespace, a global one than anything left, and each was taken while room was still short |
| `CacheStore.FreshInv` | crates/krit-cache/src/config.rs:58-130 | a cache of a validated configuration starts within the invariant |
| `CacheEviction.EmptyFits` | crates/krit-cache/src/config.rs:58-130 | what a validated policy admits fits an empty namespace and an empty cache, which is why eviction always succeeds |
| `CacheOperations.StoreAccepted` | crates/krit-cache/src/store.rs:368-432 | an accepted write sweeps, releases, evicts and inserts with exactly the specified effect |
| `CacheOperations.Cache.constructor` | crates/krit-cache/src/store.rs:174-198 | a new cache is empty and valid |
| `CacheOperations.Cache.Get` | crates/krit-cache/src/store.rs:259-293 | hit, miss, expiry and refusal, with the whole new state |
| `CacheOperations.Cache.Put` | crates/krit-cache/src/store.rs:302-311 | a write with guest authority |
| `CacheOperations.Cache.Seed` | crates/krit-cache/src/store.rs:322-331 | a write with host authority |
| `CacheOperations.Cache.Write` | crates/krit-cache/src/store.rs:333-432 | refused writes leave the contents untouched; accepted ones have exactly the specified effect |
| `CacheOperations.Cache.Delete` | crates/krit-cache/src/store.rs:436-451 | removes one entry and counts it, or refuses and changes nothing |
| `CacheInvariant.GetKeepsInv` | crates/krit-cache/src/store.rs:259-293 | a read keeps budgets, totals and unique stamps |
| `CacheInvariant.DeleteKeepsInv` | crates/krit-cache/src/store.rs:436-451 | a delete keeps them |
| `CacheInvariant.WriteKeepsInv` | crates/krit-cache/src/store.rs:333-432 | an accepted write keeps them |
| `CacheRuns.StepKeepsInv` | crates/krit-cache/src/store.rs:259-451 | every operation, accepted or refused, keeps the invariant and the policies |
| `CacheRuns.StepSlots` | crates/krit-cache/src/store.rs:259-451 | every entry after an operation was there before with the same value and deadline, unless the operation wrote it |
| `CacheRuns.WriteLoses` | crates/krit-cache/src/store.rs:368-412 | an entry missing after a write had expired or is among the victims |
| `CacheRuns.StepMissing` | crates/krit-cache/src/store.rs:333-432 | with a clock that does not run backwards, the entries a step leaves missing were missing before or are counted victims of its eviction |
| `CacheRuns.ReadYourWrite` | crates/krit-cache/src/store.rs:333-432 | a successful write is read back at the same instant |
| `CacheRuns.EveryRun` | crates/krit-cache/src/store.rs:165-451 | after any run the invariant holds, every entry has the value and deadline of the last write under its key, and at most as many live entries are missing as evictions were counted |
| `CacheRuns.EveryMissingEntryWasEvicted` | crates/krit-cache/src/store.rs:165-451 | with a clock that does not run backwards, each live entry missing at the end of a run was evicted and counted by some accepted write, and neither written nor deleted since |
| `CacheRuns.EveryHitIsTheLastWrite` | crates/krit-cache/src/store.rs:259-293 | whatever came before in the run, a hit has the value of the last write under its key, before its deadline |
| `CacheRuns.GuestsCannotWriteReadOnly` | crates/krit-cache/src/store.rs:345-350 | over any run of guest operations a read-only namespace gains no entry and changes no value |
| `SourceSpans.CharBoundaryRange` | crates/krit-assist/src/context.rs:1361-1374 | the two loops give the range between the last boundary before and the first after |
| `SourceSpans.CharRangeIsLeast` | crates/krit-assist/src/context.rs:1360-1374 | no smaller range on character boundaries contains the bytes |
| `SourceSpans.ContentOnBoundaries` | crates/krit-assist/src/context.rs:1125-1130 | the content of a quoted literal begins and ends on character boundaries |
| `RedactionTargets.TargetSet.RecordSpan` | crates/krit-assist/src/context.rs:1229-1242 | the in-place update equals the value-level one |
| `RedactionTargets.TargetSet.Spill` | crates/krit-assist/src/context.rs:1248-1253 | the same for the spill |
| `RedactionTargets.TargetSet.Absorb` | crates/krit-assist/src/context.rs:1260-1267 | the same for the merge |
| `RedactionTargets.TargetSet.RecordRange` | crates/krit-assist/src/context.rs:1274-1288 | the same for a range, with the collapse to a hull |
| `RedactionTargets.Hull` | crates/krit-assist/src/context.rs:1279-1287 | the hull runs from the least start to the greatest end |
| `RedactionTargets.AddSpanAbsorbs` | crates/krit-assist/src/context.rs:1229-1242 | recording a span keeps the bounds, keeps all coverage and covers the span, across a spill |
| `RedactionTargets.SpillAbsorbs` | crates/krit-assist/src/context.rs:1248-1253 | a spill loses no coverage |
| `RedactionTargets.AddRangeAbsorbs` | crates/krit-assist/src/context.rs:1274-1288 | recording a range keeps bounds and coverage, across a collapse |
| `RedactionTargets.MergeAbsorbs` | crates/krit-assist/src/context.rs:1260-1267 | a merge drops nothing in either direction, whichever side overflowed |
| `RedactionTargets.EveryContributionStaysCovered` | crates/krit-assist/src/context.rs:1187-1289 | however many contributions a value takes, neither list outgrows 64, an overflowed one has no spans, and no contributed byte is uncovered |
| `RedactionTargets.MergeOk` | crates/krit-assist/src/context.rs:1260-1288 | no operation invents an endpoint |
| `Intervals.MergeSensitiveIntervals` | crates/krit-assist/src/context.rs:666-690 | the result is sorted, disjoint and not touching, covers exactly the union of the inputs, and each region has the category of the input that opens it |
| `RedactSlice.Rewrite` | crates/krit-assist/src/context.rs:644-657 | the loop produces the byte-by-byte reference and lists exactly the merged regions |
| `RedactSlice.RedactSlice` | crates/krit-assist/src/context.rs:622-658 | the slice is the selection with each maximal run of sensitive bytes replaced by its marker; the listed redactions cover exactly the sensitive bytes selected, on character boundaries |
| `RedactSlice.ClippedCovers` | crates/krit-assist/src/context.rs:627-634 | clipping keeps exactly the sensitive bytes of the selection |
| `RedactSlice.NothingLeaks` | crates/krit-assist/src/context.rs:622-658 | sources that agree outside the sensitive regions have the same slice |
| `RedactSlice.NothingIsLost` | crates/krit-assist/src/context.rs:622-658 | sources with the same slice agree on every byte outside the sensitive regions |
| `LiteralReach.CollectCovers` | crates/krit-assist/src/context.rs:834-983 | with scopes that know the environment, collecting covers every byte of a delimited literal that the expression reaches under lexical scoping without calling a declared function, block-local names included |
| `LiteralReach.CollectGrows` | crates/krit-assist/src/context.rs:834-983 | collecting keeps the bounds and never loses coverage |
| `LiteralReach.SnapshotCovers` | crates/krit-assist/src/context.rs:811-832 | a snapshot covers all that its expression reaches so |
| `LiteralReach.DeclareKnows` | crates/krit-assist/src/context.rs:761-781 | declaring keeps the scopes in step with the environment, for names that reach without a call |
| `LiteralReach.MarkCovers` | crates/krit-assist/src/context.rs:985-1111 | the walk of an expression emits spans over every byte that reaches a sensitive argument in it so |
| `LiteralReach.EveryExposedByteIsMarked` | crates/krit-assist/src/context.rs:707-1123 | in every program, every byte of a literal that reaches a sensitive argument which calls no declared function, or that names a queue or schedule, is inside a span of the result, unless the literal's node is not its own quotes |
| `LiteralReach.WithoutCallsAllIsMarked` | crates/krit-assist/src/context.rs:707-1123 | in every program none of whose sensitive arguments mentions a declared function, itself or through the values it mentions, all exposed text is covered except that of wrapped literals |
| `LiteralGaps.ParenthesisedLiteralLeaks` | crates/krit/src/parser.rs:825-828 | `secret(("x"))`: the parser widens the span to the parentheses, so the text reaches `secret` and no span is emitted |
| `LiteralGaps.NamedFunctionLeaks` | crates/krit-assist/src/context.rs:761-781 | `fn key() { "x" } secret(key())`: the name of a function is not bound, so the text reaches `secret` through the call and no span is emitted |
| `LiteralRules.EverySpanIsOnBoundaries` | crates/krit-assist/src/context.rs:707-1123 | in every program of well-formed text, every emitted span is in the text on character boundaries, so cutting there never panics |
| `LiteralReach.OwnCategoryWins` | crates/krit-assist/src/context.rs:1076-1095 | a call's categories are applied on top of its operands': a region has the category of the last sensitive position it contributes to |
| `LiteralReach.ShadowingNeverRetargets` | crates/krit-assist/src/context.rs:697-809 | whatever is declared later, a name it does not declare resolves to the same snapshot |
| `LiteralExact.SnapshotIsExact` | crates/krit-assist/src/context.rs:811-839 | a snapshot that kept no ranges covers exactly the delimited literals that the expression holds or reaches through the values of names, each taken with the environment it was declared in |
| `LiteralExact.MarkedExactly` | crates/krit-assist/src/context.rs:707-1123 | with fewer than 64 literals, a byte is marked exactly when it is in a delimited literal that is secret-like or reaches a sensitive argument, with names read as closures that no function is bound in |
| `LiteralExact.MissedIfWrapped` | crates/krit-assist/src/context.rs:1125-1130 | with fewer than 64 literals, a byte that reaches a sensitive argument without a call is missed exactly when its literal's node is not its own quotes |
| `LiteralSlice.SameMarkBlock` | crates/krit-assist/src/context.rs:707-1111 | texts with the same character boundaries and the same quotes at the delimiters of every literal have the same marks |
| `LiteralSlice.SliceHidesEveryExposedByte` | crates/krit-assist/src/context.rs:622-1123 | two texts of one program that differ only in exposed bytes, each with its own spans, have the same redacted slice |
| `LiteralWalk.CollectExpression` | crates/krit-assist/src/context.rs:840-951 | with distinct spans, the loop over the spine with pending operands and the visited set collects what plain recursion does |
| `LiteralWalk.CollectStatements` | crates/krit-assist/src/context.rs:953-983 | the same for a block |
| `LiteralWalk.TakeSnapshot` | crates/krit-assist/src/context.rs:811-832 | a snapshot, with the expression's own range on overflow |
| `LiteralWalk.Walker.ExpressionSpans` | crates/krit-assist/src/context.rs:985-1111 | the loop over the spine marks what plain recursion does and restores the scopes |
| `LiteralWalk.Walker.BlockSpans` | crates/krit-assist/src/context.rs:783-800 | one scope per block, popped again |
| `LiteralWalk.Walker.StatementSpans` | crates/krit-assist/src/context.rs:711-759 | resources, values and handler bodies |
| `LiteralWalk.Walker.DeclareStatement` | crates/krit-assist/src/context.rs:763-781 | the innermost scope binds the snapshot |
| `LiteralWalk.Walker.Program` | crates/krit-assist/src/context.rs:1113-1123 | the emitted spans are those of the plain recursion |
| `TolerantText.TextBlockEnd` | crates/krit-assist/src/context.rs:1828-1842 | the first three quotes that begin a line after blanks, or the end |
| `TolerantText.FindHoleRoots` | crates/krit-assist/src/context.rs:1801-1826 | the names after each unescaped hole opener, each cut on character boundaries |
| `TolerantText.ScanToQuote` | crates/krit-assist/src/context.rs:1748-1761 | the first quote that no backslash escapes, or the end |
| `TolerantText.GroupedIdentifier` | crates/krit-assist/src/context.rs:1852-1875 | finds a name exactly when the reference does |
| `TolerantText.GroupedExactly` | crates/krit-assist/src/context.rs:1852-1875 | the reference names an identifier exactly when the tokens end in it wrapped in balanced parentheses |
| `TolerantScan.Inherited` | crates/krit-assist/src/context.rs:1456-1492 | the search through scopes and open bindings finds the value of the machine |
| `TolerantSound.InheritedCarries` | crates/krit-assist/src/context.rs:1456-1492 | that value carries every literal of the taint the name has in the reference scan, and is missing only where the taint is empty |
| `TolerantBindings.SameBarrier` | crates/krit-assist/src/context.rs:1456-1475 | scanner and reference find a name in the same scope, so a parameter stops both searches at the same place |
| `TolerantBindings.FinishCarries` | crates/krit-assist/src/context.rs:1327-1357 | finishing, or looking at, a binding keeps its bounds, its boundaries and every literal it carries |
| `TolerantScan.Scanner.FinishTop` | crates/krit-assist/src/context.rs:1437-1448 | takes the scanner to the machine's state after a binding ends |
| `TolerantSound.FinishFollows` | crates/krit-assist/src/context.rs:1437-1448 | a finished binding goes to the scope of its declaration, which is live, and carries the taint of the reference |
| `TolerantScan.Scanner.Reference` | crates/krit-assist/src/context.rs:1453-1515 | the machine's state after a name is used |
| `TolerantSound.UseFollows` | crates/krit-assist/src/context.rs:1453-1515 | every open binding inherits what the name carries in the reference, and if some frame is sensitive all of it is covered by the spans |
| `TolerantScan.Scanner.ScanIdentifier` | crates/krit-assist/src/context.rs:1525-1578 | the machine's state after one identifier |
| `TolerantScan.Scanner.Classify` | crates/krit-assist/src/context.rs:1536-1578 | keyword, pattern, declared name, parameter or use, as the machine tells them apart |
| `TolerantSound.IdentifierFollows` | crates/krit-assist/src/context.rs:1525-1578 | after an identifier the machine still has the control of the reference and holds what it knows |
| `TolerantScan.Scanner.OpenGroup` | crates/krit-assist/src/context.rs:1650-1694 | the machine's state after a bracket or brace opens |
| `TolerantScan.Scanner.CloseGroup` | crates/krit-assist/src/context.rs:1695-1724 | the machine's state after one closes |
| `TolerantSound.PushFollows` | crates/krit-assist/src/context.rs:1650-1694 | a group pushes a frame and, for a block, a scope in which the parameters stop the search, in the machine as in the reference |
| `TolerantSound.PopGroupFollows` | crates/krit-assist/src/context.rs:1695-1724 | a closer closes only the group it matches; for a block there is always a scope to leave, and none of its bindings is left pending |
| `TolerantScan.Scanner.ScanLiteral` | crates/krit-assist/src/context.rs:1736-1793 | the machine's state after a literal, which is cut on character boundaries |
| `TolerantSound.LiteralScanFollows` | crates/krit-assist/src/context.rs:1736-1793 | every open binding takes the literal and what its holes carry, and a sensitive one is covered by the spans, as in the reference |
| `TolerantScan.Scanner.Step` | crates/krit-assist/src/context.rs:1516-1799 | one turn of the scan, comments included, is one step of the machine |
| `TolerantScan.Scanner.Scan` | crates/krit-assist/src/context.rs:1409-1799 | the scan ends on every well-formed text with nothing pending and its stacks in step; the spans are a function of the text, lie in it on character boundaries and cover every literal that the reference exposes |
| `TolerantSound.StepFollows` | crates/krit-assist/src/context.rs:1516-1799 | each step of the machine keeps the coupling with the reference and the stacks in step |
| `TolerantSound.ScanIsSound` | crates/krit-assist/src/context.rs:1409-1799 | over the whole text: stacks in step, spans on boundaries, every exposed literal covered |
| `TolerantSlice.FutureLiterals` | crates/krit-assist/src/context.rs:1516-1799 | the literals still to be found begin after the next quote |
| `TolerantSlice.SameSpans` | crates/krit-assist/src/context.rs:1409-1799 | texts that differ only inside literals, with the same ends, holes and secret-like looks, have the same spans |
| `TolerantSlice.SliceHidesEveryExposedByte` | crates/krit-assist/src/context.rs:622-658 | two such texts that differ only inside exposed literals have the same redacted slice |
| `TextPosition.BuildStarts` | crates/krit-assist/src/context.rs:2071-2079 | one pass finds the start of every line |
| `TextPosition.FindOffset` | crates/krit-assist/src/context.rs:2081-2109 | the scan of one line's characters, strict or clamping |
| `TextPosition.PositionOfByte` | crates/krit-lsp/src/position.rs:20-31 | any byte has the position of the last character boundary at or before it |
| `TextPosition.PositionUndoesOffset` | crates/krit-assist/src/context.rs:2081-2143 | the offset that the strict index gives for a position has that position |
| `TextPosition.OffsetUndoesPosition` | crates/krit-assist/src/context.rs:2081-2143 | the position of a boundary leads back to it exactly if it is outside a CRLF and its line and column fit in 32 bits |
| `TextPosition.ShortTextFits` | crates/krit-assist/src/context.rs:2120-2130 | in a text shorter than 4 GiB every line and column fits |
| `TextPosition.ClampingAgreesWithStrict` | crates/krit-lsp/src/position.rs:33-55 | the two indexes agree, except that one clamps exactly where the other calls the column outside the line |
| `TextPosition.ResolvedIsValid` | crates/krit-assist/src/context.rs:539-580 | every range that is resolved passes validation |
| `TextPosition.ValidResolvesBack` | crates/krit-assist/src/context.rs:539-580 | a valid range is what its positions resolve to exactly when neither end splits a CRLF |
| `Proposal.ValidateEdits` | crates/krit-assist/src/proposal.rs:601-653 | passes exactly the lists of 1 to 64 edits that are each valid, inside the selection, bounded, free of terminal controls, pairwise disjoint and in order; otherwise the reported reason is true of the first bad edit |
| `Proposal.PassedBefore` | crates/krit-assist/src/proposal.rs:633-650 | comparing neighbours compares every pair |
| `Proposal.ApplyEdits` | crates/krit-assist/src/proposal.rs:665-668 | reverse in-place replacement equals the left-to-right splice, and every replacement is on character boundaries |
| `Proposal.CandidateSource` | crates/krit-assist/src/proposal.rs:660-673 | the candidate is the splice, is UTF-8, and is refused exactly above the source limit |
| `Proposal.EditLands` | crates/krit-assist/src/proposal.rs:665-668 | each replacement stands where the edits before it push it |
| `Proposal.ByteIsKept` | crates/krit-assist/src/proposal.rs:665-668 | each byte outside all edits is kept, moved by the edits before it |
| `Proposal.SplicedLength` | crates/krit-assist/src/proposal.rs:665-668 | the length is the base less what is removed plus what is inserted |
| `Proposal.SelectionBoundsTheChange` | crates/krit-assist/src/proposal.rs:606-668 | a validated response changes nothing to the left or to the right of the selection |
| `Exchange.EveryRun` | crates/krit-assist/src/proposal.rs:1096-1227 | the protocol's invariant, in every run with foreign writes and failing calls anywhere |
| `Exchange.HistoryOf` | crates/krit-assist/src/proposal.rs:1181-1227 | what a state remembers is what happened at the exchange and at the rollback of its run |
| `Exchange.InstalledMeansMatched` | crates/krit-assist/src/proposal.rs:1181-1217 | success: at the instant of the exchange the target was readable with the expected digest, only that content is destroyed, and the target holds the candidate until someone writes it |
| `Exchange.InstalledReplacesTheBase` | crates/krit-assist/src/proposal.rs:1181-1217 | with an injective digest the replaced content is the base |
| `Exchange.TurnedBackMeansRestored` | crates/krit-assist/src/proposal.rs:1195-1227 | a completed rollback puts back what the target held at the exchange, and destroys the last write between the two exchanges |
| `Exchange.RollbackLosesForeignWrite` | crates/krit-assist/src/proposal.rs:1220-1227 | a rollback destroys something other than the candidate exactly when the last foreign write between the exchanges was something else |
| `Exchange.RollbackLosesForeignWriteExample` | crates/krit-assist/src/proposal.rs:1220-1227 | a run in which it does |
| `Exchange.DisplacedIsNeverLost` | crates/krit-assist/src/proposal.rs:1181-1227 | at every moment the displaced content is at the staged path, back in place, or was destroyed with the expected digest |
| `Exchange.NoExchangeNoChange` | crates/krit-assist/src/proposal.rs:1096-1147 | until the exchange the code does not change the target, and exactly the early failures have no exchange |
| `Exchange.Replacement.AtomicReplace` | crates/krit-assist/src/proposal.rs:1096-1147 | the code, staging included, takes exactly the machine's steps |
| `Exchange.Replacement.InstallCheckedExchange` | crates/krit-assist/src/proposal.rs:1181-1217 | the same for the checked exchange |
| `Exchange.Replacement.RollbackExchange` | crates/krit-assist/src/proposal.rs:1220-1227 | the same for the rollback |
| `RowEncoder.DigitsFromI64` | crates/krit-database/src/value.rs:209-248 | the division loop over fixed buffers renders every `i64` in full |
| `RowEncoder.WriteUnicodeEscape` | crates/krit-database/src/value.rs:190-200 | six ASCII bytes |
| `RowEncoder.RowEncoder.constructor` | crates/krit-database/src/value.rs:40-64 | an empty encoder within its budget |
| `RowEncoder.RowEncoder.PushLiteral` | crates/krit-database/src/value.rs:134-153 | all of the text or, over budget, nothing |
| `RowEncoder.RowEncoder.PushJsonString` | crates/krit-database/src/value.rs:160-181 | a string is pushed exactly when its escaped form fits |
| `RowEncoder.RowEncoder.BeginRow` | crates/krit-database/src/value.rs:68-81 | opens a row within the row bound and the budget |
| `RowEncoder.RowEncoder.PushColumn` | crates/krit-database/src/value.rs:85-108 | succeeds exactly for representable values that fit |
| `RowEncoder.RowEncoder.EndRow` | crates/krit-database/src/value.rs:110-120 | succeeds exactly at the declared width |
| `RowEncoder.RowEncoder.Finish` | crates/krit-database/src/value.rs:122-131 | closes the document, for which room was reserved |
| `RowEncoder.OpenEncoder` | crates/krit-database/src/value.rs:40-64 | the document up to the first row, exactly when it fits |
| `RowEncoder.Encode` | crates/krit-database/src/connection.rs:358-386 | succeeds exactly when every row has the declared columns with representable values, the rows are within their bound and the whole document fits; the result is the document of the declared columns, whatever a wider row holds after them |
| `RowRoundTrip.StringRoundTrip` | crates/krit-database/src/value.rs:160-181 | an independent reader of section 7 of RFC 8259 gets every string back |
| `RowRoundTrip.ReadsInt` | crates/krit-database/src/value.rs:209-248 | and every integer |
| `RowRoundTrip.DocumentRoundTrip` | crates/krit-database/src/value.rs:39-181 | reading the document gives the columns and the rows, all of them and nothing else |
| `DatabaseConnection.Database.Begin` | crates/krit-database/src/connection.rs:293-333 | begins exactly on an idle healthy connection, and poisons one found inside a transaction |
| `DatabaseConnection.Database.RollbackNow` | crates/krit-database/src/connection.rs:500-513 | leaves the connection idle or blocked |
| `DatabaseConnection.Database.Prepare` | crates/krit-database/src/connection.rs:581-601 | the checks before an operation, and its count |
| `DatabaseConnection.Database.Operate` | crates/krit-database/src/connection.rs:340-436 | an interruption unwinds and completes the transaction; any other failure leaves it open; a statement runs outside its transaction exactly when the connection has already lost it |
| `DatabaseConnection.Database.Commit` | crates/krit-database/src/connection.rs:439-470 | succeeds exactly when every step does; a publication whose check fails has the outcome `RolledBack` |
| `DatabaseConnection.Database.Rollback` | crates/krit-database/src/connection.rs:487-498 | completes the transaction; the connection is idle or blocked |
| `DatabaseConnection.Database.Abandon` | crates/krit-database/src/connection.rs:519-524 | nothing for a completed transaction, a rollback otherwise |
| `DatabaseConnection.StrayWriteOutlivesRollback` | crates/krit-database/src/connection.rs:487-513 | a write that is durable although the rollback of its transaction reports success |
| `DatabaseInvocation.InvocationDatabases.BeginTransaction` | crates/krit-runtime/src/database.rs:182-213 | begins exactly when nothing is open, the configured number is not reached and the database begins |
| `DatabaseInvocation.InvocationDatabases.OperateOn` | crates/krit-runtime/src/database.rs:215-247 | an operation that completed its transaction retires it; it takes place outside the transaction exactly when an earlier statement unwound that |
| `DatabaseInvocation.InvocationDatabases.CommitSlot` | crates/krit-runtime/src/database.rs:254-271 | the transaction is retired whatever happened, its destructor undoes an early failure, and the flag records exactly the verified write commits |
| `DatabaseInvocation.InvocationDatabases.RollbackSlot` | crates/krit-runtime/src/database.rs:273-282 | the transaction is retired, its connection idle or blocked |
| `DatabaseInvocation.InvocationDatabases.AbandonSlot` | crates/krit-runtime/src/database.rs:356-368 | the same when the guest drops its handle |
| `DatabaseInvocation.InvocationDatabases.AbandonEvery` | crates/krit-runtime/src/database.rs:290-302 | on every exit no database is left inside a transaction unless it refuses all later ones |
| `DatabaseInvocation.InvocationDatabases.Step` | crates/krit-runtime/src/database.rs:147-379 | every step keeps all of it, and blocking is permanent |
| `DatabaseInvocation.InvocationDatabases.Run` | crates/krit-runtime/src/database.rs:147-379 | the same over any commands with any faults; no operation takes place outside a transaction unless some statement fails, unwinds its transaction and is not an interruption |
| `DatabaseInvocation.PublishedButUnrecorded` | crates/krit-database/src/connection.rs:450-468 | a write that was published and is not recorded |
| `DatabaseInvocation.BlockedRefuses` | crates/krit-database/src/connection.rs:541-548 | a blocked database refuses every later transaction |
| `BuildOutputs.Disk.AllocateSidecar` | crates/krit-cli/src/main.rs:477-495 | the first free name of a hundred, or none exactly when all are taken |
| `BuildOutputs.Disk.Stage` | crates/krit-cli/src/main.rs:462-475 | a staged file beside its output, exactly when the forward calls go through and a name is free; otherwise nothing is left, unless the removal fails |
| `BuildOutputs.Disk.BackUpAll` | crates/krit-cli/src/main.rs:409-427 | every existing output is moved to a fresh backup, or a forward call failed and everything is undone unless an undo call fails |
| `BuildOutputs.Disk.InstallAll` | crates/krit-cli/src/main.rs:429-440 | every staged file is installed, or a forward call failed and everything is undone unless an undo call fails |
| `BuildOutputs.Disk.RestoreAll` | crates/krit-cli/src/main.rs:503-512 | restores every output unless one of its own calls fails, and never loses first content |
| `BuildOutputs.Disk.ReplaceBuildOutputs` | crates/krit-cli/src/main.rs:380-447 | however many files: an error means that a forward call failed or that no sidecar name was free, success that all forward calls went through; if the undo and clean-up calls go through, an error leaves the disk exactly as it was and success leaves exactly the new outputs; even if not, an error never loses the first content of an output and success has every new output in place |

## Left out

- The Krit parser, analyzer, formatter, lowering and Wasm backend: the syntax tree is a small datatype, and formatting and parsing of a candidate are not modelled.
- Distinct spans: `LiteralWalk` requires that no span belongs to two nodes, since the source's visited set holds spans; the soundness theorems do not need it.
- Binders of match patterns, let-else arms and function parameters are not tracked, as in the source: a value that flows through one (`match x { Some(v) => secret(v) }`) is not part of what a literal is said to reach, and no theorem covers it.
- LiteralReach.EveryExposedByteIsMarked: does not cover an argument that calls a declared function or a literal in parentheses, because the code leaks there; `LiteralGaps` has the programs, `LiteralExact.MissedIfWrapped` and `LiteralExact.MarkedExactly` the conditions.
- LiteralExact.MarkedExactly: is stated for fewer than 64 literals, because from there on ranges may also cover text that reaches nothing.
- LiteralExact.MissedIfWrapped: the same bound, and the wrapped text is taken not to lie inside another literal of the program, as two literals of a parsed text never overlap unless one is in a hole of the other.
- Indirect calls: a built-in that is called through another name (`let get = secret; get("x")`) is not a sensitive call of the model; the analyzer rejects such programs.
- LiteralSlice.SliceHidesEveryExposedByte: both texts have one tree, so the same literals look secret-like in both; a text whose change alters that can change what is redacted.
- The markers of `looks_secret_like`: whether a literal looks secret-like is a flag of the tree and a parameter of the scanner.
- The tolerant scan is not compared with the parsed walk: it lets a line break directly behind `=` end the binding, so neither redacts a superset of the other.
- Cache recency stamps are unbounded: the 64-bit counter is not wrapped.
- The cache's namespaces are values held in a map, not objects: aliasing between them is not captured. `Cache::new` is modelled as a predicate on the configuration; which of several configuration errors is reported first is not.
- Mutexes, the wall clock and `Instant`: operations happen one after the other at a given time, deadlines are injected failures, and a lost lock is a step of the environment that blocks a database as poisoning does.
- DatabaseConnection.Database.Commit: on a connection whose transaction a statement has already unwound, SQLite refuses COMMIT and the ROLLBACK after it, which poisons; the model lets either call work there, so its runs include all of SQLite's and more.
- SQLite: a connection is an autocommit flag and calls that may fail; statement text, parameters and result rows are not modelled, and two invocations on one database are not interleaved.
- File permissions, symbolic links, directories and path canonicalization; `exists` is taken to answer truthfully, and sidecar names are kept apart from destinations by their type.
- Interference on the staged path, and writers that keep a file open across an exchange; `atomic_replace` without an expected digest is one rename.
- The checks of a response that are equality tests of identifiers, and the provider summary.
- `HttpOrigin` depends on how the `url` crate parses, which is not part of this model; the SQL catalog scanner is meant to agree with SQLite's tokenizer, which is not either.
- Option parsing, rendering, the serve and invoke loops and the language-server dispatch: they pass values between libraries. Manifests, permission plans, error codes and network tables: lookups, branch by branch. The metrics script counts by heuristics and promises nothing.
- Documentation and code: the comment of `merge_sensitive_intervals` says the widest contributor names a merged region, but the test it uses can never succeed; in the model, as in the code, a region has the category of the interval that sorts first in it. The comment of `encode_path_segment` promises composition with any safe prefix; `PathBuilders.SegmentComposes` has the exact condition.
