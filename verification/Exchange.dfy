/** Replacing an accepted target by an atomic exchange that is checked after
    the fact (`crates/krit-assist/src/proposal.rs`).

    Each file-system call is one step of the state.  Any call may fail, and
    between any two of them another process may write or remove the target any
    number of times. */
module Exchange {
  import opened Utf8
  import opened Wrappers
  import opened Proposal

  const MAX_STAGE_ATTEMPTS := 128

  type Digest = Text

  /** What is to be installed, and the digest of what it may replace. */
  datatype Plan = Plan(candidate: Text, expected: Digest, digest: Text -> Digest)

  datatype Outcome =
    | Installed
    | NotStaged
    | NotInstalled
    | Unreadable
    | NotFinalized
    | Stale
    | RollbackFailed
    | NotCleared

  /** The file-system call the code is about to make. */
  datatype Phase =
    | Creating(attempts: nat)
    | Writing
    | Discarding(outcome: Outcome)
    | Installing
    | Checking
    | Finalizing
    | Undoing(outcome: Outcome)
    | Clearing(outcome: Outcome)
    | Finished(outcome: Outcome)

  datatype CallResult = Succeeds | Fails | AlreadyExists

  datatype Event =
    | Foreign(content: Option<Text>)
    | Call(result: CallResult)

  /** Content removed by the code, and in which phase it was. */
  datatype Destroyed = Destroyed(content: Text, phase: Phase)

  /** The two paths and the next call, with a history: what the exchange took
      out of the target, what the rollback put there and took out, the last
      foreign write since the code last placed the target, and what the code
      has destroyed. */
  datatype State = State(
    target: Option<Text>,
    staged: Option<Text>,
    phase: Phase,
    displaced: Option<Text>,
    restored: Option<Text>,
    undone: Option<Text>,
    foreign: Option<Option<Text>>,
    destroyed: seq<Destroyed>)

  function Initial(target: Option<Text>): State {
    State(target, None, Creating(MAX_STAGE_ATTEMPTS), None, None, None, None, [])
  }

  // ----- Steps

  /** `read_source` accepts bounded UTF-8 only. */
  predicate Readable(content: Text) {
    |content| <= MAX_SOURCE_BYTES && WellFormed(content)
  }

  predicate Matches(plan: Plan, content: Text) {
    Readable(content) && plan.digest(content) == plan.expected
  }

  function Swapped(s: State): State {
    s.(target := s.staged, staged := s.target, foreign := None)
  }

  /** `remove_file` of the staged path. */
  function Removed(s: State): State {
    if s.staged.None? then s
    else s.(staged := None, destroyed := s.destroyed + [Destroyed(s.staged.value, s.phase)])
  }

  function CallStep(plan: Plan, s: State, result: CallResult): State {
    match s.phase
    case Creating(attempts) =>
      if attempts == 0 then s.(phase := Finished(NotStaged))
      else (match result
            case AlreadyExists => s.(phase := Creating(attempts - 1))
            case Fails => s.(phase := Finished(NotStaged))
            case Succeeds => s.(staged := Some([]), phase := Writing))
    case Writing =>
      if result.Succeeds? then s.(staged := Some(plan.candidate), phase := Installing)
      else s.(phase := Discarding(NotStaged))
    case Discarding(outcome) => (if result.Succeeds? then Removed(s) else s).(phase := Finished(outcome))
    case Installing =>
      if result.Succeeds? && s.target.Some? && s.staged.Some?
      then Swapped(s).(displaced := s.target, phase := Checking)
      else s.(phase := Discarding(NotInstalled))
    case Checking =>
      if !result.Succeeds? || s.staged.None? || !Readable(s.staged.value) then s.(phase := Undoing(Unreadable))
      else if plan.digest(s.staged.value) == plan.expected then s.(phase := Finalizing)
      else s.(phase := Undoing(Stale))
    case Finalizing =>
      if result.Succeeds? && s.staged.Some? then Removed(s).(phase := Finished(Installed))
      else s.(phase := Undoing(NotFinalized))
    case Undoing(outcome) =>
      if result.Succeeds? && s.target.Some? && s.staged.Some?
      then Swapped(s).(restored := s.staged, undone := s.target, phase := Clearing(outcome))
      else s.(phase := Finished(RollbackFailed))
    case Clearing(outcome) =>
      if result.Succeeds? && s.staged.Some? then Removed(s).(phase := Finished(outcome))
      else s.(phase := Finished(NotCleared))
    case Finished(_) => s
  }

  function Step(plan: Plan, s: State, event: Event): State {
    match event
    case Foreign(content) => s.(target := content, foreign := Some(content))
    case Call(result) => CallStep(plan, s, result)
  }

  function Run(plan: Plan, s: State, events: seq<Event>): State {
    if events == [] then s
    else Step(plan, Run(plan, s, events[..|events| - 1]), events[|events| - 1])
  }

  // ----- The invariant

  /** The target holds what the code placed there, unless another process has
      written it since. */
  predicate TargetIs(s: State, placed: Option<Text>) {
    s.target == if s.foreign.Some? then s.foreign.value else placed
  }

  predicate Untouched(s: State, original: Option<Text>) {
    && TargetIs(s, original)
    && s.displaced.None? && s.restored.None? && s.undone.None?
  }

  /** After the exchange: the displaced content is held at the staged path. */
  predicate Exchanged(plan: Plan, s: State) {
    && TargetIs(s, Some(plan.candidate))
    && s.displaced.Some? && s.restored.None? && s.undone.None?
    && s.staged == s.displaced && s.destroyed == []
  }

  /** After the rollback: the displaced content is back. */
  predicate RolledBack(s: State) {
    && s.displaced.Some? && s.restored == s.displaced && s.undone.Some?
    && TargetIs(s, s.displaced)
  }

  /** Why the code turned back, in terms of what it displaced. */
  predicate Reason(plan: Plan, outcome: Outcome, displaced: Text) {
    match outcome
    case Unreadable => true
    case NotFinalized => Matches(plan, displaced)
    case Stale => Readable(displaced) && plan.digest(displaced) != plan.expected
    case _ => false
  }

  predicate Inv(plan: Plan, original: Option<Text>, s: State) {
    match s.phase
    case Creating(_) => Untouched(s, original) && s.staged.None? && s.destroyed == []
    case Writing => Untouched(s, original) && s.staged == Some([]) && s.destroyed == []
    case Installing => Untouched(s, original) && s.staged == Some(plan.candidate) && s.destroyed == []
    case Discarding(outcome) => Untouched(s, original) && s.destroyed == [] && outcome in {NotStaged, NotInstalled}
                                && s.staged in {Some([]), Some(plan.candidate)}
    case Checking => Exchanged(plan, s)
    case Finalizing => Exchanged(plan, s) && Matches(plan, s.displaced.value)
    case Undoing(outcome) => Exchanged(plan, s) && Reason(plan, outcome, s.displaced.value)
    case Clearing(outcome) => RolledBack(s) && s.destroyed == [] && s.staged == s.undone
                              && Reason(plan, outcome, s.displaced.value)
    case Finished(outcome) => FinishedInv(plan, original, s, outcome)
  }

  predicate FinishedInv(plan: Plan, original: Option<Text>, s: State, outcome: Outcome) {
    match outcome
    case Installed =>
      && s.displaced.Some? && s.restored.None? && Matches(plan, s.displaced.value) && s.staged.None?
      && s.destroyed == [Destroyed(s.displaced.value, Finalizing)]
      && TargetIs(s, Some(plan.candidate))
    case NotStaged => Untouched(s, original) && DiscardedOwn(plan, s)
    case NotInstalled => Untouched(s, original) && DiscardedOwn(plan, s)
    case RollbackFailed => Exchanged(plan, s)
    case NotCleared => RolledBack(s) && s.destroyed == [] && s.staged == s.undone
    case _ =>
      && RolledBack(s) && s.staged.None? && Reason(plan, outcome, s.displaced.value)
      && s.destroyed == [Destroyed(s.undone.value, Clearing(outcome))]
  }

  /** Only the staged file of this replacement can have been removed. */
  predicate DiscardedOwn(plan: Plan, s: State) {
    forall d :: d in s.destroyed ==> d.phase.Discarding? && d.content in {[], plan.candidate}
  }

  lemma StepKeepsInv(plan: Plan, original: Option<Text>, s: State, event: Event)
    requires Inv(plan, original, s)
    ensures Inv(plan, original, Step(plan, s, event))
  {
    match event
    case Foreign(content) =>
    case Call(result) =>
      if s.phase.Clearing? || s.phase.Finished? {
        LateCall(plan, original, s, result);
      } else if s.phase.Checking? || s.phase.Finalizing? || s.phase.Undoing? {
        ExchangedCall(plan, original, s, result);
      } else {
        EarlyCall(plan, original, s, result);
      }
  }

  lemma EarlyCall(plan: Plan, original: Option<Text>, s: State, result: CallResult)
    requires Inv(plan, original, s)
    requires s.phase.Creating? || s.phase.Writing? || s.phase.Discarding? || s.phase.Installing?
    ensures Inv(plan, original, CallStep(plan, s, result))
  {
  }

  lemma ExchangedCall(plan: Plan, original: Option<Text>, s: State, result: CallResult)
    requires Inv(plan, original, s) && (s.phase.Checking? || s.phase.Finalizing? || s.phase.Undoing?)
    ensures Inv(plan, original, CallStep(plan, s, result))
  {
  }

  lemma LateCall(plan: Plan, original: Option<Text>, s: State, result: CallResult)
    requires Inv(plan, original, s) && (s.phase.Clearing? || s.phase.Finished?)
    ensures Inv(plan, original, CallStep(plan, s, result))
  {
  }

  lemma {:induction false} EveryRun(plan: Plan, original: Option<Text>, events: seq<Event>)
    ensures Inv(plan, original, Run(plan, Initial(original), events))
  {
    if events != [] {
      EveryRun(plan, original, events[..|events| - 1]);
      StepKeepsInv(plan, original, Run(plan, Initial(original), events[..|events| - 1]), events[|events| - 1]);
    }
  }

  // ----- Where in the run things happened

  ghost function At(plan: Plan, original: Option<Text>, events: seq<Event>, i: nat): State
    requires i <= |events|
  {
    Run(plan, Initial(original), events[..i])
  }

  /** Event `i` is the call that exchanges the two paths. */
  ghost predicate IsExchange(plan: Plan, original: Option<Text>, events: seq<Event>, i: nat)
    requires i < |events|
  {
    At(plan, original, events, i).phase.Installing? && At(plan, original, events, i + 1).phase.Checking?
  }

  /** Event `k` is the call that exchanges them back. */
  ghost predicate IsUndo(plan: Plan, original: Option<Text>, events: seq<Event>, k: nat)
    requires k < |events|
  {
    At(plan, original, events, k).phase.Undoing? && At(plan, original, events, k + 1).phase.Clearing?
  }

  function LastForeign(events: seq<Event>): Option<Option<Text>> {
    if events == [] then None
    else match events[|events| - 1]
      case Foreign(content) => Some(content)
      case Call(_) => LastForeign(events[..|events| - 1])
  }

  /** What a path holds after `events` if the code placed `placed` before them. */
  function LastWrite(events: seq<Event>, placed: Option<Text>): Option<Text> {
    match LastForeign(events)
    case Some(content) => content
    case None => placed
  }

  /** The history of a state, read off the run that led to it: `i` is the
      exchange and `k` the rollback, or the run's length if there was none. */
  ghost predicate Happened(plan: Plan, original: Option<Text>, events: seq<Event>, i: nat, k: nat) {
    Tells(plan, original, Run(plan, Initial(original), events), events, i, k)
  }

  ghost predicate Tells(plan: Plan, original: Option<Text>, s: State, events: seq<Event>, i: nat, k: nat) {
    if s.displaced.None? then s.restored.None? && s.foreign == LastForeign(events)
    else
      && i < |events| && IsExchange(plan, original, events, i)
      && s.displaced == At(plan, original, events, i).target
      && if s.restored.None? then s.foreign == LastForeign(events[i + 1..])
         else
           && i < k < |events| && IsUndo(plan, original, events, k)
           && s.restored == s.displaced
           && s.undone == LastWrite(events[i + 1..k], Some(plan.candidate))
           && s.foreign == LastForeign(events[k + 1..])
  }

  lemma LastForeignStep(events: seq<Event>, from: nat)
    requires from < |events|
    ensures LastForeign(events[from..]) ==
              match events[|events| - 1] {
                case Foreign(content) => Some(content)
                case Call(_) => LastForeign(events[from..|events| - 1])
              }
  {
    assert events[from..][..|events| - 1 - from] == events[from..|events| - 1];
  }

  lemma AtPrefix(plan: Plan, original: Option<Text>, events: seq<Event>, n: nat, i: nat)
    requires i <= n <= |events|
    ensures At(plan, original, events[..n], i) == At(plan, original, events, i)
  {
    assert events[..n][..i] == events[..i];
  }

  lemma {:induction false} HistoryOf(plan: Plan, original: Option<Text>, events: seq<Event>) returns (i: nat, k: nat)
    ensures Happened(plan, original, events, i, k)
  {
    i, k := 0, 0;
    if events != [] {
      var n := |events| - 1;
      i, k := HistoryOf(plan, original, events[..n]);
      EveryRun(plan, original, events[..n]);
      var before := Run(plan, Initial(original), events[..n]);
      if before.displaced.None? {
        ExchangeStep(plan, original, events, i, k);
        i := n;
      } else if before.restored.None? {
        UndoStep(plan, original, events, i, k);
        k := n;
      } else {
        LaterStep(plan, original, events, i, k);
      }
    }
  }

  lemma ExchangeStep(plan: Plan, original: Option<Text>, events: seq<Event>, i: nat, k: nat)
    requires events != [] && Happened(plan, original, events[..|events| - 1], i, k)
    requires Inv(plan, original, Run(plan, Initial(original), events[..|events| - 1]))
    requires Run(plan, Initial(original), events[..|events| - 1]).displaced.None?
    ensures Happened(plan, original, events, |events| - 1, k)
  {
    assert events[..|events|] == events;
    assert events[|events|..] == [];
  }

  lemma UndoStep(plan: Plan, original: Option<Text>, events: seq<Event>, i: nat, k: nat)
    requires events != [] && Happened(plan, original, events[..|events| - 1], i, k)
    requires Inv(plan, original, Run(plan, Initial(original), events[..|events| - 1]))
    requires var before := Run(plan, Initial(original), events[..|events| - 1]);
             before.displaced.Some? && before.restored.None?
    ensures Happened(plan, original, events, i, |events| - 1)
  {
    var n := |events| - 1;
    assert events[..|events|] == events;
    assert events[|events|..] == [];
    AtPrefix(plan, original, events, n, i);
    AtPrefix(plan, original, events, n, i + 1);
    LastForeignStep(events, i + 1);
    assert events[..n][i + 1..] == events[i + 1..n];
  }

  /** After the rollback only foreign writes change the target's history. */
  lemma LateHistory(plan: Plan, original: Option<Text>, s: State, event: Event)
    requires Inv(plan, original, s) && s.displaced.Some? && s.restored.Some?
    ensures var after := Step(plan, s, event);
            && after.displaced == s.displaced && after.restored == s.restored && after.undone == s.undone
            && after.foreign == if event.Foreign? then Some(event.content) else s.foreign
  {
  }

  lemma LaterStep(plan: Plan, original: Option<Text>, events: seq<Event>, i: nat, k: nat)
    requires events != [] && Happened(plan, original, events[..|events| - 1], i, k)
    requires Inv(plan, original, Run(plan, Initial(original), events[..|events| - 1]))
    requires var before := Run(plan, Initial(original), events[..|events| - 1]);
             before.displaced.Some? && before.restored.Some?
    ensures Happened(plan, original, events, i, k)
  {
    var n := |events| - 1;
    var before := Run(plan, Initial(original), events[..n]);
    LateHistory(plan, original, before, events[n]);
    StillTells(plan, original, before, Step(plan, before, events[n]), events, i, k);
  }

  lemma StillTells(plan: Plan, original: Option<Text>, before: State, after: State, events: seq<Event>, i: nat, k: nat)
    requires events != [] && Tells(plan, original, before, events[..|events| - 1], i, k)
    requires before.displaced.Some? && before.restored.Some?
    requires after.displaced == before.displaced && after.restored == before.restored && after.undone == before.undone
    requires var event := events[|events| - 1];
             after.foreign == if event.Foreign? then Some(event.content) else before.foreign
    ensures Tells(plan, original, after, events, i, k)
  {
    var n := |events| - 1;
    AtPrefix(plan, original, events, n, i);
    AtPrefix(plan, original, events, n, i + 1);
    AtPrefix(plan, original, events, n, k);
    AtPrefix(plan, original, events, n, k + 1);
    LastForeignStep(events, k + 1);
    assert events[..n][k + 1..] == events[k + 1..n];
    assert events[..n][i + 1..k] == events[i + 1..k];
  }

  // ----- What each outcome means

  /** Success: at the instant of the exchange the target was readable and had
      the expected digest, that content and nothing else is gone, and the
      target holds the candidate until someone writes it. */
  lemma InstalledMeansMatched(plan: Plan, original: Option<Text>, events: seq<Event>) returns (i: nat)
    requires Run(plan, Initial(original), events).phase == Finished(Installed)
    ensures i < |events| && IsExchange(plan, original, events, i)
    ensures var s, instant := Run(plan, Initial(original), events), At(plan, original, events, i);
            && instant.target.Some? && Matches(plan, instant.target.value)
            && s.destroyed == [Destroyed(instant.target.value, Finalizing)]
            && s.target == LastWrite(events[i + 1..], Some(plan.candidate)) && s.staged.None?
  {
    EveryRun(plan, original, events);
    var k;
    i, k := HistoryOf(plan, original, events);
  }

  /** A displaced file that was unreadable, stale or could not be removed, and
      a rollback that completed: the target holds again what it held at the
      instant of the exchange, until someone writes it, and what the rollback
      destroyed is the last write made between the two exchanges. */
  lemma TurnedBackMeansRestored(plan: Plan, original: Option<Text>, events: seq<Event>) returns (i: nat, k: nat)
    requires Run(plan, Initial(original), events).phase.Finished?
    requires Run(plan, Initial(original), events).phase.outcome in {Unreadable, NotFinalized, Stale}
    ensures i < k < |events| && IsExchange(plan, original, events, i) && IsUndo(plan, original, events, k)
    ensures var s, instant := Run(plan, Initial(original), events), At(plan, original, events, i);
            && instant.target.Some? && Reason(plan, s.phase.outcome, instant.target.value)
            && s.target == LastWrite(events[k + 1..], instant.target) && s.staged.None?
            && |s.destroyed| == 1
            && Some(s.destroyed[0].content) == LastWrite(events[i + 1..k], Some(plan.candidate))
  {
    EveryRun(plan, original, events);
    i, k := HistoryOf(plan, original, events);
  }

  /** The rollback itself is unchecked: it destroys a foreign write exactly
      when the last one between the two exchanges is not the candidate. */
  lemma RollbackLosesForeignWrite(plan: Plan, original: Option<Text>, events: seq<Event>) returns (i: nat, k: nat)
    requires Run(plan, Initial(original), events).phase.Finished?
    requires Run(plan, Initial(original), events).phase.outcome in {Unreadable, NotFinalized, Stale}
    ensures i < k < |events| && IsExchange(plan, original, events, i) && IsUndo(plan, original, events, k)
    ensures (exists d :: d in Run(plan, Initial(original), events).destroyed && d.content != plan.candidate) <==>
              LastForeign(events[i + 1..k]) !in {None, Some(Some(plan.candidate))}
  {
    i, k := TurnedBackMeansRestored(plan, original, events);
  }

  /** Such a run: a stale target is exchanged, a foreign write follows, and the
      rollback takes it out and removes it. */
  lemma RollbackLosesForeignWriteExample(plan: Plan, stale: Text, foreign: Text)
    requires Readable(stale) && plan.digest(stale) != plan.expected
    ensures var events := [Call(Succeeds), Call(Succeeds), Call(Succeeds), Foreign(Some(foreign)),
                           Call(Succeeds), Call(Succeeds), Call(Succeeds)];
            var s := Run(plan, Initial(Some(stale)), events);
            && s.phase == Finished(Stale) && s.target == Some(stale)
            && s.destroyed == [Destroyed(foreign, Clearing(Stale))]
  {
    var ok, start := Call(Succeeds), Initial(Some(stale));
    var early := [ok, ok, ok, Foreign(Some(foreign)), ok];
    ExampleUpToRollback(plan, stale, foreign);
    AfterCalls(plan, start, early + [ok], ok);
    AfterCalls(plan, start, early, ok);
    assert early + [ok] + [ok] == [ok, ok, ok, Foreign(Some(foreign)), ok, ok, ok];
  }

  lemma ExampleUpToRollback(plan: Plan, stale: Text, foreign: Text)
    requires Readable(stale) && plan.digest(stale) != plan.expected
    ensures Run(plan, Initial(Some(stale)),
                [Call(Succeeds), Call(Succeeds), Call(Succeeds), Foreign(Some(foreign)), Call(Succeeds)]) ==
            State(Some(foreign), Some(stale), Undoing(Stale), Some(stale), None, None, Some(Some(foreign)), [])
  {
    var ok, start := Call(Succeeds), Initial(Some(stale));
    ExampleExchange(plan, stale);
    assert [ok, ok, ok, Foreign(Some(foreign)), ok] == [ok, ok, ok, Foreign(Some(foreign))] + [ok];
    assert [ok, ok, ok, Foreign(Some(foreign))] == [ok, ok, ok] + [Foreign(Some(foreign))];
    AfterCalls(plan, start, [ok, ok, ok, Foreign(Some(foreign))], ok);
    AfterCalls(plan, start, [ok, ok, ok], Foreign(Some(foreign)));
  }

  lemma ExampleExchange(plan: Plan, stale: Text)
    ensures Run(plan, Initial(Some(stale)), [Call(Succeeds), Call(Succeeds), Call(Succeeds)]) ==
            State(Some(plan.candidate), Some(stale), Checking, Some(stale), None, None, None, [])
  {
    var ok, start := Call(Succeeds), Initial(Some(stale));
    AfterCalls(plan, start, [], ok);
    var created := Run(plan, start, [] + [ok]);
    assert created == start.(staged := Some([]), phase := Writing);
    AfterCalls(plan, start, [ok], ok);
    assert [] + [ok] == [ok];
    var written := Run(plan, start, [ok] + [ok]);
    assert written == created.(staged := Some(plan.candidate), phase := Installing);
    AfterCalls(plan, start, [ok, ok], ok);
    assert [ok] + [ok] == [ok, ok] && [ok, ok] + [ok] == [ok, ok, ok];
  }

  lemma AfterCalls(plan: Plan, s: State, events: seq<Event>, event: Event)
    ensures Run(plan, s, events + [event]) == Step(plan, Run(plan, s, events), event)
  {
    assert (events + [event])[..|events|] == events;
  }

  /** At every moment of every run: what the exchange displaced is destroyed
      only with the expected digest, and is otherwise held at the staged path
      or back at the target. */
  lemma DisplacedIsNeverLost(plan: Plan, original: Option<Text>, events: seq<Event>)
    ensures var s := Run(plan, Initial(original), events);
            s.displaced.Some? ==>
              || s.staged == s.displaced
              || s.restored == s.displaced
              || (s.phase == Finished(Installed) && Matches(plan, s.displaced.value))
    ensures var s := Run(plan, Initial(original), events);
            forall d :: d in s.destroyed ==>
              match d.phase
              case Finalizing => Some(d.content) == s.displaced && Matches(plan, d.content)
              case Discarding(_) => d.content in {[], plan.candidate}
              case Clearing(_) => Some(d.content) == s.undone && s.restored == s.displaced
              case _ => false
  {
    EveryRun(plan, original, events);
  }

  /** Before the exchange the code has not written the target, whatever failed. */
  lemma NoExchangeNoChange(plan: Plan, original: Option<Text>, events: seq<Event>)
    ensures var s := Run(plan, Initial(original), events);
            && (s.displaced.None? ==> s.target == LastWrite(events, original))
            && (s.displaced.None? <==>
                  s.phase.Creating? || s.phase.Writing? || s.phase.Installing? || s.phase.Discarding?
                  || s.phase in {Finished(NotStaged), Finished(NotInstalled)})
  {
    EveryRun(plan, original, events);
    var i, k := HistoryOf(plan, original, events);
  }

  /** With an injective digest, success means the target still held the very
      text the edits were computed from. */
  lemma InstalledReplacesTheBase(plan: Plan, base: Text, original: Option<Text>, events: seq<Event>) returns (i: nat)
    requires Run(plan, Initial(original), events).phase == Finished(Installed)
    requires plan.expected == plan.digest(base)
    requires forall a, b :: plan.digest(a) == plan.digest(b) ==> a == b
    ensures i < |events| && IsExchange(plan, original, events, i)
    ensures At(plan, original, events, i).target == Some(base)
  {
    i := InstalledMeansMatched(plan, original, events);
  }

  // ----- The code

  /** What happens at one file-system call: foreign writes to the target before
      it, and how it ends. */
  datatype Turn = Turn(foreign: seq<Option<Text>>, result: CallResult)

  /** The two paths, an environment that decides every turn, and, as ghosts,
      the machine's state and the events so far. */
  class Replacement {
    const plan: Plan
    const environment: nat -> Turn
    const original: Option<Text>
    var target: Option<Text>
    var staged: Option<Text>
    var turns: nat
    ghost var model: State
    ghost var events: seq<Event>

    ghost predicate Valid()
      reads this
    {
      && target == model.target && staged == model.staged
      && model == Run(plan, Initial(original), events)
    }

    constructor (plan: Plan, environment: nat -> Turn, target: Option<Text>)
      ensures Valid() && model == Initial(target) && events == []
      ensures this.plan == plan && this.environment == environment && this.original == target
    {
      this.plan, this.environment, this.original := plan, environment, target;
      this.target, staged, turns := target, None, 0;
      model, events := Initial(target), [];
    }

    ghost method Record(event: Event)
      requires model == Run(plan, Initial(original), events)
      modifies this`model, this`events
      ensures model == Step(plan, old(model), event) && model == Run(plan, Initial(original), events)
      ensures events == old(events) + [event]
    {
      model, events := Step(plan, model, event), events + [event];
      assert events[..|events| - 1] == old(events);
    }

    /** Let the environment act, and learn how the coming call ends. */
    method Await() returns (result: CallResult)
      requires Valid()
      modifies this
      ensures Valid() && staged == old(staged)
      ensures model.phase == old(model).phase
    {
      var turn := environment(turns);
      turns := turns + 1;
      for i := 0 to |turn.foreign|
        invariant Valid() && staged == old(staged) && model.phase == old(model).phase
      {
        target := turn.foreign[i];
        Record(Foreign(turn.foreign[i]));
      }
      return turn.result;
    }

    /** `renameat_with(.., RENAME_EXCHANGE)`. */
    method RenameExchange() returns (ok: bool)
      requires Valid() && (model.phase.Installing? || model.phase.Undoing?)
      modifies this
      ensures Valid()
      ensures old(model.phase).Installing? ==> model.phase == if ok then Checking else Discarding(NotInstalled)
      ensures old(model.phase).Undoing? ==>
                model.phase == if ok then Clearing(old(model.phase).outcome) else Finished(RollbackFailed)
    {
      var result := Await();
      ok := result.Succeeds? && target.Some? && staged.Some?;
      if ok {
        target, staged := staged, target;
      }
      Record(Call(result));
    }

    /** `create_staged_file` under one candidate name. */
    method CreateStaged() returns (result: CallResult)
      requires Valid() && model.phase.Creating? && model.phase.attempts > 0
      modifies this
      ensures Valid()
      ensures model.phase == match result
                             case Succeeds => Writing
                             case Fails => Finished(NotStaged)
                             case AlreadyExists => Creating(old(model.phase).attempts - 1)
    {
      result := Await();
      if result.Succeeds? {
        staged := Some([]);
      }
      Record(Call(result));
    }

    /** `write_all` and `sync_all`. */
    method WriteStaged() returns (ok: bool)
      requires Valid() && model.phase.Writing?
      modifies this
      ensures Valid() && model.phase == if ok then Installing else Discarding(NotStaged)
    {
      var result := Await();
      ok := result.Succeeds?;
      if ok {
        staged := Some(plan.candidate);
      }
      Record(Call(result));
    }

    /** `read_source` of the staged path, and the comparison of digests. */
    method ReadDisplaced() returns (displaced: Option<Text>)
      requires Valid() && model.phase.Checking?
      modifies this
      ensures Valid()
      ensures model.phase == if displaced.None? then Undoing(Unreadable)
                             else if plan.digest(displaced.value) == plan.expected then Finalizing
                             else Undoing(Stale)
    {
      var result := Await();
      displaced := if result.Succeeds? && staged.Some? && Readable(staged.value) then staged else None;
      Record(Call(result));
    }

    /** `remove_file` of the staged path. */
    method RemoveStaged() returns (ok: bool)
      requires Valid() && (model.phase.Discarding? || model.phase.Finalizing? || model.phase.Clearing?)
      modifies this
      ensures Valid()
      ensures old(model.phase).Discarding? ==> model.phase == Finished(old(model.phase).outcome)
      ensures old(model.phase).Finalizing? ==> model.phase == if ok then Finished(Installed) else Undoing(NotFinalized)
      ensures old(model.phase).Clearing? ==>
                model.phase == Finished(if ok then old(model.phase).outcome else NotCleared)
    {
      var result := Await();
      ok := result.Succeeds? && staged.Some?;
      if ok {
        staged := None;
      }
      Record(Call(result));
    }

    /** `rollback_exchange`; the outcome is the caller's if it completes. */
    method RollbackExchange(reason: Outcome) returns (outcome: Outcome)
      requires Valid() && model.phase == Undoing(reason)
      modifies this
      ensures Valid() && model.phase == Finished(outcome)
      ensures outcome in {reason, RollbackFailed, NotCleared}
    {
      var exchanged := RenameExchange();
      if !exchanged {
        return RollbackFailed;
      }
      var removed := RemoveStaged();
      return if removed then reason else NotCleared;
    }

    /** `install_checked_exchange`. */
    method InstallCheckedExchange() returns (outcome: Outcome)
      requires Valid() && model.phase == Installing
      modifies this
      ensures Valid() && model.phase == Finished(outcome)
    {
      var exchanged := RenameExchange();
      if !exchanged {
        var _ := RemoveStaged();
        return NotInstalled;
      }
      var displaced := ReadDisplaced();
      if displaced.None? {
        outcome := RollbackExchange(Unreadable);
        return;
      }
      if plan.digest(displaced.value) == plan.expected {
        var removed := RemoveStaged();
        if removed {
          return Installed;
        }
        outcome := RollbackExchange(NotFinalized);
        return;
      }
      outcome := RollbackExchange(Stale);
    }

    /** `atomic_replace` with an expected digest. */
    method AtomicReplace() returns (outcome: Outcome)
      requires Valid() && model.phase == Creating(MAX_STAGE_ATTEMPTS)
      modifies this
      ensures Valid() && model.phase == Finished(outcome)
    {
      var attempts: nat := MAX_STAGE_ATTEMPTS;
      while attempts > 0
        invariant Valid() && model.phase == Creating(attempts)
      {
        var result := CreateStaged();
        if result.Fails? {
          return NotStaged;
        }
        if result.Succeeds? {
          var written := WriteStaged();
          if !written {
            var _ := RemoveStaged();
            return NotStaged;
          }
          outcome := InstallCheckedExchange();
          return;
        }
        attempts := attempts - 1;
      }
      var result := Await();
      Record(Call(result));
      return NotStaged;
    }
  }
}
