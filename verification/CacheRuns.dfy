/** Whole runs of the cache, compared with a map that forgets nothing but deleted
    keys
    (`crates/krit-cache/src/store.rs`). */
module CacheRuns {
  import opened Utf8
  import opened Wrappers
  import opened CacheConfig
  import opened CacheModel
  import opened CacheInvariant
  import opened CacheStore

  datatype Op =
    | Get(name: Text, key: Text, now: nat)
    | Write(name: Text, key: Text, value: Text, ttl: int, now: nat, writer: Writer)
    | Delete(name: Text, key: Text)

  datatype Reply = Read(read: Result<Option<Text>, CacheError>) | Wrote(wrote: Result<(), CacheError>)

  /** One serial operation under the cache's lock. */
  ghost predicate Step(s: CacheState, op: Op, reply: Reply, s': CacheState) {
    match op
    case Get(name, key, now) => reply.Read? && GetStep(s, s', name, key, now, reply.read)
    case Write(name, key, value, ttl, now, writer) =>
      reply.Wrote? && WriteStep(s, s', name, key, value, ttl, now, writer, reply.wrote)
    case Delete(name, key) => reply.Wrote? && DeleteStep(s, s', name, key, reply.wrote)
  }

  predicate Accepted(op: Op, reply: Reply) {
    !op.Get? && reply == Wrote(Ok(()))
  }

  lemma AcceptedTtl(s: CacheState, name: Text, key: Text, value: Text, ttl: int, now: nat, writer: Writer)
    requires WriteRefusal(s, name, key, value, ttl, now, writer).None?
    ensures ttl > 0 && GetRefusal(s, name, key).None?
  {
  }

  /** What an accepted write removed. */
  lemma AcceptedWrite(s: CacheState, s': CacheState, name: Text, key: Text, value: Text, ttl: int, now: nat,
                      writer: Writer)
    returns (removed: Removed)
    requires WriteStep(s, s', name, key, value, ttl, now, writer, Ok(()))
    ensures WriteEffect(s, s', name, key, value, ttl, now, removed) && ttl > 0
  {
    AcceptedTtl(s, name, key, value, ttl, now, writer);
    removed :| WriteEffect(s, s', name, key, value, ttl, now, removed);
  }

  lemma RefusedWrite(s: CacheState, s': CacheState, name: Text, key: Text, value: Text, ttl: int, now: nat,
                     writer: Writer, reply: Result<(), CacheError>)
    requires WriteStep(s, s', name, key, value, ttl, now, writer, reply) && reply.Err?
    ensures s' == s.(stamp := s.stamp + 1)
  {
  }

  lemma WriteStepKeepsInv(s: CacheState, s': CacheState, name: Text, key: Text, value: Text, ttl: int, now: nat,
                          writer: Writer, reply: Result<(), CacheError>)
    requires Inv(s) && WriteStep(s, s', name, key, value, ttl, now, writer, reply)
    ensures Inv(s') && s'.policies == s.policies
  {
    if reply.Ok? {
      var removed := AcceptedWrite(s, s', name, key, value, ttl, now, writer);
      WriteKeepsInv(s, s', name, key, value, ttl, now, removed);
    } else {
      RefusedWrite(s, s', name, key, value, ttl, now, writer, reply);
      assert StampsUpTo(s'.contents, s.stamp + 1);
    }
  }

  lemma GetKeepsPolicies(s: CacheState, s': CacheState, name: Text, key: Text, now: nat,
                         reply: Result<Option<Text>, CacheError>)
    requires GetStep(s, s', name, key, now, reply)
    ensures s'.policies == s.policies
  {
  }

  lemma DeleteKeepsPolicies(s: CacheState, s': CacheState, name: Text, key: Text, reply: Result<(), CacheError>)
    requires DeleteStep(s, s', name, key, reply)
    ensures s'.policies == s.policies
  {
  }

  /** Every operation keeps the invariant. */
  lemma StepKeepsInv(s: CacheState, op: Op, reply: Reply, s': CacheState)
    requires Inv(s) && Step(s, op, reply, s')
    ensures Inv(s') && s'.policies == s.policies
  {
    match op
    case Get(name, key, now) =>
      GetKeepsInv(s, s', name, key, now, reply.read);
      GetKeepsPolicies(s, s', name, key, now, reply.read);
    case Delete(name, key) =>
      DeleteKeepsInv(s, s', name, key, reply.wrote);
      DeleteKeepsPolicies(s, s', name, key, reply.wrote);
    case Write(name, key, value, ttl, now, writer) =>
      WriteStepKeepsInv(s, s', name, key, value, ttl, now, writer, reply.wrote);
  }

  // ----- What one step does to each slot

  predicate SameEntry(a: Entry, b: Entry) {
    a.value == b.value && a.expiresAt == b.expiresAt
  }

  lemma WriteSlots(s: CacheState, s': CacheState, name: Text, key: Text, value: Text, ttl: int, now: nat,
                   removed: Removed, slot: Slot)
    requires WriteEffect(s, s', name, key, value, ttl, now, removed) && Holds(s'.contents, slot)
    ensures if slot == (name, key) then At(s'.contents, slot) == Entry(value, now + ttl * 1000, s.stamp + 1)
            else Holds(s.contents, slot) && At(s'.contents, slot) == At(s.contents, slot)
  {
    var room := Room(s, name, key, removed);
    RoomIsSubContents(s, name, key, removed);
    if slot != (name, key) {
      assert Holds(room, slot) && At(room, slot) == At(s'.contents, slot);
    }
  }

  lemma WriteStepSlots(s: CacheState, s': CacheState, name: Text, key: Text, value: Text, ttl: int, now: nat,
                       writer: Writer, reply: Result<(), CacheError>, slot: Slot)
    requires WriteStep(s, s', name, key, value, ttl, now, writer, reply) && Holds(s'.contents, slot)
    ensures if reply.Ok? && slot == (name, key)
            then ttl > 0 && At(s'.contents, slot) == Entry(value, now + ttl * 1000, s.stamp + 1)
            else Holds(s.contents, slot) && At(s'.contents, slot) == At(s.contents, slot)
  {
    if reply.Ok? {
      var removed := AcceptedWrite(s, s', name, key, value, ttl, now, writer);
      WriteSlots(s, s', name, key, value, ttl, now, removed, slot);
    } else {
      RefusedWrite(s, s', name, key, value, ttl, now, writer, reply);
    }
  }

  /** Every entry after a step was there before, unless the step wrote it. */
  lemma StepSlots(s: CacheState, op: Op, reply: Reply, s': CacheState, slot: Slot)
    requires Step(s, op, reply, s') && Holds(s'.contents, slot)
    ensures if op.Write? && Accepted(op, reply) && slot == (op.name, op.key)
            then op.ttl > 0 && At(s'.contents, slot) == Entry(op.value, op.now + op.ttl * 1000, s.stamp + 1)
            else Holds(s.contents, slot) && SameEntry(At(s'.contents, slot), At(s.contents, slot))
  {
    match op
    case Get(name, key, now) => GetStepSlots(s, s', name, key, now, reply.read, slot);
    case Delete(name, key) => DeleteStepSlots(s, s', name, key, reply.wrote, slot);
    case Write(name, key, value, ttl, now, writer) =>
      WriteStepSlots(s, s', name, key, value, ttl, now, writer, reply.wrote, slot);
  }

  lemma GetStepSlots(s: CacheState, s': CacheState, name: Text, key: Text, now: nat,
                     reply: Result<Option<Text>, CacheError>, slot: Slot)
    requires GetStep(s, s', name, key, now, reply) && Holds(s'.contents, slot)
    ensures Holds(s.contents, slot) && SameEntry(At(s'.contents, slot), At(s.contents, slot))
  {
  }

  lemma DeleteStepSlots(s: CacheState, s': CacheState, name: Text, key: Text, reply: Result<(), CacheError>, slot: Slot)
    requires DeleteStep(s, s', name, key, reply) && Holds(s'.contents, slot)
    ensures Holds(s.contents, slot) && At(s'.contents, slot) == At(s.contents, slot)
  {
  }

  /** A slot of the state before that is gone after an accepted write was
      replaced, expired, or evicted. */
  lemma WriteLoses(s: CacheState, s': CacheState, name: Text, key: Text, value: Text, ttl: int, now: nat,
                   removed: Removed, slot: Slot)
    requires WriteEffect(s, s', name, key, value, ttl, now, removed)
    requires Holds(s.contents, slot) && !Holds(s'.contents, slot)
    ensures || (slot.0 == name && slot.1 in removed.expired && At(s.contents, slot).expiresAt <= now)
            || (slot.0 == name && slot.1 in removed.local) || slot in removed.global
    ensures slot != (name, key)
  {
    assert slot == (slot.0, slot.1);
    var room := Room(s, name, key, removed);
    assert !Holds(room, slot);
    RoomLoses(s, name, key, removed, slot);
  }

  lemma RoomLoses(s: CacheState, name: Text, key: Text, removed: Removed, slot: Slot)
    requires name in s.contents && Holds(s.contents, slot) && !Holds(Room(s, name, key, removed), slot)
    requires slot != (name, key)
    ensures (slot.0 == name && (slot.1 in removed.expired || slot.1 in removed.local)) || slot in removed.global
  {
    assert slot == (slot.0, slot.1);
  }

  // ----- The reference map

  datatype Written = Written(value: Text, expiresAt: nat)
  type Reference = map<Slot, Written>

  /** The unbounded map of last writes: nothing expires and nothing is evicted. */
  function Record(ref: Reference, op: Op, reply: Reply): Reference {
    if !Accepted(op, reply) then ref
    else if op.Delete? then ref - {(op.name, op.key)}
    else if op.ttl < 0 then ref
    else ref[(op.name, op.key) := Written(op.value, op.now + op.ttl * 1000)]
  }

  ghost predicate Reflects(contents: Contents, ref: Reference) {
    forall slot :: Holds(contents, slot) ==>
      slot in ref && At(contents, slot).value == ref[slot].value && At(contents, slot).expiresAt == ref[slot].expiresAt
  }

  lemma StepKeepsReference(s: CacheState, op: Op, reply: Reply, s': CacheState, ref: Reference)
    requires Step(s, op, reply, s') && Reflects(s.contents, ref)
    ensures Reflects(s'.contents, Record(ref, op, reply))
  {
    var ref' := Record(ref, op, reply);
    forall slot | Holds(s'.contents, slot)
      ensures slot in ref' && At(s'.contents, slot).value == ref'[slot].value
      ensures At(s'.contents, slot).expiresAt == ref'[slot].expiresAt
    {
      StepSlots(s, op, reply, s', slot);
      if op.Delete? && Accepted(op, reply) {
        assert slot != (op.name, op.key);
      }
    }
  }

  /** A hit has the value the reference has, before its deadline. */
  predicate HitIsLastWrite(op: Op, reply: Reply, ref: Reference) {
    op.Get? && reply.Read? && reply.read.Ok? && reply.read.value.Some? ==>
      && (op.name, op.key) in ref
      && reply.read.value.value == ref[(op.name, op.key)].value
      && op.now < ref[(op.name, op.key)].expiresAt
  }

  lemma StepHits(s: CacheState, op: Op, reply: Reply, s': CacheState, ref: Reference)
    requires Step(s, op, reply, s') && Reflects(s.contents, ref)
    ensures HitIsLastWrite(op, reply, ref)
  {
    if op.Get? && reply.read.Ok? && reply.read.value.Some? {
      assert Holds(s.contents, (op.name, op.key));
    }
  }

  lemma WrittenEntry(s: CacheState, s1: CacheState, name: Text, key: Text, value: Text, ttl: int, now: nat,
                     removed: Removed)
    requires WriteEffect(s, s1, name, key, value, ttl, now, removed)
    ensures s1.policies == s.policies && name in s1.contents && key in s1.contents[name]
    ensures s1.contents[name][key] == Entry(value, now + ttl * 1000, s.stamp + 1)
  {
  }

  lemma HitReply(s1: CacheState, s2: CacheState, name: Text, key: Text, now: nat,
                 reply: Result<Option<Text>, CacheError>)
    requires GetStep(s1, s2, name, key, now, reply) && GetRefusal(s1, name, key).None?
    requires name in s1.contents && key in s1.contents[name] && s1.contents[name][key].expiresAt > now
    ensures reply == Ok(Some(s1.contents[name][key].value))
  {
  }

  /** After an accepted write, a read with the same clock hits with its value. */
  lemma ReadYourWrite(s: CacheState, s1: CacheState, s2: CacheState, name: Text, key: Text, value: Text, ttl: int,
                      now: nat, writer: Writer, reply: Result<Option<Text>, CacheError>)
    requires WriteStep(s, s1, name, key, value, ttl, now, writer, Ok(()))
    requires GetStep(s1, s2, name, key, now, reply)
    ensures reply == Ok(Some(value))
  {
    AcceptedTtl(s, name, key, value, ttl, now, writer);
    var removed := AcceptedWrite(s, s1, name, key, value, ttl, now, writer);
    WrittenEntry(s, s1, name, key, value, ttl, now, removed);
    HitReply(s1, s2, name, key, now, reply);
  }

  // ----- What goes missing

  /** Slots the reference still holds live at `clock` but the cache lacks. */
  function Missing(contents: Contents, ref: Reference, clock: nat): set<Slot> {
    set slot | slot in ref && clock < ref[slot].expiresAt && !Holds(contents, slot)
  }

  function Time(op: Op, clock: nat): nat {
    if op.Delete? then clock else op.now
  }

  function Tagged(name: Text, keys: set<Text>): set<Slot> {
    set k | k in keys :: (name, k)
  }

  lemma {:induction false} TaggedSize(name: Text, keys: set<Text>)
    ensures |Tagged(name, keys)| == |keys|
    decreases |keys|
  {
    if keys != {} {
      var k :| k in keys;
      TaggedSize(name, keys - {k});
      assert Tagged(name, keys) == Tagged(name, keys - {k}) + {(name, k)};
    }
  }

  lemma SubsetSize<T>(a: set<T>, b: set<T>)
    requires a <= b
    ensures |a| <= |b|
  {
    assert b == a + (b - a);
  }

  lemma UnionSize<T>(part: set<T>, a: set<T>, b: set<T>, c: set<T>)
    requires part <= a + b + c
    ensures |part| <= |a| + |b| + |c|
  {
    SubsetSize(part, a + b + c);
  }

  lemma WriteMissing(s: CacheState, s': CacheState, op: Op, ref: Reference, clock: nat, removed: Removed)
    requires op.Write? && WriteEffect(s, s', op.name, op.key, op.value, op.ttl, op.now, removed)
    requires clock <= op.now && op.ttl > 0 && Reflects(s.contents, ref)
    ensures Missing(s'.contents, Record(ref, op, Wrote(Ok(()))), op.now) <=
            Missing(s.contents, ref, clock) + Tagged(op.name, removed.local) + removed.global
  {
    forall slot | slot in Missing(s'.contents, Record(ref, op, Wrote(Ok(()))), op.now)
      ensures slot in Missing(s.contents, ref, clock) + Tagged(op.name, removed.local) + removed.global
    {
      WriteMissingSlot(s, s', op, ref, clock, removed, slot);
    }
  }

  lemma WriteMissingSlot(s: CacheState, s': CacheState, op: Op, ref: Reference, clock: nat, removed: Removed,
                         slot: Slot)
    requires op.Write? && WriteEffect(s, s', op.name, op.key, op.value, op.ttl, op.now, removed)
    requires clock <= op.now && op.ttl > 0 && Reflects(s.contents, ref)
    requires slot in Missing(s'.contents, Record(ref, op, Wrote(Ok(()))), op.now)
    ensures || slot in Missing(s.contents, ref, clock)
            || slot in Tagged(op.name, removed.local) || slot in removed.global
    ensures slot != (op.name, op.key)
  {
    assert slot != (op.name, op.key) by {
      assert Holds(s'.contents, (op.name, op.key));
    }
    assert slot == (slot.0, slot.1);
    if Holds(s.contents, slot) {
      WriteLoses(s, s', op.name, op.key, op.value, op.ttl, op.now, removed, slot);
    }
  }

  /** How many more entries a step leaves missing, at most. */
  ghost predicate MissingWithin(s: CacheState, op: Op, reply: Reply, s': CacheState, ref: Reference, clock: nat,
                                n: nat) {
    && s'.evictions == SatAdd(s.evictions, n)
    && |Missing(s'.contents, Record(ref, op, reply), Time(op, clock))| <= |Missing(s.contents, ref, clock)| + n
  }

  /** Which entries a step leaves missing: only those missing before and the
      victims of an accepted write, each of which it counts. */
  ghost predicate LosesOnly(s: CacheState, op: Op, reply: Reply, s': CacheState, ref: Reference, clock: nat,
                            removed: Removed) {
    && Missing(s'.contents, Record(ref, op, reply), Time(op, clock)) <=
       Missing(s.contents, ref, clock) + Victims(op.name, removed)
    && s'.evictions == SatAdd(s.evictions, |removed.local| + |removed.global|)
    && if op.Write? && Accepted(op, reply)
       then WriteEffect(s, s', op.name, op.key, op.value, op.ttl, op.now, removed)
       else removed == Removed({}, {}, {})
  }

  function Victims(name: Text, removed: Removed): set<Slot> {
    Tagged(name, removed.local) + removed.global
  }

  /** With a clock that never runs backwards, an entry goes missing in a step
      only as a counted victim of its eviction. */
  lemma StepMissing(s: CacheState, op: Op, reply: Reply, s': CacheState, ref: Reference, clock: nat)
    returns (removed: Removed)
    requires Step(s, op, reply, s') && Reflects(s.contents, ref) && clock <= Time(op, clock)
    ensures LosesOnly(s, op, reply, s', ref, clock, removed)
  {
    if op.Write? && reply.wrote.Ok? {
      removed := AcceptedWrite(s, s', op.name, op.key, op.value, op.ttl, op.now, op.writer);
      WriteMissing(s, s', op, ref, clock, removed);
    } else {
      removed := Removed({}, {}, {});
      QuietMissing(s, op, reply, s', ref, clock);
    }
  }

  /** So it adds no more missing entries than the evictions it counts. */
  lemma CountMissing(s: CacheState, op: Op, reply: Reply, s': CacheState, ref: Reference, clock: nat) returns (n: nat)
    requires Step(s, op, reply, s') && Reflects(s.contents, ref) && clock <= Time(op, clock)
    ensures MissingWithin(s, op, reply, s', ref, clock, n)
  {
    var removed := StepMissing(s, op, reply, s', ref, clock);
    TaggedSize(op.name, removed.local);
    UnionSize(Missing(s'.contents, Record(ref, op, reply), Time(op, clock)), Missing(s.contents, ref, clock),
              Tagged(op.name, removed.local), removed.global);
    n := |removed.local| + |removed.global|;
  }

  lemma QuietMissing(s: CacheState, op: Op, reply: Reply, s': CacheState, ref: Reference, clock: nat)
    requires Step(s, op, reply, s') && Reflects(s.contents, ref) && clock <= Time(op, clock)
    requires op.Write? ==> reply.wrote.Err?
    ensures Missing(s'.contents, Record(ref, op, reply), Time(op, clock)) <= Missing(s.contents, ref, clock)
    ensures s'.evictions == s.evictions
  {
    if op.Write? { RefusedWrite(s, s', op.name, op.key, op.value, op.ttl, op.now, op.writer, reply.wrote); }
    forall slot | slot in Missing(s'.contents, Record(ref, op, reply), Time(op, clock))
      ensures slot in Missing(s.contents, ref, clock)
    {}
  }

  // ----- Whole runs

  datatype Event = Event(op: Op, reply: Reply, after: CacheState)

  function Last(s: CacheState, events: seq<Event>): CacheState {
    if events == [] then s else events[|events| - 1].after
  }

  function Front(events: seq<Event>): seq<Event>
    requires events != []
  {
    events[..|events| - 1]
  }

  function Final(events: seq<Event>): Event
    requires events != []
  {
    events[|events| - 1]
  }

  /** Any sequence of operations, each taking the state the last one left. */
  ghost predicate Run(s: CacheState, events: seq<Event>) {
    events != [] ==>
      && Run(s, Front(events))
      && Step(Last(s, Front(events)), Final(events).op, Final(events).reply, Final(events).after)
  }

  function RefAfter(events: seq<Event>): Reference {
    if events == [] then map[] else Record(RefAfter(Front(events)), Final(events).op, Final(events).reply)
  }

  function Clock(events: seq<Event>): nat {
    if events == [] then 0 else Time(Final(events).op, Clock(Front(events)))
  }

  predicate NondecreasingClock(events: seq<Event>) {
    events != [] ==> NondecreasingClock(Front(events)) && Clock(Front(events)) <= Clock(events)
  }

  /** After any run from a fresh cache the invariant holds and every entry is in
      the reference; if the clock never went back, the evictions counted are at
      least as many as the live entries missing. */
  lemma {:induction false} EveryRun(config: CacheConfig, events: seq<Event>)
    requires config.Validates() && Run(Fresh(config), events)
    ensures var s := Last(Fresh(config), events);
            && Inv(s) && s.policies == config.namespaces && Reflects(s.contents, RefAfter(events))
            && (NondecreasingClock(events) ==>
                  s.evictions == U64_MAX || |Missing(s.contents, RefAfter(events), Clock(events))| <= s.evictions)
    decreases |events|
  {
    if events == [] {
      FreshInv(config);
      assert Missing(Fresh(config).contents, map[], 0) == {};
    } else {
      EveryRun(config, Front(events));
      var s, e := Last(Fresh(config), Front(events)), Final(events);
      StepKeepsInv(s, e.op, e.reply, e.after);
      StepKeepsReference(s, e.op, e.reply, e.after, RefAfter(Front(events)));
      if NondecreasingClock(events) {
        var n := CountMissing(s, e.op, e.reply, e.after, RefAfter(Front(events)), Clock(Front(events)));
      }
    }
  }

  lemma {:induction false} PrefixRun(s: CacheState, events: seq<Event>, i: nat)
    requires Run(s, events) && i <= |events|
    ensures Run(s, events[..i])
    decreases |events|
  {
    if i == |events| {
      assert events[..i] == events;
    } else {
      PrefixRun(s, Front(events), i);
      assert Front(events)[..i] == events[..i];
    }
  }

  lemma {:induction false} RunStep(s: CacheState, events: seq<Event>, i: nat)
    requires Run(s, events) && i < |events|
    ensures Step(Last(s, events[..i]), events[i].op, events[i].reply, events[i].after)
  {
    PrefixRun(s, events, i + 1);
    assert Front(events[..i + 1]) == events[..i];
  }

  /** The event is an accepted write or delete of the slot. */
  predicate Touches(e: Event, slot: Slot) {
    Accepted(e.op, e.reply) && (e.op.name, e.op.key) == slot
  }

  /** Event `i` is an accepted write that evicted the slot, counted it, and was
      followed by no accepted write or delete of the slot. */
  ghost predicate EvictedAt(s: CacheState, events: seq<Event>, slot: Slot, i: nat, removed: Removed) {
    && i < |events| && Evicts(Last(s, events[..i]), events[i], slot, removed)
    && UntouchedAfter(events, slot, i)
  }

  predicate UntouchedAfter(events: seq<Event>, slot: Slot, i: nat) {
    forall j :: i < j < |events| ==> !Touches(events[j], slot)
  }

  ghost predicate Evicts(before: CacheState, e: Event, slot: Slot, removed: Removed) {
    && e.op.Write? && Accepted(e.op, e.reply)
    && WriteEffect(before, e.after, e.op.name, e.op.key, e.op.value, e.op.ttl, e.op.now, removed)
    && slot in Victims(e.op.name, removed)
  }

  /** With a nondecreasing clock, every live entry of the reference that the
      cache no longer holds was evicted and counted after its last write. */
  lemma {:induction false} EveryMissingEntryWasEvicted(config: CacheConfig, events: seq<Event>, slot: Slot)
    returns (i: nat, removed: Removed)
    requires config.Validates() && Run(Fresh(config), events) && NondecreasingClock(events)
    requires slot in Missing(Last(Fresh(config), events).contents, RefAfter(events), Clock(events))
    ensures EvictedAt(Fresh(config), events, slot, i, removed)
    decreases |events|
  {
    removed := JustMissing(config, events, slot);
    i := |events| - 1;
    if !EvictedAt(Fresh(config), events, slot, i, removed) {
      i, removed := EveryMissingEntryWasEvicted(config, Front(events), slot);
      LaterEvent(Fresh(config), events, slot, i, removed);
    }
  }

  /** The last event evicted the slot, or it was missing before. */
  lemma JustMissing(config: CacheConfig, events: seq<Event>, slot: Slot) returns (removed: Removed)
    requires config.Validates() && Run(Fresh(config), events) && NondecreasingClock(events)
    requires slot in Missing(Last(Fresh(config), events).contents, RefAfter(events), Clock(events))
    ensures events != [] && !Touches(Final(events), slot)
    ensures || EvictedAt(Fresh(config), events, slot, |events| - 1, removed)
            || slot in Missing(Last(Fresh(config), Front(events)).contents, RefAfter(Front(events)),
                               Clock(Front(events)))
  {
    var front := Front(events);
    EveryRun(config, front);
    var s, e := Last(Fresh(config), front), Final(events);
    removed := StepMissing(s, e.op, e.reply, e.after, RefAfter(front), Clock(front));
    NotJustTouched(s, e, RefAfter(front), Clock(front), slot);
  }

  /** A slot that is missing after an event was not written or deleted by it. */
  lemma NotJustTouched(s: CacheState, e: Event, ref: Reference, clock: nat, slot: Slot)
    requires Step(s, e.op, e.reply, e.after)
    requires slot in Missing(e.after.contents, Record(ref, e.op, e.reply), Time(e.op, clock))
    ensures !Touches(e, slot)
  {
    if Touches(e, slot) && e.op.Write? {
      var removed := AcceptedWrite(s, e.after, e.op.name, e.op.key, e.op.value, e.op.ttl, e.op.now, e.op.writer);
      assert Holds(e.after.contents, (e.op.name, e.op.key));
    }
  }

  lemma LaterEvent(s: CacheState, events: seq<Event>, slot: Slot, i: nat, removed: Removed)
    requires events != [] && EvictedAt(s, Front(events), slot, i, removed) && !Touches(Final(events), slot)
    ensures EvictedAt(s, events, slot, i, removed)
  {
    SamePrefix(s, events, i);
    UntouchedStill(events, slot, i);
  }

  lemma SamePrefix(s: CacheState, events: seq<Event>, i: nat)
    requires events != [] && i < |events| - 1
    ensures Last(s, Front(events)[..i]) == Last(s, events[..i]) && Front(events)[i] == events[i]
  {
    assert Front(events)[..i] == events[..i];
  }

  lemma UntouchedStill(events: seq<Event>, slot: Slot, i: nat)
    requires events != [] && UntouchedAfter(Front(events), slot, i) && !Touches(Final(events), slot)
    ensures UntouchedAfter(events, slot, i)
  {
    forall j | i < j < |events| ensures !Touches(events[j], slot) {
      assert j < |events| - 1 ==> events[j] == Front(events)[j];
    }
  }

  /** At any point of a run, what a hit returns is in the reference of that
      point, before its deadline. */
  lemma EveryHitIsTheLastWrite(config: CacheConfig, events: seq<Event>, i: nat)
    requires config.Validates() && Run(Fresh(config), events) && i < |events|
    ensures HitIsLastWrite(events[i].op, events[i].reply, RefAfter(events[..i]))
  {
    PrefixRun(Fresh(config), events, i);
    RunStep(Fresh(config), events, i);
    EveryRun(config, events[..i]);
    StepHits(Last(Fresh(config), events[..i]), events[i].op, events[i].reply, events[i].after, RefAfter(events[..i]));
  }

  /** Every write to the namespace is a guest's. */
  predicate OnlyGuests(events: seq<Event>, name: Text) {
    forall i :: 0 <= i < |events| && events[i].op.Write? && events[i].op.name == name ==> events[i].op.writer == Guest
  }

  /** What a read-only namespace holds after a run without host writes it held
      before, with the same value and deadline. */
  lemma {:induction false} GuestsCannotWriteReadOnly(s: CacheState, events: seq<Event>, name: Text, slot: Slot)
    requires Run(s, events) && Inv(s) && name in s.policies && s.policies[name].mode == ReadOnly && slot.0 == name
    requires OnlyGuests(events, name) && Holds(Last(s, events).contents, slot)
    ensures Holds(s.contents, slot) && SameEntry(At(Last(s, events).contents, slot), At(s.contents, slot))
    decreases |events|
  {
    if events != [] {
      LastReadOnlyStep(s, events, name, slot);
      GuestsCannotWriteReadOnly(s, Front(events), name, slot);
    }
  }

  lemma LastReadOnlyStep(s: CacheState, events: seq<Event>, name: Text, slot: Slot)
    requires events != [] && Run(s, events) && Inv(s)
    requires name in s.policies && s.policies[name].mode == ReadOnly && slot.0 == name
    requires OnlyGuests(events, name) && Holds(Last(s, events).contents, slot)
    ensures Run(s, Front(events)) && OnlyGuests(Front(events), name)
    ensures Holds(Last(s, Front(events)).contents, slot)
    ensures SameEntry(At(Last(s, events).contents, slot), At(Last(s, Front(events)).contents, slot))
  {
    var e := Final(events);
    FrontOfGuests(events, name);
    RunPolicies(s, Front(events));
    ReadOnlyStep(Last(s, Front(events)), e.op, e.reply, e.after, name, slot);
  }

  lemma FrontOfGuests(events: seq<Event>, name: Text)
    requires events != [] && OnlyGuests(events, name)
    ensures OnlyGuests(Front(events), name)
    ensures Final(events).op.Write? && Final(events).op.name == name ==> Final(events).op.writer == Guest
  {
  }

  lemma {:induction false} RunPolicies(s: CacheState, events: seq<Event>)
    requires Run(s, events) && Inv(s)
    ensures Inv(Last(s, events)) && Last(s, events).policies == s.policies
    decreases |events|
  {
    if events != [] {
      RunPolicies(s, Front(events));
      StepKeepsInv(Last(s, Front(events)), Final(events).op, Final(events).reply, Final(events).after);
    }
  }

  lemma ReadOnlyStep(s: CacheState, op: Op, reply: Reply, s': CacheState, name: Text, slot: Slot)
    requires Step(s, op, reply, s') && name in s.policies && s.policies[name].mode == ReadOnly && slot.0 == name
    requires op.Write? && op.name == name ==> op.writer == Guest
    requires Holds(s'.contents, slot)
    ensures Holds(s.contents, slot) && SameEntry(At(s'.contents, slot), At(s.contents, slot))
  {
    StepSlots(s, op, reply, s', slot);
    if op.Write? && Accepted(op, reply) && op.writer == Guest { GuestRefused(s, op, reply, s'); }
  }

  lemma GuestRefused(s: CacheState, op: Op, reply: Reply, s': CacheState)
    requires Step(s, op, reply, s') && op.Write? && Accepted(op, reply) && op.writer == Guest
    ensures op.name in s.policies && s.policies[op.name].mode == ReadWrite
  {
  }
}
