/** `Cache::new`, `get`, `put`, `seed` and `delete`, against the relations the
    model gives them (`crates/krit-cache/src/store.rs`). */
module CacheOperations {
  import opened Utf8
  import opened Wrappers
  import opened CacheConfig
  import opened CacheModel
  import opened CacheEviction
  import opened CacheInvariant
  import opened CacheNamespace
  import opened CacheStore

  /** Charging one inserted entry keeps the totals exact. */
  lemma Charged(state: State, name: Text, namespace: Namespace, key: Text, entry: Entry)
    requires state.Consistent() && name in state.namespaces && key !in state.namespaces[name].entries
    requires namespace.Valid() && namespace.policy == state.namespaces[name].policy
    requires namespace.entries == state.namespaces[name].entries[key := entry]
    requires state.totalEntries < U64_MAX && state.totalBytes + Charge(key, entry.value) <= U64_MAX
    ensures var after := state.(namespaces := state.namespaces[name := namespace],
                                totalEntries := SatAdd(state.totalEntries, 1),
                                totalBytes := SatAdd(state.totalBytes, Charge(key, entry.value)));
            && after.Consistent()
            && after.View() == state.View().(contents := state.Held()[name := state.Held()[name][key := entry]])
  {
    ChargedTotals(state.Held(), name, key, entry);
    PutNamespace(state.namespaces, name, namespace);
  }

  lemma ChargedTotals(contents: Contents, name: Text, key: Text, entry: Entry)
    requires name in contents && key !in contents[name]
    ensures var after := contents[name := contents[name][key := entry]];
            && TotalCount(after) == TotalCount(contents) + 1
            && TotalBytes(after) == TotalBytes(contents) + Charge(key, entry.value)
  {
    InsertSizes(contents[name], key, entry);
    TotalsPut(contents, name, contents[name][key := entry]);
  }

  /** Replacing one namespace by one of the same size keeps the totals. */
  lemma Refreshed(state: State, name: Text, namespace: Namespace, key: Text)
    requires state.Consistent() && name in state.namespaces && key in state.namespaces[name].entries
    requires namespace.Valid() && namespace.policy == state.namespaces[name].policy
    requires namespace.entries ==
             state.namespaces[name].entries[key := state.namespaces[name].entries[key].(stamp := state.stamp)]
    ensures var after := state.(namespaces := state.namespaces[name := namespace]);
            && after.Consistent()
            && after.View() == state.View().(contents := state.Held()[name := namespace.entries])
  {
    RestampSizes(state.namespaces[name].entries, key, state.stamp);
    Settled(state, name, namespace, 0, 0);
  }

  lemma FreshStamp(state: State, name: Text)
    requires state.Consistent() && StampsUpTo(state.Held(), state.stamp) && name in state.namespaces
    ensures state.stamp + 1 !in state.namespaces[name].byAccess
  {
    var namespace := state.namespaces[name];
    assert namespace.Valid();
    forall t | t in namespace.byAccess ensures t <= state.stamp {
      assert state.Held()[name][namespace.byAccess[t]].stamp == t;
    }
  }

  /** Inserts the entry once there is room for it. */
  method Admit(state: State, name: Text, key: Text, entry: Entry) returns (after: State)
    requires state.Consistent() && name in state.namespaces && key !in state.namespaces[name].entries
    requires entry.stamp !in state.namespaces[name].byAccess
    requires NamespaceFits(state.Held()[name], state.namespaces[name].policy, Charge(key, entry.value))
    requires CacheFits(state.Held(), state.maxTotalEntries, state.maxTotalBytes, Charge(key, entry.value))
    requires PolicyOk(state.namespaces[name].policy, state.maxTotalEntries, state.maxTotalBytes)
    ensures after.Consistent()
    ensures after.View() ==
            state.View().(contents := state.Held()[name := state.Held()[name][key := entry]],
                          puts := SatAdd(state.puts, 1))
  {
    var charge := Charge(key, entry.value);
    assert state.namespaces[name].Valid();
    var namespace := Insert(state.namespaces[name], key, entry);
    Charged(state, name, namespace, key, entry);
    after := state.(namespaces := state.namespaces[name := namespace],
                    totalEntries := SatAdd(state.totalEntries, 1),
                    totalBytes := SatAdd(state.totalBytes, charge));
    after := after.(puts := SatAdd(after.puts, 1));
  }

  lemma PutTwice(contents: Contents, name: Text, first: Entries, second: Entries)
    requires name in contents
    ensures contents[name := first][name := second] == contents[name := second]
    ensures contents[name := first][name] == first
  {
  }

  /** The state between clearing the destination and making room in it. */
  function ClearedState(s: CacheState, name: Text, key: Text, expired: set<Text>): CacheState
    requires name in s.contents
  {
    s.(stamp := s.stamp + 1, expirations := SatAdd(s.expirations, |expired|),
       contents := s.contents[name := Cleared(s, name, key, expired)])
  }

  /** The state once the new entry is in. */
  function Admitted(s: CacheState, room: CacheState, name: Text, key: Text, value: Text, ttl: int, now: nat): CacheState
    requires name in room.contents && ttl >= 0
  {
    room.(puts := SatAdd(s.puts, 1),
          contents := room.contents[name := room.contents[name][key := Entry(value, now + ttl * 1000, s.stamp + 1)]])
  }

  /** Everything holds for the entry to be admitted: the destination is
      cleared, exactly the needed victims are gone, and it fits. */
  ghost predicate Ready(s: CacheState, room: State, d: Demand, key: Text, now: nat, removed: Removed) {
    && d.name in s.contents && d.name in s.policies
    && d.policy == s.policies[d.name] && d.maxTotalEntries == s.maxTotalEntries && d.maxTotalBytes == s.maxTotalBytes
    && Swept(s.contents[d.name], removed.expired, now)
    && MakingRoom(ClearedState(s, d.name, key, removed.expired), room, d, removed.local, removed.global)
    && NamespaceFits(Cleared(s, d.name, key, removed.expired) - removed.local, d.policy, d.charge)
    && CacheFits(room.Held(), d.maxTotalEntries, d.maxTotalBytes, d.charge)
  }

  /** The pieces of an accepted write, put together. */
  lemma WriteAssembled(s: CacheState, room: State, d: Demand, key: Text, value: Text, ttl: int, now: nat,
                       removed: Removed)
    requires Ready(s, room, d, key, now, removed) && d.charge == Charge(key, value) && ttl >= 0
    ensures d.name in room.Held()
    ensures WriteEffect(s, Admitted(s, room.View(), d.name, key, value, ttl, now), d.name, key, value, ttl, now,
                        removed)
  {
    RoomIsMade(s, room, d, key, now, removed);
  }

  lemma RoomIsMade(s: CacheState, room: State, d: Demand, key: Text, now: nat, removed: Removed)
    requires Ready(s, room, d, key, now, removed)
    ensures var cleared := Cleared(s, d.name, key, removed.expired);
            && LocalVictims(cleared, removed.local, d.policy, d.charge)
            && GlobalVictims(s.contents[d.name := cleared - removed.local], removed.global,
                             d.maxTotalEntries, d.maxTotalBytes, d.charge)
    ensures d.name in room.Held() && room.View() == s.(
              contents := Room(s, d.name, key, removed),
              stamp := s.stamp + 1,
              expirations := SatAdd(s.expirations, |removed.expired|),
              evictions := SatAdd(s.evictions, |removed.local| + |removed.global|))
  {
    var cleared := ClearedState(s, d.name, key, removed.expired);
    RoomVictims(cleared, d, removed.local, removed.global);
    EvictedView(s, d.name, key, removed);
  }

  lemma RoomVictims(s: CacheState, d: Demand, local: set<Text>, global: set<Slot>)
    requires Evicting(s.contents, d, local, global)
    ensures d.name in s.contents && LocalVictims(s.contents[d.name], local, d.policy, d.charge)
    ensures GlobalVictims(Trimmed(s.contents, d.name, local), global, d.maxTotalEntries, d.maxTotalBytes, d.charge)
  {
  }

  lemma EvictedView(s: CacheState, name: Text, key: Text, removed: Removed)
    requires name in s.contents
    ensures var cleared := ClearedState(s, name, key, removed.expired);
            var entries := Cleared(s, name, key, removed.expired);
            && cleared.contents[name] == entries
            && Trimmed(cleared.contents, name, removed.local) == s.contents[name := entries - removed.local]
            && Evicted(cleared, name, removed.local, removed.global) == s.(
                 contents := Room(s, name, key, removed),
                 stamp := s.stamp + 1,
                 expirations := SatAdd(s.expirations, |removed.expired|),
                 evictions := SatAdd(s.evictions, |removed.local| + |removed.global|))
  {
    var entries := Cleared(s, name, key, removed.expired);
    PutTwice(s.contents, name, entries, entries - removed.local);
  }

  lemma ClearedStamps(s: CacheState, name: Text, key: Text, expired: set<Text>)
    requires Inv(s) && name in s.contents
    ensures var c := s.contents[name := Cleared(s, name, key, expired)];
            UniqueStamps(c) && StampsUpTo(c, s.stamp)
  {
    ShrunkIsSubContents(s.contents, name, Cleared(s, name, key, expired));
    SubContentsStamps(s.contents[name := Cleared(s, name, key, expired)], s.contents, s.stamp, s.stamp);
  }

  lemma StampedView(state: State)
    requires state.Consistent()
    ensures var stamped := state.(stamp := state.stamp + 1);
            && stamped.Consistent() && stamped.Held() == state.Held()
            && stamped.View() == state.View().(stamp := state.stamp + 1)
  {
  }

  lemma ClearedView(s: CacheState, swept: CacheState, name: Text, key: Text, gone: set<Text>)
    requires name in s.contents
    requires swept == s.(stamp := s.stamp + 1, contents := s.contents[name := s.contents[name] - gone],
                         expirations := SatAdd(s.expirations, |gone|))
    ensures swept.(contents := swept.contents[name := swept.contents[name] - {key}]) == ClearedState(s, name, key, gone)
  {
    PutTwice(s.contents, name, s.contents[name] - gone, s.contents[name] - gone - {key});
  }

  /** Takes a stamp, sweeps, and releases the replaced entry. */
  method Clear(state: State, name: Text, key: Text, now: nat) returns (after: State, ghost gone: set<Text>)
    requires state.Consistent() && name in state.namespaces
    ensures after.Consistent() && Swept(state.Held()[name], gone, now)
    ensures after.View() == ClearedState(state.View(), name, key, gone)
  {
    var stamped := state.(stamp := state.stamp + 1);
    StampedView(state);
    after, gone := Sweep(stamped, name, now);
    ClearedView(state.View(), after.View(), name, key, gone);
    after := Discard(after, name, key);
  }

  function NewState(config: CacheConfig): State {
    State(map n | n in config.namespaces :: NewNamespace(config.namespaces[n]), 0, 0, 0,
          config.maxTotalEntries, config.maxTotalBytes, 0, 0, 0, 0, 0, 0)
  }

  lemma FreshState(config: CacheConfig)
    ensures NewState(config).Consistent() && NewState(config).View() == Fresh(config)
  {
    var state := NewState(config);
    assert state.Held() == Fresh(config).contents;
    assert Policies(state.namespaces) == config.namespaces;
    EmptyCacheTotals(state.Held());
  }

  class Cache {
    var state: State

    ghost predicate Valid()
      reads this
    {
      state.Consistent() && Inv(state.View())
    }

    ghost function View(): CacheState
      reads this
    {
      state.View()
    }

    /** `Cache::new` on a configuration that validates. */
    constructor (config: CacheConfig)
      requires config.Validates()
      ensures Valid() && View() == Fresh(config)
    {
      state := NewState(config);
      FreshState(config);
      FreshInv(config);
    }

    method Get(name: Text, key: Text, now: nat) returns (reply: Result<Option<Text>, CacheError>)
      requires Valid()
      modifies this
      ensures Valid() && GetStep(old(View()), View(), name, key, now, reply)
    {
      var s0 := state;
      var s := state.(stamp := state.stamp + 1);
      reply, s := Read(s0, s, name, key, now);
      state := s;
      GetKeepsInv(s0.View(), s.View(), name, key, now, reply);
    }

    /** `put`: a write by a guest. */
    method Put(name: Text, key: Text, value: Text, ttl: int, now: nat)
      returns (reply: Result<(), CacheError>, ghost removed: Removed)
      requires Valid()
      modifies this
      ensures Valid() && WriteStep(old(View()), View(), name, key, value, ttl, now, Guest, reply)
      ensures reply.Ok? ==> WriteEffect(old(View()), View(), name, key, value, ttl, now, removed)
    {
      reply, removed := Write(name, key, value, ttl, now, Guest);
    }

    /** `seed`: a write by the host, which may also fill a read-only namespace. */
    method Seed(name: Text, key: Text, value: Text, ttl: int, now: nat)
      returns (reply: Result<(), CacheError>, ghost removed: Removed)
      requires Valid()
      modifies this
      ensures Valid() && WriteStep(old(View()), View(), name, key, value, ttl, now, Host, reply)
      ensures reply.Ok? ==> WriteEffect(old(View()), View(), name, key, value, ttl, now, removed)
    {
      reply, removed := Write(name, key, value, ttl, now, Host);
    }

    method Write(name: Text, key: Text, value: Text, ttl: int, now: nat, writer: Writer)
      returns (reply: Result<(), CacheError>, ghost removed: Removed)
      requires Valid()
      modifies this
      ensures Valid() && WriteStep(old(View()), View(), name, key, value, ttl, now, writer, reply)
      ensures reply.Ok? ==> WriteEffect(old(View()), View(), name, key, value, ttl, now, removed)
    {
      var s0 := state;
      removed := Removed({}, {}, {});
      var refusal := Refuse(s0, name, key, value, ttl, now, writer);
      if refusal.Some? {
        state := s0.(stamp := s0.stamp + 1);
        RefusedKeepsInv(s0);
        return Err(refusal.value), removed;
      }
      var s;
      s, removed := StoreAccepted(s0, name, key, value, ttl, now, writer);
      state := s;
      reply := Ok(());
      WriteKeepsInv(s0.View(), s.View(), name, key, value, ttl, now, removed);
    }

    method Delete(name: Text, key: Text) returns (reply: Result<(), CacheError>)
      requires Valid()
      modifies this
      ensures Valid() && DeleteStep(old(View()), View(), name, key, reply)
    {
      var s0 := state;
      if name !in s0.namespaces {
        return Err(NotConfigured);
      }
      var policy := s0.namespaces[name].policy;
      if policy.mode == ReadOnly {
        return Err(ReadOnlyNamespace);
      }
      var refusal := ValidateKey(key, policy.maxKeyBytes);
      if refusal.Some? {
        return Err(refusal.value);
      }
      var s := Discard(s0, name, key);
      s := s.(deletes := SatAdd(s.deletes, 1));
      state := s;
      reply := Ok(());
      DeleteKeepsInv(s0.View(), s.View(), name, key, reply);
    }
  }

  /** The body of `get` on the locked state, once the stamp is taken. */
  method Read(ghost s0: State, s: State, name: Text, key: Text, now: nat)
    returns (reply: Result<Option<Text>, CacheError>, after: State)
    requires s == s0.(stamp := s0.stamp + 1) && s0.Consistent() && Inv(s0.View())
    ensures after.Consistent() && GetStep(s0.View(), after.View(), name, key, now, reply)
  {
    ghost var v := s0.View();
    assert s.View() == v.(stamp := v.stamp + 1);
    if name !in s.namespaces {
      return Err(NotConfigured), s;
    }
    var refusal := ValidateKey(key, s.namespaces[name].policy.maxKeyBytes);
    assert refusal == GetRefusal(v, name, key);
    if refusal.Some? {
      return Err(refusal.value), s;
    }
    assert v.contents[name] == s.namespaces[name].entries;
    if key !in s.namespaces[name].entries {
      reply, after := Ok(None), s.(misses := SatAdd(s.misses, 1));
      assert after.View() == v.(stamp := v.stamp + 1, misses := SatAdd(v.misses, 1));
      return;
    }
    FreshStamp(s0, name);
    reply, after := ReadPresent(s, name, key, now);
  }

  /** The entry is there: expired or live. */
  method ReadPresent(s: State, name: Text, key: Text, now: nat)
    returns (reply: Result<Option<Text>, CacheError>, after: State)
    requires s.Consistent() && name in s.namespaces && key in s.namespaces[name].entries
    requires s.stamp !in s.namespaces[name].byAccess
    ensures after.Consistent()
    ensures var entries := s.Held()[name];
            if entries[key].expiresAt <= now then
              && reply == Ok(None)
              && after.View() == s.View().(contents := s.Held()[name := entries - {key}],
                                           expirations := SatAdd(s.expirations, 1), misses := SatAdd(s.misses, 1))
            else
              && reply == Ok(Some(entries[key].value))
              && var used := entries[key].(stamp := s.stamp);
                 after.View() == s.View().(contents := s.Held()[name := entries[key := used]],
                                           hits := SatAdd(s.hits, 1))
  {
    var existing := s.namespaces[name].entries[key];
    if existing.expiresAt <= now {
      after := Discard(s, name, key);
      after := after.(expirations := SatAdd(after.expirations, 1), misses := SatAdd(after.misses, 1));
      return Ok(None), after;
    }
    after := Touch(s, name, key);
    reply := Ok(Some(existing.value));
  }

  /** A hit: the entry becomes the most recent one. */
  method Touch(s: State, name: Text, key: Text) returns (after: State)
    requires s.Consistent() && name in s.namespaces && key in s.namespaces[name].entries
    requires s.stamp !in s.namespaces[name].byAccess
    ensures after.Consistent()
    ensures after.View() ==
            s.View().(contents := s.Held()[name := s.Held()[name][key := s.Held()[name][key].(stamp := s.stamp)]],
                      hits := SatAdd(s.hits, 1))
  {
    assert s.namespaces[name].Valid();
    var namespace := Refresh(s.namespaces[name], key, s.stamp);
    Refreshed(s, name, namespace, key);
    after := s.(namespaces := s.namespaces[name := namespace]);
    after := after.(hits := SatAdd(after.hits, 1));
  }

  /** A write that passed every check: clear, make room, admit. */
  method StoreAccepted(s: State, name: Text, key: Text, value: Text, ttl: int, now: nat, writer: Writer)
    returns (after: State, ghost removed: Removed)
    requires s.Consistent() && Inv(s.View()) && name in s.namespaces
    requires WriteRefusal(s.View(), name, key, value, ttl, now, writer).None?
    ensures after.Consistent() && WriteEffect(s.View(), after.View(), name, key, value, ttl, now, removed)
  {
    var d := Demand(name, s.namespaces[name].policy, s.maxTotalEntries, s.maxTotalBytes, Charge(key, value));
    EmptyFits(s.View(), name, key, value, ttl, now, writer);
    var cleared, room, error;
    ghost var gone, local, global;
    cleared, gone := Clear(s, name, key, now);
    DemandIsReasonable(s.View(), d, key, gone);
    room, error, local, global := MakeRoom(cleared, d);
    removed := Removed(gone, local, global);
    after := AdmitInto(s, room, d, key, value, ttl, now, removed);
  }

  method AdmitInto(ghost s: State, room: State, d: Demand, key: Text, value: Text, ttl: int, now: nat,
                   ghost removed: Removed)
    returns (after: State)
    requires Inv(s.View()) && Ready(s.View(), room, d, key, now, removed)
    requires d.charge == Charge(key, value) && ttl >= 0
    ensures after.Consistent() && WriteEffect(s.View(), after.View(), d.name, key, value, ttl, now, removed)
  {
    WriteAssembled(s.View(), room, d, key, value, ttl, now, removed);
    RoomToAdmit(s.View(), room, d, key, now, removed);
    after := Admit(room, d.name, key, Entry(value, now + ttl * 1000, room.stamp));
  }

  lemma DemandIsReasonable(v: CacheState, d: Demand, key: Text, gone: set<Text>)
    requires Inv(v) && d.name in v.policies && d.policy == v.policies[d.name]
    requires d.maxTotalEntries == v.maxTotalEntries && d.maxTotalBytes == v.maxTotalBytes
    requires NamespaceFits(map[], d.policy, d.charge) && 0 < v.maxTotalEntries && d.charge <= v.maxTotalBytes
    ensures d.name in v.contents && Reasonable(ClearedState(v, d.name, key, gone), d)
  {
    ClearedStamps(v, d.name, key, gone);
  }

  /** Making room leaves the destination ready for the entry. */
  lemma RoomToAdmit(v: CacheState, room: State, d: Demand, key: Text, now: nat, removed: Removed)
    requires Inv(v) && Ready(v, room, d, key, now, removed)
    ensures d.name in room.namespaces && key !in room.namespaces[d.name].entries
    ensures room.stamp == v.stamp + 1 && room.stamp !in room.namespaces[d.name].byAccess
    ensures room.namespaces[d.name].policy == d.policy
    ensures d.name in room.Held() && NamespaceFits(room.Held()[d.name], d.policy, d.charge)
    ensures room.maxTotalEntries == d.maxTotalEntries && room.maxTotalBytes == d.maxTotalBytes
    ensures PolicyOk(d.policy, room.maxTotalEntries, room.maxTotalBytes) && room.puts == v.puts
  {
    var contents := room.Held();
    assert contents == Room(v, d.name, key, removed) by {
      PutTwice(v.contents, d.name, Cleared(v, d.name, key, removed.expired),
               Cleared(v, d.name, key, removed.expired) - removed.local);
    }
    RoomIsSubContents(v, d.name, key, removed);
    FitsInLess(contents[d.name], Cleared(v, d.name, key, removed.expired) - removed.local, d.policy, d.charge);
    SubContentsStamps(contents, v.contents, v.stamp, v.stamp);
    assert Policies(room.namespaces)[d.name] == d.policy;
    NoLaterStamp(room, d.name, v.stamp);
  }

  lemma NoLaterStamp(state: State, name: Text, stamp: nat)
    requires state.Consistent() && StampsUpTo(state.Held(), stamp) && name in state.namespaces
    ensures stamp + 1 !in state.namespaces[name].byAccess
  {
    FreshStamp(state.(stamp := stamp), name);
  }

  /** The checks of `write`, in order. */
  method Refuse(s: State, name: Text, key: Text, value: Text, ttl: int, now: nat, writer: Writer)
    returns (refusal: Option<CacheError>)
    ensures refusal == WriteRefusal(s.View(), name, key, value, ttl, now, writer)
    ensures refusal.None? ==> name in s.namespaces
  {
    if name !in s.namespaces {
      return Some(NotConfigured);
    }
    var policy := s.namespaces[name].policy;
    assert policy == s.View().policies[name];
    if policy.mode == ReadOnly && writer == Guest {
      return Some(ReadOnlyNamespace);
    }
    refusal := ValidateKey(key, policy.maxKeyBytes);
    if refusal.Some? {
      return;
    }
    if |value| > policy.maxValueBytes {
      return Some(ValueTooLong);
    }
    if ttl < MIN_TTL_SECONDS || ttl > policy.maxTtlSeconds {
      return Some(TtlOutOfBounds);
    }
    if now + ttl * 1000 > U64_MAX {
      return Some(DeadlineOverflow);
    }
    return None;
  }

  lemma RefusedKeepsInv(s: State)
    requires s.Consistent() && Inv(s.View())
    ensures var t := s.(stamp := s.stamp + 1);
            t.Consistent() && Inv(t.View()) && t.View() == s.View().(stamp := s.stamp + 1)
  {
    var t := s.(stamp := s.stamp + 1);
    assert t.View() == s.View().(stamp := s.stamp + 1);
    assert StampsUpTo(t.View().contents, s.stamp + 1);
  }
}
