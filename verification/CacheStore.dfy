/** The bounded cache itself: namespaces, totals and counters updated in place
    under one lock (`crates/krit-cache/src/store.rs`). */
module CacheStore {
  import opened Utf8
  import opened Wrappers
  import opened CacheConfig
  import opened CacheModel
  import opened CacheEviction
  import opened CacheNamespace

  type Namespaces = map<Text, Namespace>

  ghost predicate AllValid(namespaces: Namespaces) {
    forall n :: n in namespaces ==> namespaces[n].Valid()
  }

  ghost function Entered(namespaces: Namespaces): Contents {
    map n | n in namespaces :: namespaces[n].entries
  }

  ghost function Policies(namespaces: Namespaces): map<Text, NamespacePolicy> {
    map n | n in namespaces :: namespaces[n].policy
  }

  lemma PutNamespace(namespaces: Namespaces, name: Text, after: Namespace)
    requires AllValid(namespaces) && name in namespaces
    requires after.Valid() && after.policy == namespaces[name].policy
    ensures AllValid(namespaces[name := after])
    ensures Entered(namespaces[name := after]) == Entered(namespaces)[name := after.entries]
    ensures Policies(namespaces[name := after]) == Policies(namespaces)
  {
  }

  lemma CountWithout(entries: Entries, gone: set<Text>)
    requires gone <= entries.Keys
    ensures |entries - gone| + |gone| == |entries|
  {
    assert (entries - gone).Keys == entries.Keys - gone;
    assert |entries.Keys| == |entries| && |(entries - gone).Keys| == |entries - gone|;
  }

  /** No stamp of the namespaces outside `pending` is less than `least`. */
  ghost predicate LeastOutside(namespaces: Namespaces, pending: set<Text>, least: nat) {
    forall n, t :: n in namespaces && n !in pending && t in namespaces[n].byAccess ==> least <= t
  }

  ghost predicate EmptyOutside(namespaces: Namespaces, pending: set<Text>) {
    forall n :: n in namespaces && n !in pending ==> namespaces[n].byAccess == map[]
  }

  /** What the search knows once the namespaces outside `pending` are seen. */
  ghost predicate OldestSoFar(namespaces: Namespaces, pending: set<Text>, oldest: Option<Text>, least: nat) {
    match oldest
    case None => EmptyOutside(namespaces, pending)
    case Some(name) =>
      name in namespaces && least in namespaces[name].byAccess && LeastOutside(namespaces, pending, least)
  }

  lemma OldestSkips(namespaces: Namespaces, pending: set<Text>, oldest: Option<Text>, least: nat, name: Text)
    requires OldestSoFar(namespaces, pending, oldest, least) && name in namespaces
    requires namespaces[name].byAccess == map[]
    ensures OldestSoFar(namespaces, pending - {name}, oldest, least)
  {
  }

  lemma OldestMoves(
    namespaces: Namespaces, pending: set<Text>, oldest: Option<Text>, least: nat, name: Text, first: nat)
    requires OldestSoFar(namespaces, pending, oldest, least) && name in namespaces
    requires first in namespaces[name].byAccess && forall t :: t in namespaces[name].byAccess ==> first <= t
    ensures if oldest.None? || first < least
            then OldestSoFar(namespaces, pending - {name}, Some(name), first)
            else OldestSoFar(namespaces, pending - {name}, oldest, least)
  {
  }

  /** The namespace whose least recent entry is the least recent anywhere. */
  method OldestNamespace(namespaces: Namespaces) returns (oldest: Option<Text>)
    requires AllValid(namespaces)
    ensures oldest.None? ==> forall n :: n in namespaces ==> namespaces[n].entries == map[]
    ensures oldest.Some? ==>
              && oldest.value in namespaces
              && exists k :: k in namespaces[oldest.value].entries
                   && NoneOlder(Entered(namespaces), namespaces[oldest.value].entries[k].stamp)
  {
    oldest := None;
    var least := 0;
    var pending := namespaces.Keys;
    while pending != {}
      invariant pending <= namespaces.Keys && OldestSoFar(namespaces, pending, oldest, least)
      decreases pending
    {
      var name :| name in pending;
      if namespaces[name].byAccess != map[] {
        var first := FirstStamp(namespaces[name].byAccess);
        OldestMoves(namespaces, pending, oldest, least, name, first);
        if oldest.None? || first < least {
          oldest, least := Some(name), first;
        }
      } else {
        OldestSkips(namespaces, pending, oldest, least, name);
      }
      pending := pending - {name};
    }
    if oldest.None? {
      NoStampsNoEntries(namespaces);
    } else {
      OldestIsOldest(namespaces, oldest.value, least);
    }
  }

  lemma NoStampsNoEntries(namespaces: Namespaces)
    requires AllValid(namespaces) && EmptyOutside(namespaces, {})
    ensures forall n :: n in namespaces ==> namespaces[n].entries == map[]
  {
    forall n | n in namespaces ensures namespaces[n].entries == map[] {
      assert namespaces[n].Valid() && namespaces[n].byAccess == map[];
      assert forall k :: k !in namespaces[n].entries;
    }
  }

  lemma OldestIsOldest(namespaces: Namespaces, name: Text, least: nat)
    requires AllValid(namespaces) && name in namespaces && least in namespaces[name].byAccess
    requires LeastOutside(namespaces, {}, least)
    ensures exists k :: k in namespaces[name].entries
              && NoneOlder(Entered(namespaces), namespaces[name].entries[k].stamp)
  {
    assert namespaces[name].Valid();
    var k := namespaces[name].byAccess[least];
    assert k in namespaces[name].entries && namespaces[name].entries[k].stamp == least;
    forall n, l | n in Entered(namespaces) && l in Entered(namespaces)[n]
      ensures least <= Entered(namespaces)[n][l].stamp
    {
      assert namespaces[n].Valid();
      assert namespaces[n].entries[l].stamp in namespaces[n].byAccess;
    }
  }

  /** Everything behind the cache's lock, and the stamp counter beside it. */
  datatype State = State(
    namespaces: Namespaces,
    stamp: nat,
    totalEntries: nat,
    totalBytes: nat,
    maxTotalEntries: nat,
    maxTotalBytes: nat,
    hits: Counter, misses: Counter, expirations: Counter, evictions: Counter, puts: Counter, deletes: Counter)
  {
    ghost function Held(): Contents {
      Entered(namespaces)
    }

    /** The indexes agree in every namespace and the totals are exact sums. */
    ghost predicate Consistent() {
      AllValid(namespaces) && totalEntries == TotalCount(Held()) && totalBytes == TotalBytes(Held())
    }

    ghost function View(): CacheState {
      CacheState(Policies(namespaces), maxTotalEntries, maxTotalBytes, Held(),
                 stamp, hits, misses, expirations, evictions, puts, deletes)
    }

    /** `release`: gives back what removed entries cost. */
    function Release(entries: nat, bytes: nat): State {
      this.(totalEntries := SatSub(totalEntries, entries), totalBytes := SatSub(totalBytes, bytes))
    }
  }

  /** Totals that move with one namespace stay exact, with nothing saturating. */
  lemma TotalsMove(contents: Contents, name: Text, entries: Entries, count: nat, bytes: nat)
    requires name in contents
    requires |entries| + count == |contents[name]| && Bytes(entries) + bytes == Bytes(contents[name])
    ensures SatSub(TotalCount(contents), count) == TotalCount(contents[name := entries])
    ensures SatSub(TotalBytes(contents), bytes) == TotalBytes(contents[name := entries])
  {
    TotalsPut(contents, name, entries);
  }

  /** Putting back a namespace that lost `count` entries worth `bytes`. */
  lemma Settled(state: State, name: Text, namespace: Namespace, count: nat, bytes: nat)
    requires state.Consistent() && name in state.namespaces
    requires namespace.Valid() && namespace.policy == state.namespaces[name].policy
    requires |namespace.entries| + count == |state.namespaces[name].entries|
    requires Bytes(namespace.entries) + bytes == Bytes(state.namespaces[name].entries)
    ensures var after := state.(namespaces := state.namespaces[name := namespace]).Release(count, bytes);
            && after.Consistent()
            && after.View() == state.View().(contents := state.Held()[name := namespace.entries])
  {
    PutNamespace(state.namespaces, name, namespace);
    TotalsMove(state.Held(), name, namespace.entries, count, bytes);
  }

  lemma NothingToDiscard(contents: Contents, name: Text, key: Text)
    requires name in contents && key !in contents[name]
    ensures contents[name := contents[name] - {key}] == contents
  {
    assert contents[name] - {key} == contents[name];
  }

  /** Removes one entry, if present, and releases its cost. */
  method Discard(state: State, name: Text, key: Text) returns (after: State)
    requires state.Consistent() && name in state.namespaces
    ensures after.Consistent()
    ensures after.View() == state.View().(contents := state.Held()[name := state.Held()[name] - {key}])
  {
    var namespace, released := Remove(state.namespaces[name], key);
    if released.None? {
      NothingToDiscard(state.Held(), name, key);
      return state;
    }
    BytesRemove(state.namespaces[name].entries, key);
    Settled(state, name, namespace, 1, released.value);
    after := state.(namespaces := state.namespaces[name := namespace]);
    after := after.Release(1, released.value);
  }

  /** Putting back a namespace that a sweep cleared of `gone`. */
  lemma SweepSettles(state: State, name: Text, namespace: Namespace, gone: set<Text>, removed: nat, released: nat)
    requires state.Consistent() && name in state.namespaces
    requires namespace.Valid() && namespace.policy == state.namespaces[name].policy
    requires gone <= state.namespaces[name].entries.Keys && removed == |gone|
    requires namespace.entries == state.namespaces[name].entries - gone
    requires released + Bytes(namespace.entries) == Bytes(state.namespaces[name].entries)
    ensures var put := state.(namespaces := state.namespaces[name := namespace]).Release(removed, released);
            var after := put.(expirations := SatAdd(put.expirations, removed));
            && after.Consistent()
            && after.View() == state.View().(contents := state.Held()[name := state.Held()[name] - gone],
                                             expirations := SatAdd(state.expirations, |gone|))
  {
    CountWithout(state.namespaces[name].entries, gone);
    Settled(state, name, namespace, removed, released);
    var put := state.(namespaces := state.namespaces[name := namespace]).Release(removed, released);
    Counted(put, SatAdd(put.expirations, removed));
  }

  lemma Counted(state: State, expirations: Counter)
    requires state.Consistent()
    ensures state.(expirations := expirations).Consistent()
    ensures state.(expirations := expirations).View() == state.View().(expirations := expirations)
  {
  }

  method Sweep(state: State, name: Text, now: nat) returns (after: State, ghost gone: set<Text>)
    requires state.Consistent() && name in state.namespaces
    ensures after.Consistent() && Swept(state.Held()[name], gone, now)
    ensures after.namespaces.Keys == state.namespaces.Keys
    ensures after.View() ==
              state.View().(contents := state.Held()[name := state.Held()[name] - gone],
                            expirations := SatAdd(state.expirations, |gone|))
  {
    var namespace, removed, released;
    namespace, removed, released, gone := SweepExpired(state.namespaces[name], now);
    SweepSettles(state, name, namespace, gone, removed, released);
    after := state.(namespaces := state.namespaces[name := namespace]);
    after := after.Release(removed, released);
    after := after.(expirations := SatAdd(after.expirations, removed));
  }

  /** One eviction on the budget of the namespace `name`. */
  method EvictLocally(state: State, name: Text) returns (after: State, victim: Option<Text>)
    requires state.Consistent() && name in state.namespaces
    ensures victim.None? ==> state.Held()[name] == map[] && after == state
    ensures victim.Some? ==>
              && var entries := state.Held()[name];
              && after.Consistent()
              && victim.value in entries
              && (forall k :: k in entries ==> entries[victim.value].stamp <= entries[k].stamp)
              && after.View() ==
                   state.View().(contents := state.Held()[name := entries - {victim.value}],
                                 evictions := SatAdd(state.evictions, 1))
  {
    var namespace, evicted := EvictOne(state.namespaces[name]);
    if evicted.None? {
      return state, None;
    }
    var (key, released) := evicted.value;
    BytesRemove(state.namespaces[name].entries, key);
    Settled(state, name, namespace, 1, released);
    after := state.(namespaces := state.namespaces[name := namespace]);
    after := after.Release(1, released);
    after := after.(evictions := SatAdd(after.evictions, 1));
    victim := Some(key);
  }

  /** One eviction on the cache-wide budget: no entry of any namespace is older
      than the victim. */
  method EvictGlobally(state: State) returns (after: State, victim: Option<Slot>)
    requires state.Consistent()
    ensures victim.None? ==> (forall n :: n in state.Held() ==> state.Held()[n] == map[]) && after == state
    ensures victim.Some? ==>
              && var before := state.Held();
              && after.Consistent()
              && Holds(before, victim.value)
              && NoneOlder(before, At(before, victim.value).stamp)
              && after.View() ==
                   state.View().(contents := before[victim.value.0 := before[victim.value.0] - {victim.value.1}],
                                      evictions := SatAdd(state.evictions, 1))
  {
    var oldest := OldestNamespace(state.namespaces);
    if oldest.None? {
      return state, None;
    }
    var name := oldest.value;
    ghost var before: Contents := state.Held();
    ghost var first :| first in before[name] && NoneOlder(before, before[name][first].stamp);
    var key;
    after, key := EvictLocally(state, name);
    assert before[name][key.value].stamp <= before[name][first].stamp;
    victim := Some((name, key.value));
  }

  /** The demand is for this cache, and a lone entry meets it. */
  ghost predicate Reasonable(s: CacheState, d: Demand) {
    && d.name in s.policies && d.policy == s.policies[d.name] && d.policy.Validate().None?
    && d.maxTotalEntries == s.maxTotalEntries && d.maxTotalBytes == s.maxTotalBytes < U64_MAX
    && NamespaceFits(map[], d.policy, d.charge)
    && 0 < s.maxTotalEntries && d.charge <= s.maxTotalBytes
    && UniqueStamps(s.contents)
  }

  /** `state` is `s` with the victims so far evicted. */
  ghost predicate MakingRoom(s: CacheState, state: State, d: Demand, local: set<Text>, global: set<Slot>) {
    && state.Consistent() && Reasonable(s, d)
    && Evicting(s.contents, d, local, global)
    && state.View() == Evicted(s, d.name, local, global)
  }

  lemma MakingRoomStart(state: State, d: Demand)
    requires state.Consistent() && Reasonable(state.View(), d)
    ensures MakingRoom(state.View(), state, d, {}, {})
  {
    EvictingNothing(state.Held(), d);
  }

  method EvictForNamespace(ghost s: CacheState, state: State, d: Demand, ghost local: set<Text>,
                           ghost global: set<Slot>)
    returns (after: State, error: Option<CacheError>, ghost grown: set<Text>)
    requires MakingRoom(s, state, d, local, global)
    requires !NamespaceFits(state.Held()[d.name], d.policy, d.charge)
    ensures error.None? && MakingRoom(s, after, d, grown, global)
    ensures TotalCount(after.Held()) < TotalCount(state.Held())
  {
    error := None;
    var victim;
    after, victim := EvictLocally(state, d.name);
    if victim.None? {
      error := Some(CannotFitNamespace);
      assert false;
    }
    LocalRound(s, d, local, global, state.View(), victim.value);
    EvictSlotShrinks(state.View(), (d.name, victim.value));
    grown := local + {victim.value};
  }

  method EvictForCache(ghost s: CacheState, state: State, d: Demand, ghost local: set<Text>, ghost global: set<Slot>)
    returns (after: State, error: Option<CacheError>, ghost grown: set<Slot>)
    requires MakingRoom(s, state, d, local, global)
    requires NamespaceFits(state.Held()[d.name], d.policy, d.charge)
    requires !CacheFits(state.Held(), d.maxTotalEntries, d.maxTotalBytes, d.charge)
    ensures error.None? && MakingRoom(s, after, d, local, grown)
    ensures TotalCount(after.Held()) < TotalCount(state.Held())
  {
    error := None;
    var victim;
    after, victim := EvictGlobally(state);
    if victim.None? {
      error := Some(CannotFitCache);
      EmptyCacheTotals(state.Held());
      assert false;
    }
    GlobalRound(s, d, local, global, state.View(), victim.value);
    EvictSlotShrinks(state.View(), victim.value);
    grown := global + {victim.value};
  }

  /** The eviction loop of `write`.  An entry that fits an empty cache always gets
      room: no round finds nothing to evict, so no error comes back. */
  method MakeRoom(state: State, d: Demand)
    returns (after: State, error: Option<CacheError>, ghost local: set<Text>, ghost global: set<Slot>)
    requires state.Consistent() && Reasonable(state.View(), d)
    ensures error.None? && MakingRoom(state.View(), after, d, local, global)
    ensures NamespaceFits(state.Held()[d.name] - local, d.policy, d.charge)
    ensures CacheFits(after.Held(), d.maxTotalEntries, d.maxTotalBytes, d.charge)
  {
    after, error, local, global := state, None, {}, {};
    ghost var s := state.View();
    MakingRoomStart(state, d);
    while true
      invariant error.None? && MakingRoom(s, after, d, local, global)
      decreases TotalCount(after.Held())
    {
      Destination(s, after, d, local, global);
      var namespace := after.namespaces[d.name];
      NamespaceCheck(namespace, d.policy, d.charge);
      CacheCheck(after, d.charge);
      if !(|namespace.entries| < d.policy.maxEntries && SatAdd(namespace.bytes, d.charge) <= d.policy.maxBytes) {
        after, error, local := EvictForNamespace(s, after, d, local, global);
        continue;
      }
      if after.totalEntries < after.maxTotalEntries && SatAdd(after.totalBytes, d.charge) <= after.maxTotalBytes {
        DestinationFits(s.contents, d, local, global);
        break;
      }
      after, error, global := EvictForCache(s, after, d, local, global);
    }
  }

  lemma NamespaceCheck(namespace: Namespace, policy: NamespacePolicy, charge: nat)
    requires namespace.Valid() && policy.maxBytes < U64_MAX
    ensures |namespace.entries| < policy.maxEntries && SatAdd(namespace.bytes, charge) <= policy.maxBytes <==>
            NamespaceFits(namespace.entries, policy, charge)
  {
  }

  lemma CacheCheck(state: State, charge: nat)
    requires state.Consistent() && state.maxTotalBytes < U64_MAX
    ensures state.totalEntries < state.maxTotalEntries && SatAdd(state.totalBytes, charge) <= state.maxTotalBytes <==>
            CacheFits(state.Held(), state.maxTotalEntries, state.maxTotalBytes, charge)
  {
  }

  lemma Destination(s: CacheState, state: State, d: Demand, local: set<Text>, global: set<Slot>)
    requires MakingRoom(s, state, d, local, global)
    ensures d.name in state.namespaces && state.namespaces[d.name].Valid()
    ensures d.name in state.Held() && state.Held()[d.name] == state.namespaces[d.name].entries
    ensures state.maxTotalEntries == d.maxTotalEntries && state.maxTotalBytes == d.maxTotalBytes
  {
  }

  /** The state a new cache starts in. */
  ghost function Fresh(config: CacheConfig): CacheState {
    CacheState(config.namespaces, config.maxTotalEntries, config.maxTotalBytes,
               map n | n in config.namespaces :: map[], 0, 0, 0, 0, 0, 0, 0)
  }

  lemma FreshInv(config: CacheConfig)
    requires config.Validates()
    ensures Inv(Fresh(config))
  {
    var s := Fresh(config);
    EmptyCacheTotals(s.contents);
    forall n | n in s.contents ensures Within(s.contents[n], s.policies[n]) {
      assert Charges(map[]) == map[];
    }
    forall n | n in s.policies ensures PolicyOk(s.policies[n], s.maxTotalEntries, s.maxTotalBytes) {
      assert config.PolicyError(config.namespaces[n]).None?;
    }
  }
}
