/** Every operation keeps the cache invariant: unique stamps, exact accounting
    and every budget (`crates/krit-cache/src/store.rs`). */
module CacheInvariant {
  import opened Utf8
  import opened Wrappers
  import opened CacheConfig
  import opened CacheModel
  import opened CacheEviction

  predicate SubContents(small: Contents, big: Contents) {
    small.Keys == big.Keys && forall n :: n in small ==> SubEntries(small[n], big[n])
  }

  lemma SubContentsStamps(small: Contents, big: Contents, stamp: nat, later: nat)
    requires SubContents(small, big) && UniqueStamps(big) && StampsUpTo(big, stamp) && stamp <= later
    ensures UniqueStamps(small) && StampsUpTo(small, later)
  {
    forall a, b | Holds(small, a) && Holds(small, b) && SameStamp(small, a, b) ensures a == b {
      assert SameStamp(big, a, b);
    }
  }

  lemma SubContentsBudget(policies: map<Text, NamespacePolicy>, small: Contents, big: Contents)
    requires SubContents(small, big) && WithinBudget(policies, big)
    ensures WithinBudget(policies, small)
  {
    forall n | n in small ensures Within(small[n], policies[n]) {
      WithinLess(small[n], big[n], policies[n]);
    }
  }

  lemma WithinLess(small: Entries, big: Entries, policy: NamespacePolicy)
    requires SubEntries(small, big) && Within(big, policy)
    ensures Within(small, policy)
  {
    SubEntriesBytes(small, big);
  }

  lemma BudgetPut(policies: map<Text, NamespacePolicy>, contents: Contents, name: Text, entries: Entries)
    requires WithinBudget(policies, contents) && name in contents && Within(entries, policies[name])
    ensures WithinBudget(policies, contents[name := entries])
  {
  }

  lemma ShrinkTotals(contents: Contents, name: Text, entries: Entries)
    requires name in contents && SubEntries(entries, contents[name])
    ensures TotalBytes(contents[name := entries]) <= TotalBytes(contents)
    ensures TotalCount(contents[name := entries]) <= TotalCount(contents)
  {
    TotalsPut(contents, name, entries);
    SubEntriesBytes(entries, contents[name]);
  }

  lemma ShrunkIsSubContents(contents: Contents, name: Text, entries: Entries)
    requires name in contents && SubEntries(entries, contents[name])
    ensures SubContents(contents[name := entries], contents)
  {
  }

  /** Shrinking one namespace keeps the invariant. */
  lemma ShrinkKeepsInv(s: CacheState, s': CacheState, name: Text, entries: Entries)
    requires Inv(s) && name in s.contents && SubEntries(entries, s.contents[name])
    requires s'.policies == s.policies && s'.maxTotalEntries == s.maxTotalEntries
    requires s'.maxTotalBytes == s.maxTotalBytes && s'.stamp >= s.stamp
    requires s'.contents == s.contents[name := entries]
    ensures Inv(s')
  {
    ShrinkTotals(s.contents, name, entries);
    ShrunkIsSubContents(s.contents, name, entries);
    SubContentsStamps(s'.contents, s.contents, s.stamp, s'.stamp);
    SubContentsBudget(s.policies, s'.contents, s.contents);
  }

  /** Putting an entry with a fresh stamp into a namespace that has room. */
  lemma InsertStamps(contents: Contents, name: Text, key: Text, entry: Entry, stamp: nat)
    requires name in contents && UniqueStamps(contents) && StampsUpTo(contents, stamp)
    requires entry.stamp == stamp + 1
    ensures var c := contents[name := contents[name][key := entry]];
            UniqueStamps(c) && StampsUpTo(c, stamp + 1)
  {
    var c := contents[name := contents[name][key := entry]];
    var slot := (name, key);
    assert forall a :: Holds(c, a) && a != slot ==>
             Holds(contents, a) && At(c, a) == At(contents, a) && contents[a.0][a.1].stamp <= stamp;
    forall a, b | Holds(c, a) && Holds(c, b) && SameStamp(c, a, b) ensures a == b {
      if a != slot && b != slot {
        assert SameStamp(contents, a, b);
      }
    }
  }

  lemma GetKeepsInv(s: CacheState, s': CacheState, name: Text, key: Text, now: nat,
                    reply: Result<Option<Text>, CacheError>)
    requires Inv(s) && GetStep(s, s', name, key, now, reply)
    ensures Inv(s')
  {
    if GetRefusal(s, name, key).None? && name in s.contents && key in s.contents[name] {
      var entries := s.contents[name];
      if entries[key].expiresAt <= now {
        ShrinkKeepsInv(s, s', name, entries - {key});
      } else {
        HitKeepsInv(s, s', name, key);
      }
    }
  }

  lemma RestampSizes(entries: Entries, key: Text, stamp: nat)
    requires key in entries
    ensures Bytes(entries[key := entries[key].(stamp := stamp)]) == Bytes(entries)
    ensures |entries[key := entries[key].(stamp := stamp)]| == |entries|
  {
    BytesRemove(entries, key);
    BytesPut(entries, key, entries[key].(stamp := stamp));
  }

  lemma HitKeepsInv(s: CacheState, s': CacheState, name: Text, key: Text)
    requires Inv(s) && name in s.contents && key in s.contents[name]
    requires s'.policies == s.policies && s'.maxTotalEntries == s.maxTotalEntries
    requires s'.maxTotalBytes == s.maxTotalBytes && s'.stamp == s.stamp + 1
    requires s'.contents ==
             s.contents[name := s.contents[name][key := s.contents[name][key].(stamp := s.stamp + 1)]]
    ensures Inv(s')
  {
    var entries := s.contents[name];
    var entry := entries[key].(stamp := s.stamp + 1);
    RestampSizes(entries, key, s.stamp + 1);
    BudgetPut(s.policies, s.contents, name, entries[key := entry]);
    TotalsPut(s.contents, name, entries[key := entry]);
    InsertStamps(s.contents, name, key, entry, s.stamp);
  }

  lemma DeleteKeepsInv(s: CacheState, s': CacheState, name: Text, key: Text, reply: Result<(), CacheError>)
    requires Inv(s) && DeleteStep(s, s', name, key, reply)
    ensures Inv(s')
  {
    if DeleteRefusal(s, name, key).None? {
      ShrinkKeepsInv(s, s', name, s.contents[name] - {key});
    }
  }

  lemma RoomIsSubContents(s: CacheState, name: Text, key: Text, removed: Removed)
    requires name in s.contents
    ensures var room := Room(s, name, key, removed);
            && SubContents(room, s.contents)
            && SubEntries(room[name], Cleared(s, name, key, removed.expired) - removed.local)
            && key !in room[name]
  {
  }

  lemma InsertSizes(entries: Entries, key: Text, entry: Entry)
    requires key !in entries
    ensures Bytes(entries[key := entry]) == Bytes(entries) + Charge(key, entry.value)
    ensures |entries[key := entry]| == |entries| + 1
  {
    BytesPut(entries, key, entry);
    assert entries - {key} == entries;
  }

  lemma InsertKeepsBudget(policies: map<Text, NamespacePolicy>, room: Contents, name: Text, key: Text, entry: Entry)
    requires WithinBudget(policies, room) && name in room && key !in room[name]
    requires NamespaceFits(room[name], policies[name], Charge(key, entry.value))
    ensures WithinBudget(policies, room[name := room[name][key := entry]])
    ensures TotalBytes(room[name := room[name][key := entry]]) == TotalBytes(room) + Charge(key, entry.value)
    ensures TotalCount(room[name := room[name][key := entry]]) == TotalCount(room) + 1
  {
    InsertSizes(room[name], key, entry);
    BudgetPut(policies, room, name, room[name][key := entry]);
    TotalsPut(room, name, room[name][key := entry]);
  }

  lemma WriteKeepsInv(s: CacheState, s': CacheState, name: Text, key: Text, value: Text, ttl: int, now: nat,
                      removed: Removed)
    requires Inv(s) && WriteEffect(s, s', name, key, value, ttl, now, removed)
    ensures Inv(s')
  {
    var room := Room(s, name, key, removed);
    var entry := Entry(value, now + ttl * 1000, s.stamp + 1);
    RoomIsSubContents(s, name, key, removed);
    SubContentsStamps(room, s.contents, s.stamp, s.stamp);
    SubContentsBudget(s.policies, room, s.contents);
    FitsInLess(room[name], Cleared(s, name, key, removed.expired) - removed.local, s.policies[name],
               Charge(key, value));
    InsertStamps(room, name, key, entry, s.stamp);
    InsertKeepsBudget(s.policies, room, name, key, entry);
  }
}
