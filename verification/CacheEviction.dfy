/** How the two victim sets grow one eviction at a time, and why eviction always
    makes room under a validated configuration
    (`crates/krit-cache/src/store.rs`). */
module CacheEviction {
  import opened Utf8
  import opened CacheConfig
  import opened CacheModel

  predicate SubEntries(small: Entries, big: Entries) {
    small.Keys <= big.Keys && forall k :: k in small ==> small[k] == big[k]
  }

  lemma {:induction false} SubEntriesBytes(small: Entries, big: Entries)
    requires SubEntries(small, big)
    ensures Bytes(small) <= Bytes(big) && |small| <= |big|
    decreases |big|
  {
    if small == big {
    } else {
      assert small.Keys != big.Keys;
      var k :| k in big && k !in small;
      BytesRemove(big, k);
      SubEntriesBytes(small, big - {k});
    }
  }

  lemma FitsInLess(small: Entries, big: Entries, policy: NamespacePolicy, charge: nat)
    requires SubEntries(small, big) && NamespaceFits(big, policy, charge)
    ensures NamespaceFits(small, policy, charge)
  {
    SubEntriesBytes(small, big);
  }

  ghost predicate DistinctStamps(entries: Entries) {
    forall k, l :: k in entries && l in entries && entries[k].stamp == entries[l].stamp ==> k == l
  }

  lemma OldestGrow(entries: Entries, victims: set<Text>, victim: Text)
    requires OldestOf(entries, victims) && DistinctStamps(entries)
    requires victim in entries && victim !in victims
    requires forall k :: k in entries && k !in victims ==> entries[victim].stamp <= entries[k].stamp
    ensures OldestOf(entries, victims + {victim})
    ensures forall k :: k in victims ==> entries[k].stamp <= entries[victim].stamp
  {
    forall l | l in entries && l !in victims + {victim} ensures entries[victim].stamp < entries[l].stamp {
      assert entries[victim].stamp != entries[l].stamp;
    }
  }

  lemma LastGrow(entries: Entries, victims: set<Text>, policy: NamespacePolicy, charge: nat, victim: Text)
    requires victims <= entries.Keys && victim in entries && victim !in victims
    requires !NamespaceFits(entries - victims, policy, charge)
    requires forall k :: k in victims ==> entries[k].stamp <= entries[victim].stamp
    ensures LocalLast(entries, victims + {victim}, victim, policy, charge)
  {
    assert victims + {victim} - {victim} == victims;
  }

  /** Evicting the least recently used survivor keeps the victims exact. */
  lemma LocalGrow(entries: Entries, victims: set<Text>, policy: NamespacePolicy, charge: nat, victim: Text)
    requires LocalVictims(entries, victims, policy, charge) && DistinctStamps(entries)
    requires !NamespaceFits(entries - victims, policy, charge)
    requires victim in entries && victim !in victims
    requires forall k :: k in entries && k !in victims ==> entries[victim].stamp <= entries[k].stamp
    ensures LocalVictims(entries, victims + {victim}, policy, charge)
  {
    OldestGrow(entries, victims, victim);
    LastGrow(entries, victims, policy, charge, victim);
  }

  lemma WithoutOneMore(contents: Contents, victims: set<Slot>, victim: Slot)
    requires Holds(Without(contents, victims), victim)
    ensures var c := Without(contents, victims);
            Without(contents, victims + {victim}) == c[victim.0 := c[victim.0] - {victim.1}]
  {
    var c := Without(contents, victims);
    var d := Without(contents, victims + {victim});
    assert d.Keys == c.Keys;
    forall n | n in d ensures d[n] == c[victim.0 := c[victim.0] - {victim.1}][n] {
      assert d[n] == if n == victim.0 then c[n] - {victim.1} else c[n];
    }
  }

  lemma WithoutNone(contents: Contents)
    ensures Without(contents, {}) == contents
  {
    var c := Without(contents, {});
    assert forall n :: n in contents ==> c[n] == contents[n];
  }

  lemma OldestAnywhereGrow(contents: Contents, victims: set<Slot>, victim: Slot)
    requires OldestAnywhere(contents, victims) && UniqueStamps(contents)
    requires Holds(contents, victim) && victim !in victims
    requires forall n, k :: n in contents && k in contents[n] && (n, k) !in victims ==>
               At(contents, victim).stamp <= contents[n][k].stamp
    ensures OldestAnywhere(contents, victims + {victim})
    ensures forall v :: v in victims ==> At(contents, v).stamp <= At(contents, victim).stamp
  {
    forall n, k | n in contents && k in contents[n] && (n, k) !in victims + {victim}
      ensures At(contents, victim).stamp < contents[n][k].stamp
    {
      assert !SameStamp(contents, victim, (n, k));
    }
    assert victim == (victim.0, victim.1);
  }

  lemma GlobalLastGrow(contents: Contents, victims: set<Slot>, maxTotalEntries: nat, maxTotalBytes: nat, charge: nat,
                       victim: Slot)
    requires (forall v :: v in victims ==> Holds(contents, v)) && Holds(contents, victim) && victim !in victims
    requires !CacheFits(Without(contents, victims), maxTotalEntries, maxTotalBytes, charge)
    requires forall v :: v in victims ==> At(contents, v).stamp <= At(contents, victim).stamp
    ensures GlobalLast(contents, victims + {victim}, victim, maxTotalEntries, maxTotalBytes, charge)
  {
    assert victims + {victim} - {victim} == victims;
  }

  lemma GlobalGrow(contents: Contents, victims: set<Slot>, maxTotalEntries: nat, maxTotalBytes: nat, charge: nat,
                   victim: Slot)
    requires GlobalVictims(contents, victims, maxTotalEntries, maxTotalBytes, charge) && UniqueStamps(contents)
    requires !CacheFits(Without(contents, victims), maxTotalEntries, maxTotalBytes, charge)
    requires Holds(contents, victim) && victim !in victims
    requires forall n, k :: n in contents && k in contents[n] && (n, k) !in victims ==>
               At(contents, victim).stamp <= contents[n][k].stamp
    ensures GlobalVictims(contents, victims + {victim}, maxTotalEntries, maxTotalBytes, charge)
  {
    OldestAnywhereGrow(contents, victims, victim);
    GlobalLastGrow(contents, victims, maxTotalEntries, maxTotalBytes, charge, victim);
  }

  lemma {:induction false} SumOfZeros<K(!new)>(m: map<K, nat>)
    requires forall k :: k in m ==> m[k] == 0
    ensures Sum(m) == 0
    decreases |m|
  {
    if m != map[] {
      var k :| k in m;
      SumRemove(m, k);
      SumOfZeros(m - {k});
    }
  }

  /** An accepted entry fits an empty namespace, and an empty cache. */
  lemma EmptyFits(s: CacheState, name: Text, key: Text, value: Text, ttl: int, now: nat, writer: Writer)
    requires forall n :: n in s.policies ==> PolicyOk(s.policies[n], s.maxTotalEntries, s.maxTotalBytes)
    requires WriteRefusal(s, name, key, value, ttl, now, writer).None?
    ensures Charge(key, value) == |key| + |value| + ENTRY_OVERHEAD_BYTES
    ensures NamespaceFits(map[], s.policies[name], Charge(key, value))
    ensures 0 < s.maxTotalEntries && Charge(key, value) <= s.maxTotalBytes
    ensures ttl >= MIN_TTL_SECONDS
  {
  }

  lemma EmptyCacheTotals(contents: Contents)
    requires forall n :: n in contents ==> contents[n] == map[]
    ensures TotalCount(contents) == 0 && TotalBytes(contents) == 0
  {
    SumOfZeros(Totals(contents, Count));
    forall n | n in contents ensures Bytes(contents[n]) == 0 {
      assert Charges(contents[n]) == map[];
    }
    SumOfZeros(Totals(contents, Bytes));
  }

  // ----- The eviction loop

  /** The room a new entry needs. */
  datatype Demand = Demand(
    name: Text, policy: NamespacePolicy, maxTotalEntries: nat, maxTotalBytes: nat, charge: nat)

  /** The destination without its local victims. */
  function Trimmed(contents: Contents, name: Text, local: set<Text>): Contents
    requires name in contents
  {
    contents[name := contents[name] - local]
  }

  /** What the loop keeps: local victims come first, and only once the
      destination fits are entries taken from the whole cache. */
  ghost predicate Evicting(contents: Contents, d: Demand, local: set<Text>, global: set<Slot>) {
    && d.name in contents
    && LocalVictims(contents[d.name], local, d.policy, d.charge)
    && GlobalVictims(Trimmed(contents, d.name, local), global, d.maxTotalEntries, d.maxTotalBytes, d.charge)
    && (global != {} ==> NamespaceFits(contents[d.name] - local, d.policy, d.charge))
  }

  lemma EvictingNothing(contents: Contents, d: Demand)
    requires d.name in contents
    ensures Evicting(contents, d, {}, {})
    ensures Without(Trimmed(contents, d.name, {}), {}) == contents
  {
    assert contents[d.name] - {} == contents[d.name];
    WithoutNone(contents);
  }

  /** While the destination does not fit, nothing has been taken elsewhere. */
  lemma LocalPressureComesFirst(contents: Contents, d: Demand, local: set<Text>, global: set<Slot>)
    requires Evicting(contents, d, local, global)
    requires !NamespaceFits(Without(Trimmed(contents, d.name, local), global)[d.name], d.policy, d.charge)
    ensures global == {}
    ensures Without(Trimmed(contents, d.name, local), global) == Trimmed(contents, d.name, local)
  {
    if global != {} {
      FitsInLess(Without(Trimmed(contents, d.name, local), global)[d.name], contents[d.name] - local,
                 d.policy, d.charge);
    }
    WithoutNone(Trimmed(contents, d.name, local));
  }

  lemma UniqueInOne(contents: Contents, name: Text)
    requires UniqueStamps(contents) && name in contents
    ensures DistinctStamps(contents[name])
  {
    var entries := contents[name];
    forall k, l | k in entries && l in entries && entries[k].stamp == entries[l].stamp ensures k == l {
      assert SameStamp(contents, (name, k), (name, l));
    }
  }

  lemma EvictLocalStep(contents: Contents, d: Demand, local: set<Text>, victim: Text)
    requires Evicting(contents, d, local, {}) && UniqueStamps(contents)
    requires !NamespaceFits(contents[d.name] - local, d.policy, d.charge)
    requires victim in contents[d.name] - local
    requires forall k :: k in contents[d.name] - local ==>
               contents[d.name][victim].stamp <= contents[d.name][k].stamp
    ensures Evicting(contents, d, local + {victim}, {})
    ensures Without(Trimmed(contents, d.name, local + {victim}), {}) ==
            Trimmed(contents, d.name, local)[d.name := contents[d.name] - local - {victim}]
  {
    UniqueInOne(contents, d.name);
    LocalGrow(contents[d.name], local, d.policy, d.charge, victim);
    TrimOneMore(contents, d.name, local, victim);
    WithoutNone(Trimmed(contents, d.name, local + {victim}));
  }

  lemma TrimOneMore(contents: Contents, name: Text, local: set<Text>, victim: Text)
    requires name in contents
    ensures Trimmed(contents, name, local + {victim}) ==
            Trimmed(contents, name, local)[name := contents[name] - local - {victim}]
  {
    assert contents[name] - (local + {victim}) == contents[name] - local - {victim};
  }

  lemma TrimmedStamps(contents: Contents, name: Text, local: set<Text>)
    requires UniqueStamps(contents) && name in contents
    ensures UniqueStamps(Trimmed(contents, name, local))
  {
    var c := Trimmed(contents, name, local);
    forall a, b | Holds(c, a) && Holds(c, b) && SameStamp(c, a, b) ensures a == b {
      assert SameStamp(contents, a, b);
    }
  }

  lemma EvictGlobalStep(contents: Contents, d: Demand, local: set<Text>, global: set<Slot>, now: Contents, victim: Slot)
    requires Evicting(contents, d, local, global) && UniqueStamps(contents)
    requires NamespaceFits(contents[d.name] - local, d.policy, d.charge)
    requires now == Without(Trimmed(contents, d.name, local), global)
    requires !CacheFits(now, d.maxTotalEntries, d.maxTotalBytes, d.charge)
    requires Holds(now, victim)
    requires NoneOlder(now, At(now, victim).stamp)
    ensures Evicting(contents, d, local, global + {victim}) && victim !in global
    ensures Without(Trimmed(contents, d.name, local), global + {victim}) ==
            now[victim.0 := now[victim.0] - {victim.1}]
  {
    var trimmed := Trimmed(contents, d.name, local);
    TrimmedStamps(contents, d.name, local);
    assert victim == (victim.0, victim.1);
    assert forall n, k :: n in trimmed && k in trimmed[n] && (n, k) !in global ==>
             k in now[n] && now[n][k] == trimmed[n][k];
    GlobalGrow(trimmed, global, d.maxTotalEntries, d.maxTotalBytes, d.charge, victim);
    WithoutOneMore(trimmed, global, victim);
  }

  /** Once both fit, the destination fits without any help from elsewhere. */
  lemma DestinationFits(contents: Contents, d: Demand, local: set<Text>, global: set<Slot>)
    requires Evicting(contents, d, local, global)
    requires NamespaceFits(Without(Trimmed(contents, d.name, local), global)[d.name], d.policy, d.charge)
    ensures NamespaceFits(contents[d.name] - local, d.policy, d.charge)
  {
    WithoutNone(Trimmed(contents, d.name, local));
  }

  /** A state after evicting `local` from one namespace and then `global`. */
  function Evicted(s: CacheState, name: Text, local: set<Text>, global: set<Slot>): CacheState
    requires name in s.contents
  {
    s.(contents := Without(Trimmed(s.contents, name, local), global),
       evictions := SatAdd(s.evictions, |local| + |global|))
  }

  /** One counted eviction of one entry. */
  function EvictSlot(s: CacheState, slot: Slot): CacheState
    requires Holds(s.contents, slot)
  {
    s.(contents := s.contents[slot.0 := s.contents[slot.0] - {slot.1}], evictions := SatAdd(s.evictions, 1))
  }

  lemma EvictSlotShrinks(s: CacheState, slot: Slot)
    requires Holds(s.contents, slot)
    ensures TotalCount(EvictSlot(s, slot).contents) < TotalCount(s.contents)
  {
    BytesRemove(s.contents[slot.0], slot.1);
    TotalsPut(s.contents, slot.0, s.contents[slot.0] - {slot.1});
  }

  lemma LocalRound(s: CacheState, d: Demand, local: set<Text>, global: set<Slot>, t: CacheState, victim: Text)
    requires Evicting(s.contents, d, local, global) && UniqueStamps(s.contents)
    requires t == Evicted(s, d.name, local, global)
    requires !NamespaceFits(t.contents[d.name], d.policy, d.charge)
    requires victim in t.contents[d.name]
    requires forall k :: k in t.contents[d.name] ==> t.contents[d.name][victim].stamp <= t.contents[d.name][k].stamp
    ensures Evicting(s.contents, d, local + {victim}, global)
    ensures EvictSlot(t, (d.name, victim)) == Evicted(s, d.name, local + {victim}, global)
  {
    LocalPressureComesFirst(s.contents, d, local, global);
    EvictLocalStep(s.contents, d, local, victim);
  }

  lemma GlobalRound(s: CacheState, d: Demand, local: set<Text>, global: set<Slot>, t: CacheState, victim: Slot)
    requires Evicting(s.contents, d, local, global) && UniqueStamps(s.contents)
    requires t == Evicted(s, d.name, local, global)
    requires NamespaceFits(t.contents[d.name], d.policy, d.charge)
    requires !CacheFits(t.contents, d.maxTotalEntries, d.maxTotalBytes, d.charge)
    requires Holds(t.contents, victim)
    requires NoneOlder(t.contents, At(t.contents, victim).stamp)
    ensures Evicting(s.contents, d, local, global + {victim})
    ensures EvictSlot(t, victim) == Evicted(s, d.name, local, global + {victim})
  {
    DestinationFits(s.contents, d, local, global);
    EvictGlobalStep(s.contents, d, local, global, t.contents, victim);
    CountOneMore(s.evictions, local, global, victim);
  }

  lemma CountOneMore(evictions: Counter, local: set<Text>, global: set<Slot>, victim: Slot)
    requires victim !in global
    ensures SatAdd(SatAdd(evictions, |local| + |global|), 1) == SatAdd(evictions, |local| + |global + {victim}|)
  {
  }
}
