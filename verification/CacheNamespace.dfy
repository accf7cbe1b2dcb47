/** One namespace with its recency and expiry indexes.  The cache owns each
    namespace by value, so a method takes one and returns it updated
    (`crates/krit-cache/src/store.rs`). */
module CacheNamespace {
  import opened Utf8
  import opened Wrappers
  import opened CacheConfig
  import opened CacheModel

  /** The three structures describe the same entries: each stamp leads to its
      one entry and back, and so does each deadline. */
  predicate Indexed(entries: Entries, byAccess: map<nat, Text>, byExpiry: set<(nat, Text)>) {
    && (forall k :: k in entries ==> entries[k].stamp in byAccess && byAccess[entries[k].stamp] == k)
    && (forall t :: t in byAccess ==> byAccess[t] in entries && entries[byAccess[t]].stamp == t)
    && (forall k :: k in entries ==> (entries[k].expiresAt, k) in byExpiry)
    && (forall p :: p in byExpiry ==> p.1 in entries && entries[p.1].expiresAt == p.0)
  }

  datatype Namespace = Namespace(
    policy: NamespacePolicy,
    entries: Entries,
    byAccess: map<nat, Text>,
    byExpiry: set<(nat, Text)>,
    bytes: nat)
  {
    ghost predicate Valid() {
      Indexed(entries, byAccess, byExpiry) && bytes == Bytes(entries)
    }
  }

  function NewNamespace(policy: NamespacePolicy): (namespace: Namespace)
    ensures namespace.Valid()
  {
    assert Charges(map[]) == map[];
    Namespace(policy, map[], map[], {}, 0)
  }

  lemma IndexedWithout(entries: Entries, byAccess: map<nat, Text>, byExpiry: set<(nat, Text)>, key: Text)
    requires Indexed(entries, byAccess, byExpiry) && key in entries
    ensures Indexed(entries - {key}, byAccess - {entries[key].stamp}, byExpiry - {(entries[key].expiresAt, key)})
  {
  }

  lemma IndexedWith(entries: Entries, byAccess: map<nat, Text>, byExpiry: set<(nat, Text)>, key: Text, entry: Entry)
    requires Indexed(entries, byAccess, byExpiry) && key !in entries && entry.stamp !in byAccess
    ensures Indexed(entries[key := entry], byAccess[entry.stamp := key], byExpiry + {(entry.expiresAt, key)})
  {
  }

  lemma IndexedRestamped(entries: Entries, byAccess: map<nat, Text>, byExpiry: set<(nat, Text)>, key: Text, stamp: nat)
    requires Indexed(entries, byAccess, byExpiry) && key in entries && stamp !in byAccess
    ensures Indexed(entries[key := entries[key].(stamp := stamp)],
                    (byAccess - {entries[key].stamp})[stamp := key], byExpiry)
  {
  }

  /** Takes `key` out of all three structures; `released` is the charge given
      back, or `None` when nothing was stored under it. */
  method Remove(namespace: Namespace, key: Text) returns (after: Namespace, released: Option<nat>)
    requires namespace.Valid()
    ensures after.Valid() && after.policy == namespace.policy
    ensures after.entries == namespace.entries - {key}
    ensures released == if key in namespace.entries then Some(Charge(key, namespace.entries[key].value)) else None
  {
    if key !in namespace.entries {
      assert namespace.entries - {key} == namespace.entries;
      return namespace, None;
    }
    BytesRemove(namespace.entries, key);
    IndexedWithout(namespace.entries, namespace.byAccess, namespace.byExpiry, key);
    var entry := namespace.entries[key];
    var charge := Charge(key, entry.value);
    after := namespace.(
      entries := namespace.entries - {key},
      byAccess := namespace.byAccess - {entry.stamp},
      byExpiry := namespace.byExpiry - {(entry.expiresAt, key)},
      bytes := SatSub(namespace.bytes, charge));
    released := Some(charge);
  }

  /** The first key of the recency index. */
  method FirstStamp(byAccess: map<nat, Text>) returns (stamp: nat)
    requires byAccess != map[]
    ensures stamp in byAccess && forall t :: t in byAccess ==> stamp <= t
  {
    ghost var least := Least(byAccess.Keys);
    stamp :| stamp in byAccess && forall t :: t in byAccess ==> stamp <= t;
  }

  /** The first key of the expiry index. */
  method FirstExpiry(byExpiry: set<(nat, Text)>) returns (first: (nat, Text))
    requires byExpiry != {}
    ensures first in byExpiry && forall p :: p in byExpiry ==> ExpiresFirst(first, p)
  {
    ghost var earliest := Earliest(byExpiry);
    first :| first in byExpiry && forall p :: p in byExpiry ==> ExpiresFirst(first, p);
  }

  /** The victim is the entry with the least stamp. */
  method EvictOne(namespace: Namespace) returns (after: Namespace, evicted: Option<(Text, nat)>)
    requires namespace.Valid()
    ensures after.Valid() && after.policy == namespace.policy
    ensures evicted.None? ==> namespace.entries == map[] && after == namespace
    ensures evicted.Some? ==>
              && var (victim, released) := evicted.value;
              && victim in namespace.entries && after.entries == namespace.entries - {victim}
              && released == Charge(victim, namespace.entries[victim].value)
              && forall k :: k in namespace.entries ==> namespace.entries[victim].stamp <= namespace.entries[k].stamp
  {
    if namespace.byAccess == map[] {
      assert namespace.entries == map[] by { assert forall k :: k !in namespace.entries; }
      return namespace, None;
    }
    var stamp := FirstStamp(namespace.byAccess);
    var key := namespace.byAccess[stamp];
    var released;
    after, released := Remove(namespace, key);
    evicted := Some((key, released.value));
  }

  /** Clears expired entries, earliest deadline first, and stops at the bound
      of one operation. */
  method SweepExpired(namespace: Namespace, now: nat)
    returns (after: Namespace, removed: nat, released: nat, ghost gone: set<Text>)
    requires namespace.Valid()
    ensures after.Valid() && after.policy == namespace.policy
    ensures Swept(namespace.entries, gone, now) && after.entries == namespace.entries - gone
    ensures removed == |gone| && released + Bytes(after.entries) == Bytes(namespace.entries)
  {
    after, removed, released, gone := namespace, 0, 0, {};
    SweepStart(namespace.entries, now);
    while removed < MAX_SWEEP_PER_OPERATION
      invariant SweptTo(namespace, after, removed, released, gone, now)
    {
      var expired := FirstExpired(after, now);
      if expired.None? {
        break;
      }
      var first := expired.value;
      var rest, bytes := Remove(after, first.1);
      SweepStep(namespace, after, rest, removed, released, gone, now, first);
      after, released := rest, released + bytes.value;
      gone := gone + {first.1};
      removed := removed + 1;
    }
    SweepDone(namespace.entries, after.entries, gone, now);
  }

  /** Where a sweep stands after `removed` removals. */
  ghost predicate SweptTo(namespace: Namespace, after: Namespace, removed: nat, released: nat, gone: set<Text>,
                          now: nat) {
    && after.Valid() && after.policy == namespace.policy
    && removed == |gone| <= MAX_SWEEP_PER_OPERATION
    && Sweeping(namespace.entries, after.entries, gone, now)
    && released + Bytes(after.entries) == Bytes(namespace.entries)
  }

  lemma SweepStep(namespace: Namespace, before: Namespace, after: Namespace, removed: nat, released: nat,
                  gone: set<Text>, now: nat, first: (nat, Text))
    requires SweptTo(namespace, before, removed, released, gone, now) && removed < MAX_SWEEP_PER_OPERATION
    requires NextExpired(before.entries, first, now)
    requires after.Valid() && after.policy == before.policy && after.entries == before.entries - {first.1}
    ensures SweptTo(namespace, after, removed + 1, released + Charge(first.1, before.entries[first.1].value),
                    gone + {first.1}, now)
  {
    SweepOne(namespace.entries, before.entries, gone, now, first);
    BytesRemove(before.entries, first.1);
  }

  /** The entry a sweep takes next: the earliest deadline, if it has passed. */
  method FirstExpired(namespace: Namespace, now: nat) returns (expired: Option<(nat, Text)>)
    requires namespace.Valid()
    ensures expired.None? ==> forall l :: l in namespace.entries ==> now < namespace.entries[l].expiresAt
    ensures expired.Some? ==> NextExpired(namespace.entries, expired.value, now)
  {
    assert forall l :: l in namespace.entries ==> (namespace.entries[l].expiresAt, l) in namespace.byExpiry;
    if namespace.byExpiry == {} {
      return None;
    }
    var first := FirstExpiry(namespace.byExpiry);
    expired := if first.0 > now then None else Some(first);
  }

  ghost predicate NextExpired(entries: Entries, first: (nat, Text), now: nat) {
    && first.1 in entries && entries[first.1].expiresAt == first.0 <= now
    && forall l :: l in entries ==> ExpiresFirst(first, (entries[l].expiresAt, l))
  }

  /** Part of a sweep: what is gone was expired and came first. */
  ghost predicate Sweeping(original: Entries, entries: Entries, gone: set<Text>, now: nat) {
    && gone <= original.Keys && entries == original - gone
    && (forall k :: k in gone ==> original[k].expiresAt <= now)
    && (forall k, l :: k in gone && l in entries ==>
          ExpiresFirst((original[k].expiresAt, k), (entries[l].expiresAt, l)))
  }

  lemma SweepStart(original: Entries, now: nat)
    ensures Sweeping(original, original, {}, now)
  {
    assert original - {} == original;
  }

  lemma SweepOne(original: Entries, entries: Entries, gone: set<Text>, now: nat, first: (nat, Text))
    requires Sweeping(original, entries, gone, now) && NextExpired(entries, first, now)
    ensures Sweeping(original, entries - {first.1}, gone + {first.1}, now)
    ensures |gone + {first.1}| == |gone| + 1
  {
    assert original - (gone + {first.1}) == original - gone - {first.1};
  }

  lemma SweepDone(original: Entries, entries: Entries, gone: set<Text>, now: nat)
    requires Sweeping(original, entries, gone, now) && |gone| <= MAX_SWEEP_PER_OPERATION
    requires |gone| < MAX_SWEEP_PER_OPERATION ==> forall l :: l in entries ==> now < entries[l].expiresAt
    ensures Swept(original, gone, now)
  {
    assert forall l :: l in original && l !in gone ==> l in entries && entries[l] == original[l];
  }

  /** Moves one entry to the recent end of the recency index. */
  method Refresh(namespace: Namespace, key: Text, stamp: nat) returns (after: Namespace)
    requires namespace.Valid() && key in namespace.entries && stamp !in namespace.byAccess
    ensures after.Valid() && after.policy == namespace.policy
    ensures after.entries == namespace.entries[key := namespace.entries[key].(stamp := stamp)]
  {
    var existing := namespace.entries[key];
    BytesRemove(namespace.entries, key);
    BytesPut(namespace.entries, key, existing.(stamp := stamp));
    IndexedRestamped(namespace.entries, namespace.byAccess, namespace.byExpiry, key, stamp);
    after := namespace.(
      byAccess := (namespace.byAccess - {existing.stamp})[stamp := key],
      entries := namespace.entries[key := existing.(stamp := stamp)]);
  }

  /** Adds one entry to all three structures and charges its cost. */
  method Insert(namespace: Namespace, key: Text, entry: Entry) returns (after: Namespace)
    requires namespace.Valid() && key !in namespace.entries && entry.stamp !in namespace.byAccess
    requires namespace.bytes + Charge(key, entry.value) <= U64_MAX
    ensures after.Valid() && after.policy == namespace.policy
    ensures after.entries == namespace.entries[key := entry]
  {
    BytesPut(namespace.entries, key, entry);
    assert namespace.entries - {key} == namespace.entries;
    IndexedWith(namespace.entries, namespace.byAccess, namespace.byExpiry, key, entry);
    after := namespace.(
      entries := namespace.entries[key := entry],
      byAccess := namespace.byAccess[entry.stamp := key],
      byExpiry := namespace.byExpiry + {(entry.expiresAt, key)},
      bytes := SatAdd(namespace.bytes, Charge(key, entry.value)));
  }
}
