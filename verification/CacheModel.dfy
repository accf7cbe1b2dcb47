/** What the cache promises, over values: its contents, its invariant, and one
    relation per operation (`crates/krit-cache/src/store.rs`). */
module CacheModel {
  import opened Utf8
  import opened Wrappers
  import opened CacheConfig

  const MAX_SWEEP_PER_OPERATION := 8
  const U64_MAX := 0xFFFF_FFFF_FFFF_FFFF

  /** A `u64` statistics counter. */
  type Counter = n: int | 0 <= n <= U64_MAX

  function SatAdd(a: nat, b: nat): Counter {
    if a + b > U64_MAX then U64_MAX else a + b
  }

  function SatSub(a: nat, b: nat): nat {
    if a < b then 0 else a - b
  }

  datatype Entry = Entry(value: Text, expiresAt: nat, stamp: nat)
  type Entries = map<Text, Entry>
  type Slot = (Text, Text)

  function Charge(key: Text, value: Text): nat {
    SatAdd(SatAdd(|key|, |value|), ENTRY_OVERHEAD_BYTES)
  }

  // ----- Sums over finite maps

  ghost function Sum<K(!new)>(m: map<K, nat>): nat
    decreases |m|
  {
    if m == map[] then 0
    else var k :| k in m; m[k] + Sum(m - {k})
  }

  lemma {:induction false} SumRemove<K(!new)>(m: map<K, nat>, k: K)
    requires k in m
    ensures Sum(m) == m[k] + Sum(m - {k})
    decreases |m|
  {
    var j :| j in m && Sum(m) == m[j] + Sum(m - {j});
    if j != k {
      SumRemove(m - {j}, k);
      SumRemove(m - {k}, j);
      assert m - {j} - {k} == m - {k} - {j};
    }
  }

  lemma SumPut<K(!new)>(m: map<K, nat>, k: K, v: nat)
    ensures Sum(m[k := v]) == v + Sum(m - {k})
  {
    SumRemove(m[k := v], k);
    assert m[k := v] - {k} == m - {k};
  }

  ghost function Charges(entries: Entries): map<Text, nat> {
    map k | k in entries :: Charge(k, entries[k].value)
  }

  ghost function Bytes(entries: Entries): nat {
    Sum(Charges(entries))
  }

  lemma BytesRemove(entries: Entries, key: Text)
    requires key in entries
    ensures Bytes(entries) == Charge(key, entries[key].value) + Bytes(entries - {key})
    ensures |entries| == 1 + |entries - {key}|
  {
    SumRemove(Charges(entries), key);
    assert Charges(entries) - {key} == Charges(entries - {key});
    assert entries == (entries - {key})[key := entries[key]];
    assert entries.Keys == (entries - {key}).Keys + {key};
  }

  lemma BytesPut(entries: Entries, key: Text, entry: Entry)
    ensures Bytes(entries[key := entry]) == Charge(key, entry.value) + Bytes(entries - {key})
    ensures |entries[key := entry]| == 1 + |entries - {key}|
  {
    BytesRemove(entries[key := entry], key);
    assert entries[key := entry] - {key} == entries - {key};
  }

  type Contents = map<Text, Entries>

  ghost function Totals(contents: Contents, size: Entries -> nat): map<Text, nat> {
    map n | n in contents :: size(contents[n])
  }

  ghost function TotalBytes(contents: Contents): nat {
    Sum(Totals(contents, Bytes))
  }

  ghost function TotalCount(contents: Contents): nat {
    Sum(Totals(contents, Count))
  }

  ghost function Count(entries: Entries): nat {
    |entries|
  }

  lemma TotalPut(contents: Contents, name: Text, entries: Entries, size: Entries -> nat)
    requires name in contents
    ensures Sum(Totals(contents[name := entries], size)) + size(contents[name]) ==
            Sum(Totals(contents, size)) + size(entries)
  {
    SumRemove(Totals(contents, size), name);
    SumPut(Totals(contents, size), name, size(entries));
    assert Totals(contents[name := entries], size) == Totals(contents, size)[name := size(entries)];
  }

  /** Replacing one namespace moves the totals by exactly its difference. */
  lemma TotalsPut(contents: Contents, name: Text, entries: Entries)
    requires name in contents
    ensures TotalBytes(contents[name := entries]) + Bytes(contents[name]) == TotalBytes(contents) + Bytes(entries)
    ensures TotalCount(contents[name := entries]) + |contents[name]| == TotalCount(contents) + |entries|
  {
    TotalPut(contents, name, entries, Bytes);
    TotalPut(contents, name, entries, Count);
  }

  // ----- Expiry order

  /** Lexicographic order on keys, which is Rust's order on `String`. */
  predicate KeyLeq(a: Text, b: Text) {
    a == [] || (b != [] && (a[0] < b[0] || (a[0] == b[0] && KeyLeq(a[1..], b[1..]))))
  }

  lemma {:induction false} KeyLeqTotal(a: Text, b: Text)
    ensures KeyLeq(a, a)
    ensures KeyLeq(a, b) || KeyLeq(b, a)
    ensures KeyLeq(a, b) && KeyLeq(b, a) ==> a == b
    decreases |a|
  {
    if a != [] {
      KeyLeqTotal(a[1..], if b == [] then [] else b[1..]);
      if b != [] {
        assert a == [a[0]] + a[1..] && b == [b[0]] + b[1..];
      }
    }
  }

  lemma {:induction false} KeyLeqTransitive(a: Text, b: Text, c: Text)
    requires KeyLeq(a, b) && KeyLeq(b, c)
    ensures KeyLeq(a, c)
    decreases |a|
  {
    if a != [] && a[0] == b[0] && b[0] == c[0] {
      KeyLeqTransitive(a[1..], b[1..], c[1..]);
    }
  }

  /** The order of the expiry index: by deadline, then by key. */
  predicate ExpiresFirst(a: (nat, Text), b: (nat, Text)) {
    a.0 < b.0 || (a.0 == b.0 && KeyLeq(a.1, b.1))
  }

  lemma ExpiresFirstTransitive(a: (nat, Text), b: (nat, Text), c: (nat, Text))
    requires ExpiresFirst(a, b) && ExpiresFirst(b, c)
    ensures ExpiresFirst(a, c)
  {
    if a.0 == c.0 { KeyLeqTransitive(a.1, b.1, c.1); }
  }

  /** A non-empty expiry index has a first member. */
  lemma {:induction false} Earliest(index: set<(nat, Text)>) returns (first: (nat, Text))
    requires index != {}
    ensures first in index && forall b :: b in index ==> ExpiresFirst(first, b)
    decreases |index|
  {
    var x :| x in index;
    first := x;
    KeyLeqTotal(x.1, x.1);
    var rest := index - {x};
    if rest != {} {
      var a := Earliest(rest);
      KeyLeqTotal(a.1, x.1);
      if ExpiresFirst(a, x) {
        first := a;
      } else {
        forall b | b in rest ensures ExpiresFirst(x, b) { ExpiresFirstTransitive(x, a, b); }
      }
    }
    assert forall b :: b in index ==> b == x || b in rest;
  }

  lemma {:induction false} Least(stamps: set<nat>) returns (least: nat)
    requires stamps != {}
    ensures least in stamps && forall b :: b in stamps ==> least <= b
    decreases |stamps|
  {
    var x :| x in stamps;
    least := x;
    var rest := stamps - {x};
    if rest != {} {
      var a := Least(rest);
      if a < x { least := a; }
    }
    assert forall b :: b in stamps ==> b == x || b in rest;
  }

  // ----- States

  datatype CacheState = CacheState(
    policies: map<Text, NamespacePolicy>,
    maxTotalEntries: nat,
    maxTotalBytes: nat,
    contents: Contents,
    stamp: nat,
    hits: Counter, misses: Counter, expirations: Counter, evictions: Counter, puts: Counter, deletes: Counter)

  predicate PolicyOk(policy: NamespacePolicy, maxTotalEntries: nat, maxTotalBytes: nat) {
    && policy.Validate().None?
    && policy.maxEntries <= maxTotalEntries <= MAX_TOTAL_ENTRIES
    && policy.maxBytes <= maxTotalBytes <= MAX_TOTAL_BYTES
  }

  predicate Holds(contents: Contents, slot: Slot) {
    slot.0 in contents && slot.1 in contents[slot.0]
  }

  function At(contents: Contents, slot: Slot): Entry
    requires Holds(contents, slot)
  {
    contents[slot.0][slot.1]
  }

  predicate SameStamp(contents: Contents, a: Slot, b: Slot)
    requires Holds(contents, a) && Holds(contents, b)
  {
    At(contents, a).stamp == At(contents, b).stamp
  }

  /** No two entries anywhere share a stamp. */
  ghost predicate UniqueStamps(contents: Contents) {
    forall a, b {:trigger SameStamp(contents, a, b)} ::
      Holds(contents, a) && Holds(contents, b) && SameStamp(contents, a, b) ==> a == b
  }

  ghost predicate StampsUpTo(contents: Contents, stamp: nat) {
    forall n, k :: n in contents && k in contents[n] ==> contents[n][k].stamp <= stamp
  }

  ghost predicate Within(entries: Entries, policy: NamespacePolicy) {
    |entries| <= policy.maxEntries && Bytes(entries) <= policy.maxBytes
  }

  ghost predicate WithinBudget(policies: map<Text, NamespacePolicy>, contents: Contents) {
    policies.Keys == contents.Keys && forall n :: n in contents ==> Within(contents[n], policies[n])
  }

  /** What every reachable state keeps. */
  ghost predicate Inv(s: CacheState) {
    && (forall n :: n in s.policies ==> PolicyOk(s.policies[n], s.maxTotalEntries, s.maxTotalBytes))
    && WithinBudget(s.policies, s.contents)
    && TotalCount(s.contents) <= s.maxTotalEntries
    && TotalBytes(s.contents) <= s.maxTotalBytes
    && UniqueStamps(s.contents)
    && StampsUpTo(s.contents, s.stamp)
  }

  // ----- Operations

  /** A `char` for which `char::is_control` holds, in UTF-8. */
  predicate ControlAt(key: Text, i: int) {
    && 0 <= i < |key|
    && (key[i] < 0x20 || key[i] == 0x7F || (key[i] == 0xC2 && i + 1 < |key| && 0x80 <= key[i + 1] < 0xA0))
  }

  function ValidateKey(key: Text, maxKeyBytes: nat): Option<CacheError> {
    if key == [] then Some(EmptyKey)
    else if |key| > maxKeyBytes then Some(KeyTooLong)
    else if exists i :: 0 <= i < |key| && ControlAt(key, i) then Some(ControlInKey)
    else None
  }

  function GetRefusal(s: CacheState, name: Text, key: Text): Option<CacheError> {
    if name !in s.policies then Some(NotConfigured) else ValidateKey(key, s.policies[name].maxKeyBytes)
  }

  /** `get`: an entry past its deadline is removed, a live one is refreshed. */
  predicate GetStep(s: CacheState, s': CacheState, name: Text, key: Text, now: nat,
                    reply: Result<Option<Text>, CacheError>)
  {
    var t := s.(stamp := s.stamp + 1);
    if GetRefusal(s, name, key).Some? then
      reply == Err(GetRefusal(s, name, key).value) && s' == t
    else if name !in s.contents || key !in s.contents[name] then
      reply == Ok(None) && s' == t.(misses := SatAdd(s.misses, 1))
    else
      var entries := s.contents[name];
      if entries[key].expiresAt <= now then
        && reply == Ok(None)
        && s' == t.(contents := s.contents[name := entries - {key}],
                    expirations := SatAdd(s.expirations, 1), misses := SatAdd(s.misses, 1))
      else
        && reply == Ok(Some(entries[key].value))
        && s' == t.(contents := s.contents[name := entries[key := entries[key].(stamp := t.stamp)]],
                    hits := SatAdd(s.hits, 1))
  }

  function DeleteRefusal(s: CacheState, name: Text, key: Text): Option<CacheError> {
    if name !in s.policies then Some(NotConfigured)
    else if s.policies[name].mode == ReadOnly then Some(ReadOnlyNamespace)
    else ValidateKey(key, s.policies[name].maxKeyBytes)
  }

  predicate DeleteStep(s: CacheState, s': CacheState, name: Text, key: Text, reply: Result<(), CacheError>) {
    if DeleteRefusal(s, name, key).Some? then
      reply == Err(DeleteRefusal(s, name, key).value) && s' == s
    else
      && reply == Ok(())
      && name in s.contents
      && s' == s.(contents := s.contents[name := s.contents[name] - {key}], deletes := SatAdd(s.deletes, 1))
  }

  datatype Writer = Guest | Host

  /** The first check a write fails, before anything is changed. */
  function WriteRefusal(s: CacheState, name: Text, key: Text, value: Text, ttl: int, now: nat, writer: Writer)
    : Option<CacheError>
  {
    if name !in s.policies then Some(NotConfigured)
    else
      var policy := s.policies[name];
      if policy.mode == ReadOnly && writer == Guest then Some(ReadOnlyNamespace)
      else if ValidateKey(key, policy.maxKeyBytes).Some? then ValidateKey(key, policy.maxKeyBytes)
      else if |value| > policy.maxValueBytes then Some(ValueTooLong)
      else if ttl < MIN_TTL_SECONDS || ttl > policy.maxTtlSeconds then Some(TtlOutOfBounds)
      else if now + ttl * 1000 > U64_MAX then Some(DeadlineOverflow)
      else None
  }

  /** `gone` is what a sweep takes: expired entries only, earliest first, at
      most eight, and all of them when fewer. */
  ghost predicate Swept(entries: Entries, gone: set<Text>, now: nat) {
    && gone <= entries.Keys && |gone| <= MAX_SWEEP_PER_OPERATION
    && (forall k :: k in gone ==> entries[k].expiresAt <= now)
    && (forall k, l :: k in gone && l in entries && l !in gone ==>
          ExpiresFirst((entries[k].expiresAt, k), (entries[l].expiresAt, l)))
    && (|gone| < MAX_SWEEP_PER_OPERATION ==>
          forall l :: l in entries && l !in gone ==> now < entries[l].expiresAt)
  }

  ghost predicate NamespaceFits(entries: Entries, policy: NamespacePolicy, charge: nat) {
    |entries| < policy.maxEntries && Bytes(entries) + charge <= policy.maxBytes
  }

  ghost predicate CacheFits(contents: Contents, maxTotalEntries: nat, maxTotalBytes: nat, charge: nat) {
    TotalCount(contents) < maxTotalEntries && TotalBytes(contents) + charge <= maxTotalBytes
  }

  /** Every victim is older than every survivor of the namespace. */
  predicate OldestOf(entries: Entries, victims: set<Text>) {
    && victims <= entries.Keys
    && forall k, l :: k in victims && l in entries && l !in victims ==> entries[k].stamp < entries[l].stamp
  }

  /** `last` is the most recent victim, and keeping it would not have fitted. */
  ghost predicate LocalLast(entries: Entries, victims: set<Text>, last: Text, policy: NamespacePolicy, charge: nat)
    requires victims <= entries.Keys
  {
    && last in victims
    && (forall k :: k in victims ==> entries[k].stamp <= entries[last].stamp)
    && !NamespaceFits(entries - (victims - {last}), policy, charge)
  }

  /** `victims` are the least recently used entries of one namespace, and no
      more of them than the new entry needs. */
  ghost predicate LocalVictims(entries: Entries, victims: set<Text>, policy: NamespacePolicy, charge: nat) {
    && OldestOf(entries, victims)
    && (victims != {} ==> exists last :: LocalLast(entries, victims, last, policy, charge))
  }

  /** Every entry but the victims, in every namespace. */
  function Without(contents: Contents, victims: set<Slot>): Contents {
    map n | n in contents :: map k | k in contents[n] && (n, k) !in victims :: contents[n][k]
  }

  /** No entry anywhere has an older stamp. */
  predicate NoneOlder(contents: Contents, stamp: nat) {
    forall n, k :: n in contents && k in contents[n] ==> stamp <= contents[n][k].stamp
  }

  /** Every victim is older than every survivor anywhere. */
  predicate OldestAnywhere(contents: Contents, victims: set<Slot>) {
    && (forall v :: v in victims ==> Holds(contents, v))
    && forall v, n, k :: v in victims && n in contents && k in contents[n] && (n, k) !in victims ==>
         At(contents, v).stamp < contents[n][k].stamp
  }

  ghost predicate GlobalLast(contents: Contents, victims: set<Slot>, last: Slot,
                             maxTotalEntries: nat, maxTotalBytes: nat, charge: nat)
    requires forall v :: v in victims ==> Holds(contents, v)
  {
    && last in victims
    && (forall v :: v in victims ==> At(contents, v).stamp <= At(contents, last).stamp)
    && !CacheFits(Without(contents, victims - {last}), maxTotalEntries, maxTotalBytes, charge)
  }

  /** The same for the whole cache: least recently used anywhere. */
  ghost predicate GlobalVictims(contents: Contents, victims: set<Slot>,
                                maxTotalEntries: nat, maxTotalBytes: nat, charge: nat)
  {
    && OldestAnywhere(contents, victims)
    && (victims != {} ==>
          exists last :: GlobalLast(contents, victims, last, maxTotalEntries, maxTotalBytes, charge))
  }

  /** What one accepted write removes. */
  datatype Removed = Removed(expired: set<Text>, local: set<Text>, global: set<Slot>)

  /** The destination after the sweep and after releasing the replaced entry. */
  function Cleared(s: CacheState, name: Text, key: Text, expired: set<Text>): Entries
    requires name in s.contents
  {
    s.contents[name] - expired - {key}
  }

  /** The contents after all removals, before the new entry goes in. */
  function Room(s: CacheState, name: Text, key: Text, removed: Removed): Contents
    requires name in s.contents
  {
    Without(s.contents[name := Cleared(s, name, key, removed.expired) - removed.local], removed.global)
  }

  /** An accepted write: what it removes and why, that the entry then fits, and
      the state it leaves. */
  ghost predicate WriteEffect(s: CacheState, s': CacheState, name: Text, key: Text, value: Text, ttl: int, now: nat,
                              removed: Removed)
  {
    && name in s.contents && name in s.policies && ttl >= 0
    && var policy := s.policies[name];
    && var charge := Charge(key, value);
    && var cleared := Cleared(s, name, key, removed.expired);
    && var after := s.contents[name := cleared - removed.local];
    && var room := Room(s, name, key, removed);
    && Swept(s.contents[name], removed.expired, now)
    && LocalVictims(cleared, removed.local, policy, charge)
    && NamespaceFits(cleared - removed.local, policy, charge)
    && GlobalVictims(after, removed.global, s.maxTotalEntries, s.maxTotalBytes, charge)
    && CacheFits(room, s.maxTotalEntries, s.maxTotalBytes, charge)
    && s' == s.(
               contents := room[name := room[name][key := Entry(value, now + ttl * 1000, s.stamp + 1)]],
               stamp := s.stamp + 1,
               expirations := SatAdd(s.expirations, |removed.expired|),
               evictions := SatAdd(s.evictions, |removed.local| + |removed.global|),
               puts := SatAdd(s.puts, 1))
  }

  ghost predicate WriteStep(s: CacheState, s': CacheState, name: Text, key: Text, value: Text, ttl: int, now: nat,
                            writer: Writer, reply: Result<(), CacheError>)
  {
    if WriteRefusal(s, name, key, value, ttl, now, writer).Some? then
      && reply == Err(WriteRefusal(s, name, key, value, ttl, now, writer).value)
      && s' == s.(stamp := s.stamp + 1)
    else
      && reply == Ok(())
      && exists removed :: WriteEffect(s, s', name, key, value, ttl, now, removed)
  }
}
