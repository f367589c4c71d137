/**
 * LocalMemory (src/infrastructure/memory/local_memory.py): three scoped
 * key -> (value, expiry) tables whose entries live 24 hours, with expired
 * entries purged before every operation, a case-insensitive text search, and
 * a bounded log of failure patterns.
 *
 * Every operation reads the clock once; that reading is the `now` parameter.
 */
module Memory {
  import opened Wrappers
  import opened Dicts
  import opened Text
  import opened Values
  import opened Types

  /** Above this many failure patterns the log is cut back. */
  const MaxFailurePatterns: nat := 1000
  /** How many of the newest patterns survive a cut. */
  const KeptFailurePatterns: nat := 500

  /** A stored value and the instant it stops being valid. */
  datatype Entry = Entry(value: Value, expiresAt: Time)

  /** The table of one scope. */
  type Table = Dict<string, Entry>

  // ---------------------------------------------------------------------
  // Expiry
  // ---------------------------------------------------------------------

  /** An entry is still valid strictly before its expiry instant. */
  predicate Unexpired(e: Entry, now: Time) {
    now < e.expiresAt
  }

  /** The table with every entry expired at `now` dropped; the rest keep their order. */
  function Live(t: Table, now: Time): (r: Table)
    ensures forall e :: e in r <==> e in t && Unexpired(e.1, now)
    ensures forall k :: k in Keys(r) ==> k in Keys(t)
  {
    if t == [] then []
    else if Unexpired(t[0].1, now) then [t[0]] + Live(t[1..], now)
    else Live(t[1..], now)
  }

  /** Every entry left by the purge is unexpired. */
  lemma LiveUnexpired(t: Table, now: Time)
    ensures forall i :: 0 <= i < |Live(t, now)| ==> Unexpired(Live(t, now)[i].1, now)
  {
    var r := Live(t, now);
    forall i | 0 <= i < |r| ensures Unexpired(r[i].1, now) {
      assert r[i] in r;
    }
  }

  /** Purging keeps the keys distinct. */
  lemma {:induction false} LiveValid(t: Table, now: Time)
    requires Dicts.Valid(t)
    ensures Dicts.Valid(Live(t, now))
  {
    if t != [] {
      HeadNotInTail(t);
      LiveValid(t[1..], now);
      ValidCons(t[0], Live(t[1..], now));
    }
  }

  /** What a lookup yields once expired entries are gone. */
  function Alive(found: Option<Entry>, now: Time): Option<Entry> {
    match found
    case Some(e) => if Unexpired(e, now) then found else None
    case None => None
  }

  /** Looking a key up in the live table: the entry if it has not expired, nothing otherwise. */
  lemma {:induction false} GetLive(t: Table, now: Time, k: string)
    requires Dicts.Valid(t)
    ensures Get(Live(t, now), k) == Alive(Get(t, k), now)
  {
    if t != [] {
      HeadNotInTail(t);
      GetLive(t[1..], now, k);
      if t[0].0 == k {
        assert k !in Keys(Live(t[1..], now));
      }
    }
  }

  /** Purging twice at the same instant purges nothing more. */
  lemma {:induction false} LiveIdempotent(t: Table, now: Time)
    ensures Live(Live(t, now), now) == Live(t, now)
  {
    if t != [] {
      LiveIdempotent(t[1..], now);
    }
  }

  /** Purging at an earlier and then at a later instant is purging at the later one. */
  lemma {:induction false} LiveLater(t: Table, now: Time, later: Time)
    requires now <= later
    ensures Live(Live(t, now), later) == Live(t, later)
  {
    if t != [] {
      LiveLater(t[1..], now, later);
    }
  }

  /** The keys of the entries expired at `now`, in table order (the first loop of the cleanup). */
  function ExpiredKeys(t: Table, now: Time): (ks: seq<string>)
    ensures forall i :: 0 <= i < |t| && !Unexpired(t[i].1, now) ==> t[i].0 in ks
    ensures forall k :: k in ks ==> exists i :: 0 <= i < |t| && t[i].0 == k && !Unexpired(t[i].1, now)
  {
    if t == [] then []
    else
      var last := t[|t| - 1];
      ExpiredKeys(t[..|t| - 1], now) + (if Unexpired(last.1, now) then [] else [last.0])
  }

  /** The entries whose keys are not in `ks`, in order. */
  function WithoutKeys(t: Table, ks: seq<string>): Table
  {
    if t == [] then []
    else if t[0].0 in ks then WithoutKeys(t[1..], ks)
    else [t[0]] + WithoutKeys(t[1..], ks)
  }

  /** One more step of the collecting loop. */
  lemma ExpiredKeysPrefix(t: Table, i: nat, now: Time)
    requires i < |t|
    ensures ExpiredKeys(t[..i + 1], now) ==
      ExpiredKeys(t[..i], now) + (if Unexpired(t[i].1, now) then [] else [t[i].0])
  {
    assert t[..i + 1][..i] == t[..i];
  }

  /** Dropping no keys drops nothing. */
  lemma {:induction false} WithoutNoKeys(t: Table)
    ensures WithoutKeys(t, []) == t
  {
    if t != [] {
      WithoutNoKeys(t[1..]);
    }
  }

  /** Deleting one more key is dropping one more key from the filter (the second loop of the cleanup). */
  lemma {:induction false} RemoveWithoutKeys(t: Table, ks: seq<string>, k: string)
    ensures Remove(WithoutKeys(t, ks), k) == WithoutKeys(t, ks + [k])
  {
    if t != [] {
      RemoveWithoutKeys(t[1..], ks, k);
    }
  }

  /** The same, for the next key of a list being deleted one by one. */
  lemma RemoveNextKey(t: Table, ks: seq<string>, j: nat)
    requires j < |ks|
    ensures Remove(WithoutKeys(t, ks[..j]), ks[j]) == WithoutKeys(t, ks[..j + 1])
  {
    RemoveWithoutKeys(t, ks[..j], ks[j]);
    assert ks[..j + 1] == ks[..j] + [ks[j]];
  }

  /** Dropping exactly the keys of expired entries leaves the live table. */
  lemma {:induction false} WithoutExpiredIsLive(t: Table, ks: seq<string>, now: Time)
    requires forall i :: 0 <= i < |t| ==> (t[i].0 in ks <==> !Unexpired(t[i].1, now))
    ensures WithoutKeys(t, ks) == Live(t, now)
  {
    if t != [] {
      assert t[0].0 in ks <==> !Unexpired(t[0].1, now);
      WithoutExpiredIsLive(t[1..], ks, now);
    }
  }

  /** In a valid table a key is among the expired keys exactly when its own entry has expired. */
  lemma ExpiredKeysExact(t: Table, now: Time)
    requires Dicts.Valid(t)
    ensures forall i :: 0 <= i < |t| ==> (t[i].0 in ExpiredKeys(t, now) <==> !Unexpired(t[i].1, now))
  {
    forall i | 0 <= i < |t| && t[i].0 in ExpiredKeys(t, now) ensures !Unexpired(t[i].1, now) {
      var j :| 0 <= j < |t| && t[j].0 == t[i].0 && !Unexpired(t[j].1, now);
      assert i == j;
    }
  }

  // ---------------------------------------------------------------------
  // Store and retrieve
  // ---------------------------------------------------------------------

  /** The table after `store`: the entry set to live 24 hours from `now`, then the purge. */
  function Stored(t: Table, key: string, value: Value, now: Time): Table {
    Live(Put(t, key, Entry(value, now + Day)), now)
  }

  /** What `retrieve` returns from table `t` at `now`: the value while it has not expired. */
  function Visible(t: Table, key: string, now: Time): Option<Value> {
    match Alive(Get(t, key), now)
    case Some(e) => Some(e.value)
    case None => None
  }

  /** A stored value is retrieved at any instant before its 24 hours are up, and not after. */
  lemma StoreThenRetrieve(t: Table, key: string, value: Value, now: Time, later: Time)
    requires Dicts.Valid(t)
    ensures Visible(Stored(t, key, value, now), key, later) == if later < now + Day then Some(value) else None
  {
    PutValid(t, key, Entry(value, now + Day));
    GetLive(Put(t, key, Entry(value, now + Day)), now, key);
  }

  /** Storing a key leaves every other key as the purge leaves it. */
  lemma StoreKeepsOthers(t: Table, key: string, value: Value, now: Time, other: string)
    requires Dicts.Valid(t) && other != key
    ensures Get(Stored(t, key, value, now), other) == Alive(Get(t, other), now)
  {
    PutValid(t, key, Entry(value, now + Day));
    GetLive(Put(t, key, Entry(value, now + Day)), now, other);
    GetLive(t, now, other);
  }

  /** After the purge, a key is retrievable exactly when it is still in the table. */
  lemma VisibleAfterPurge(t: Table, key: string, now: Time)
    requires Dicts.Valid(t)
    ensures Visible(t, key, now).Some? <==> key in Keys(Live(t, now))
    ensures Visible(t, key, now) == Visible(Live(t, now), key, now)
  {
    GetLive(t, now, key);
  }

  // ---------------------------------------------------------------------
  // Search
  // ---------------------------------------------------------------------

  /** The search test: the lower-cased query occurs in the lower-cased key or in the lower-cased `str(value)`. */
  predicate IsMatch(query: string, key: string, value: Value) {
    Contains(Lower(query), Lower(key)) || Contains(Lower(query), Lower(Str(value)))
  }

  /** The values of the matching entries, in table order. */
  function Matching(t: Table, query: string): (r: seq<Value>)
    ensures |r| <= |t|
  {
    if t == [] then []
    else
      var last := t[|t| - 1];
      Matching(t[..|t| - 1], query) + (if IsMatch(query, last.0, last.1.value) then [last.1.value] else [])
  }

  /** One more step of the search loop: the prefix grows by one entry. */
  lemma MatchingPrefix(t: Table, i: nat, query: string)
    requires i < |t|
    ensures Matching(t[..i + 1], query) ==
      Matching(t[..i], query) + (if IsMatch(query, t[i].0, t[i].1.value) then [t[i].1.value] else [])
  {
    assert t[..i + 1][..i] == t[..i];
  }

  /** A value is among the search results exactly when some entry holding it matches. */
  lemma {:induction false} MatchingExact(t: Table, query: string)
    ensures forall v :: v in Matching(t, query) <==>
      exists i :: 0 <= i < |t| && t[i].1.value == v && IsMatch(query, t[i].0, v)
  {
    if t != [] {
      var init := t[..|t| - 1];
      var n := |t| - 1;
      MatchingExact(init, query);
      assert forall i :: 0 <= i < n ==> init[i] == t[i];
      var tail := if IsMatch(query, t[n].0, t[n].1.value) then [t[n].1.value] else [];
      assert Matching(t, query) == Matching(init, query) + tail;
      forall v ensures v in Matching(t, query) <==>
        exists i :: 0 <= i < |t| && t[i].1.value == v && IsMatch(query, t[i].0, v)
      {
        if i :| 0 <= i < |t| && t[i].1.value == v && IsMatch(query, t[i].0, v) {
          if i < n {
            assert init[i].1.value == v && IsMatch(query, init[i].0, v);
          }
        }
      }
    }
  }

  /** The positions of the matching entries, in table order. */
  function MatchIndices(t: Table, query: string): seq<nat>
  {
    if t == [] then []
    else
      var n := |t| - 1;
      MatchIndices(t[..n], query) + (if IsMatch(query, t[n].0, t[n].1.value) then [n] else [])
  }

  /** The matching positions are in range, strictly increasing, and exactly the positions whose entry matches. */
  lemma {:induction false} MatchIndicesExact(t: Table, query: string)
    ensures forall k :: 0 <= k < |MatchIndices(t, query)| ==> MatchIndices(t, query)[k] < |t|
    ensures forall k, l :: 0 <= k < l < |MatchIndices(t, query)| ==> MatchIndices(t, query)[k] < MatchIndices(t, query)[l]
    ensures forall i :: 0 <= i < |t| ==> (i in MatchIndices(t, query) <==> IsMatch(query, t[i].0, t[i].1.value))
  {
    if t != [] {
      var n := |t| - 1;
      var init := t[..n];
      MatchIndicesExact(init, query);
      var ix0 := MatchIndices(init, query);
      var tail: seq<nat> := if IsMatch(query, t[n].0, t[n].1.value) then [n] else [];
      assert MatchIndices(t, query) == ix0 + tail;
      assert n !in ix0;
      forall i | 0 <= i < n ensures i in ix0 + tail <==> IsMatch(query, t[i].0, t[i].1.value) {
        assert init[i] == t[i];
      }
    }
  }

  /**
   * The search results are one value per matching entry, in table order: as
   * many as there are matching positions, each the value at the next one.
   */
  lemma {:induction false} MatchingByIndex(t: Table, query: string)
    ensures |Matching(t, query)| == |MatchIndices(t, query)|
    ensures forall k :: 0 <= k < |MatchIndices(t, query)| ==>
      MatchIndices(t, query)[k] < |t| && Matching(t, query)[k] == t[MatchIndices(t, query)[k]].1.value
  {
    MatchIndicesExact(t, query);
    if t != [] {
      var n := |t| - 1;
      var init := t[..n];
      MatchingByIndex(init, query);
      var ix0, r0 := MatchIndices(init, query), Matching(init, query);
      if IsMatch(query, t[n].0, t[n].1.value) {
        assert MatchIndices(t, query) == ix0 + [n];
        assert Matching(t, query) == r0 + [t[n].1.value];
      } else {
        assert MatchIndices(t, query) == ix0;
        assert Matching(t, query) == r0;
      }
      forall k | 0 <= k < |ix0| ensures init[ix0[k]] == t[ix0[k]] {
      }
    }
  }

  /**
   * A dict value whose field `fields[j]` holds a string containing the query,
   * ignoring case, is matched whatever its key: e.g. `{"title": "User Registration"}`
   * is found by the query "user".
   */
  lemma SearchFindsStringField(query: string, key: string, fields: Fields, j: nat)
    requires j < |fields| && fields[j].1.VStr?
    requires Contains(Lower(query), Lower(fields[j].1.s))
    ensures IsMatch(query, key, VDict(fields))
  {
    var s := fields[j].1.s;
    var text := Str(VDict(fields));
    assert fields[j].1 == VStr(s);
    ReprContainsString(s);
    FieldTextContainsValue(fields[j]);
    ContainsTransitive(s, Repr(fields[j].1), FieldText(fields[j]));
    DictReprContainsField(fields, j);
    ContainsTransitive(s, FieldText(fields[j]), Repr(VDict(fields)));
    ContainsLower(s, text);
    ContainsTransitive(Lower(query), Lower(s), Lower(text));
  }

  // ---------------------------------------------------------------------
  // Failure patterns
  // ---------------------------------------------------------------------

  /** `{**pattern, "timestamp": stamp}`: the pattern with its timestamp field set. */
  function Stamped(pattern: Fields, stamp: string): (r: Fields)
    ensures Get(r, "timestamp") == Some(VStr(stamp))
    ensures forall k :: k != "timestamp" ==> Get(r, k) == Get(pattern, k)
    ensures Keys(r) == if "timestamp" in Keys(pattern) then Keys(pattern) else Keys(pattern) + ["timestamp"]
  {
    Put(pattern, "timestamp", VStr(stamp))
  }

  /** The cut applied after each append: above the maximum, keep only the newest patterns. */
  function Truncate(patterns: seq<Fields>): seq<Fields> {
    if |patterns| > MaxFailurePatterns then patterns[|patterns| - KeptFailurePatterns..] else patterns
  }

  /** Appending to a log within bounds and cutting keeps it within bounds, as a suffix ending with the new pattern. */
  lemma {:induction false} TruncateAppend(patterns: seq<Fields>, p: Fields)
    requires |patterns| <= MaxFailurePatterns
    ensures var r := Truncate(patterns + [p]);
      && 1 <= |r| <= MaxFailurePatterns
      && r == (patterns + [p])[|patterns| + 1 - |r|..]
      && r[|r| - 1] == p
      && (|patterns| == MaxFailurePatterns ==> |r| == KeptFailurePatterns)
      && (|patterns| < MaxFailurePatterns ==> r == patterns + [p])
  {
  }

  // ---------------------------------------------------------------------
  // The component
  // ---------------------------------------------------------------------

  /** Assigning a scope twice keeps only the second assignment. */
  lemma UpdateTwice(m: map<MemoryScope, Table>, s: MemoryScope, a: Table, b: Table)
    ensures m[s := a][s := b] == m[s := b]
  {
  }

  class LocalMemory {
    /** `_memory_store`: one table per scope. */
    var memoryStore: map<MemoryScope, Table>
    /** `_failure_patterns`. */
    var failurePatterns: seq<Fields>

    ghost predicate Valid()
      reads this
    {
      && Ephemeral in memoryStore && Session in memoryStore && Global in memoryStore
      && (forall s :: s in memoryStore ==> Dicts.Valid(memoryStore[s]))
      && |failurePatterns| <= MaxFailurePatterns
    }

    constructor ()
      ensures Valid()
      ensures memoryStore == map[Ephemeral := [], Session := [], Global := []]
      ensures failurePatterns == []
    {
      memoryStore := map[Ephemeral := [], Session := [], Global := []];
      failurePatterns := [];
    }

    /** `_cleanup_expired(scope)`: drop every entry of `scope` with `now >= expiry`. */
    method CleanupExpired(scope: MemoryScope, now: Time)
      requires Valid()
      modifies this
      ensures Valid()
      ensures memoryStore == old(memoryStore)[scope := Live(old(memoryStore)[scope], now)]
      ensures failurePatterns == old(failurePatterns)
    {
      var table := memoryStore[scope];
      var expiredKeys: seq<string> := [];
      for i := 0 to |table|
        invariant expiredKeys == ExpiredKeys(table[..i], now)
        invariant unchanged(this)
      {
        ExpiredKeysPrefix(table, i, now);
        if now >= table[i].1.expiresAt {
          expiredKeys := expiredKeys + [table[i].0];
        }
      }
      assert table[..|table|] == table;
      WithoutNoKeys(table);
      for j := 0 to |expiredKeys|
        invariant memoryStore == old(memoryStore)[scope := WithoutKeys(table, expiredKeys[..j])]
        invariant failurePatterns == old(failurePatterns)
      {
        RemoveNextKey(table, expiredKeys, j);
        UpdateTwice(old(memoryStore), scope, WithoutKeys(table, expiredKeys[..j]), WithoutKeys(table, expiredKeys[..j + 1]));
        memoryStore := memoryStore[scope := Remove(memoryStore[scope], expiredKeys[j])];
      }
      assert expiredKeys[..|expiredKeys|] == expiredKeys;
      LiveValid(table, now);
      ExpiredKeysExact(table, now);
      WithoutExpiredIsLive(table, expiredKeys, now);
    }

    /** `store(key, value, scope)`: set the entry to expire 24 hours from now, then purge. */
    method Store(key: string, value: Value, scope: MemoryScope, now: Time)
      requires Valid()
      modifies this
      ensures Valid()
      ensures memoryStore == old(memoryStore)[scope := Stored(old(memoryStore)[scope], key, value, now)]
      ensures Get(memoryStore[scope], key) == Some(Entry(value, now + Day))
      ensures forall s :: s in old(memoryStore) && s != scope ==> memoryStore[s] == old(memoryStore)[s]
      ensures failurePatterns == old(failurePatterns)
    {
      ghost var before := memoryStore;
      var updated := Put(memoryStore[scope], key, Entry(value, now + Day));
      PutValid(memoryStore[scope], key, Entry(value, now + Day));
      memoryStore := memoryStore[scope := updated];
      CleanupExpired(scope, now);
      UpdateTwice(before, scope, updated, Live(updated, now));
      assert memoryStore == before[scope := Live(updated, now)];
      forall s | s in before && s != scope ensures memoryStore[s] == before[s] {
      }
      GetLive(updated, now, key);
    }

    /** `retrieve(key, scope)`: purge, then the value if the key is present and unexpired, else nothing. */
    method Retrieve(key: string, scope: MemoryScope, now: Time) returns (r: Option<Value>)
      requires Valid()
      modifies this
      ensures Valid()
      ensures memoryStore == old(memoryStore)[scope := Live(old(memoryStore)[scope], now)]
      ensures failurePatterns == old(failurePatterns)
      ensures r == Visible(old(memoryStore)[scope], key, now)
      ensures r.None? ==> key !in Keys(memoryStore[scope])
    {
      CleanupExpired(scope, now);
      GetLive(old(memoryStore)[scope], now, key);
      var found := Get(memoryStore[scope], key);
      if found.Some? {
        var e := found.value;
        if now < e.expiresAt {
          return Some(e.value);
        }
        // The purge above ran at this same instant, so no expired entry is left to delete here.
        assert false;
      }
      return None;
    }

    /** `search(query, scope)`: purge, then the values whose key or text contains the query, ignoring case. */
    method Search(query: string, scope: MemoryScope, now: Time) returns (results: seq<Value>)
      requires Valid()
      modifies this
      ensures Valid()
      ensures memoryStore == old(memoryStore)[scope := Live(old(memoryStore)[scope], now)]
      ensures failurePatterns == old(failurePatterns)
      ensures results == Matching(Live(old(memoryStore)[scope], now), query)
    {
      CleanupExpired(scope, now);
      var table := memoryStore[scope];
      results := [];
      LiveUnexpired(old(memoryStore)[scope], now);
      label Purged:
      for i := 0 to |table|
        invariant results == Matching(table[..i], query)
        invariant unchanged@Purged(this)
      {
        MatchingPrefix(table, i, query);
        var storedKey, entry := table[i].0, table[i].1;
        if now >= entry.expiresAt {
          // Already purged at this same instant.
          assert false;
        }
        if IsMatch(query, storedKey, entry.value) {
          results := results + [entry.value];
        }
      }
      assert table[..|table|] == table;
    }

    /** `record_failure_pattern(pattern)`: append the stamped pattern; above 1000 keep the newest 500. */
    method RecordFailurePattern(pattern: Fields, stamp: string)
      requires Valid()
      modifies this
      ensures Valid()
      ensures failurePatterns == Truncate(old(failurePatterns) + [Stamped(pattern, stamp)])
      ensures failurePatterns[|failurePatterns| - 1] == Stamped(pattern, stamp)
      ensures memoryStore == old(memoryStore)
    {
      TruncateAppend(failurePatterns, Stamped(pattern, stamp));
      failurePatterns := failurePatterns + [Stamped(pattern, stamp)];
      if |failurePatterns| > MaxFailurePatterns {
        failurePatterns := failurePatterns[|failurePatterns| - KeptFailurePatterns..];
      }
    }
  }
}
