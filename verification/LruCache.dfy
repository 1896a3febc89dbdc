/**
 The response cache: an insertion-ordered map used as a least-recently-used cache whose
 entries also expire. `Lookup` and `Store` are its two operations on values, the class
 `LruCache` is the code, and `Run` records what a sequence of operations did to the cache
 next to the unbounded table of last writes.
 */
module LruCache {
  import opened Collections
  import opened Options

  type Key = string

  datatype Entry<+V> = Entry(value: V, expiresAt: nat)

  /** `order` lists the keys oldest first, as an insertion-ordered map iterates them. */
  datatype Cache<V> = Cache(order: seq<Key>, entries: map<Key, Entry<V>>)

  predicate Distinct(s: seq<Key>) {
    forall i, j | 0 <= i < j < |s| :: s[i] != s[j]
  }

  ghost predicate Valid<V>(c: Cache<V>) {
    && Distinct(c.order)
    && (forall k :: k in c.order <==> k in c.entries)
  }

  function Without(s: seq<Key>, key: Key): (r: seq<Key>)
    ensures forall k :: k in r <==> k in s && k != key
    ensures |r| <= |s|
  {
    if s == [] then []
    else if s[0] == key then Without(s[1..], key)
    else [s[0]] + Without(s[1..], key)
  }

  lemma {:induction false} WithoutDistinct(s: seq<Key>, key: Key)
    requires Distinct(s)
    ensures |Without(s, key)| == |s| - if key in s then 1 else 0
    ensures Distinct(Without(s, key))
  {
    if s != [] {
      var rest := Without(s[1..], key);
      assert Distinct(s[1..]);
      WithoutDistinct(s[1..], key);
      if s[0] == key {
        assert key !in s[1..];
      } else {
        assert Without(s, key) == [s[0]] + rest;
        forall j | 0 <= j < |rest|
          ensures s[0] != rest[j]
        {
          assert rest[j] in s[1..];
        }
      }
    }
  }

  /** `Map.delete` */
  function Delete<V>(c: Cache<V>, key: Key): Cache<V> {
    Cache(Without(c.order, key), c.entries - {key})
  }

  /** `Map.set`: a new key goes last, a key already present keeps its place. */
  function Put<V>(c: Cache<V>, key: Key, entry: Entry<V>): Cache<V> {
    Cache(if key in c.entries then c.order else c.order + [key], c.entries[key := entry])
  }

  function Lookup<V>(c: Cache<V>, key: Key, now: nat): (Cache<V>, Option<V>) {
    if key !in c.entries then (c, None)
    else
      var e := c.entries[key];
      if now >= e.expiresAt then (Delete(c, key), None)
      else (Put(Delete(c, key), key, e), Some(e.value))
  }

  function MakeRoom<V>(c: Cache<V>, maxEntries: nat): Cache<V> {
    if |c.order| >= maxEntries && c.order != [] then Delete(c, c.order[0]) else c
  }

  function Store<V>(c: Cache<V>, key: Key, value: V, now: nat, maxEntries: nat, ttlMs: nat): Cache<V> {
    Put(MakeRoom(c, maxEntries), key, Entry(value, now + ttlMs))
  }

  class LruCache<V> {
    const maxEntries: nat
    const ttlMs: nat
    var order: seq<Key>
    var entries: map<Key, Entry<V>>

    ghost function Contents(): Cache<V>
      reads this
    {
      Cache(order, entries)
    }

    constructor (maxEntries: nat, ttlMs: nat)
      ensures this.maxEntries == maxEntries && this.ttlMs == ttlMs
      ensures Contents() == Cache([], map[]) && Valid(Contents())
    {
      this.maxEntries, this.ttlMs := maxEntries, ttlMs;
      order, entries := [], map[];
    }

    /** A hit moves the key to the young end; an expired entry is dropped. */
    method Get(key: Key, now: nat) returns (r: Option<V>)
      modifies this
      ensures old(Valid(Contents())) ==> Valid(Contents())
      ensures (Contents(), r) == Lookup(old(Contents()), key, now)
      ensures r.Some? <==> key in old(entries) && now < old(entries)[key].expiresAt
      ensures r.Some? ==> r.value == old(entries)[key].value
    {
      if Valid(Contents()) {
        LookupValid(Contents(), key, now);
      }
      if key !in entries {
        return None;
      }
      var e := entries[key];
      if now >= e.expiresAt {
        order, entries := Without(order, key), entries - {key};
        return None;
      }
      order, entries := Without(order, key), entries - {key};
      order, entries := order + [key], entries[key := e];
      r := Some(e.value);
    }

    method Set(key: Key, value: V, now: nat)
      modifies this
      ensures old(Valid(Contents())) ==> Valid(Contents())
      ensures Contents() == Store(old(Contents()), key, value, now, maxEntries, ttlMs)
    {
      if Valid(Contents()) {
        StoreValid(Contents(), key, value, now, maxEntries, ttlMs);
      }
      if |order| >= maxEntries {
        if |order| != 0 {
          var oldest := order[0];
          order, entries := Without(order, oldest), entries - {oldest};
        }
      }
      if key !in entries {
        order := order + [key];
      }
      entries := entries[key := Entry(value, now + ttlMs)];
    }
  }

  lemma DeleteValid<V>(c: Cache<V>, key: Key)
    requires Valid(c)
    ensures Valid(Delete(c, key))
  {
    WithoutDistinct(c.order, key);
  }

  lemma PutValid<V>(c: Cache<V>, key: Key, entry: Entry<V>)
    requires Valid(c)
    ensures Valid(Put(c, key, entry))
  {
    var c' := Put(c, key, entry);
    forall k
      ensures k in c'.order <==> k in c'.entries
    {
      assert k in c.order <==> k in c.entries;
    }
  }

  lemma LookupValid<V>(c: Cache<V>, key: Key, now: nat)
    requires Valid(c)
    ensures Valid(Lookup(c, key, now).0)
  {
    DeleteValid(c, key);
    if key in c.entries {
      PutValid(Delete(c, key), key, c.entries[key]);
    }
  }

  lemma StoreValid<V>(c: Cache<V>, key: Key, value: V, now: nat, maxEntries: nat, ttlMs: nat)
    requires Valid(c)
    ensures Valid(Store(c, key, value, now, maxEntries, ttlMs))
  {
    if c.order != [] {
      DeleteValid(c, c.order[0]);
    }
    PutValid(MakeRoom(c, maxEntries), key, Entry(value, now + ttlMs));
  }

  // ---------------------------------------------------------------------------
  // Whole runs
  // ---------------------------------------------------------------------------

  datatype Op<V> = Get(key: Key, now: nat) | Set(key: Key, value: V, now: nat)

  /** `written` is the unbounded table of last writes. `touched` lists, oldest first, each key
      that was hit or was inserted while absent; `expired` holds the keys dropped by a lookup
      since they were last touched. */
  datatype History<V> = History(
    cache: Cache<V>, written: map<Key, Entry<V>>, touched: seq<Key>, expired: set<Key>)

  function Do<V>(h: History<V>, op: Op<V>, maxEntries: nat, ttlMs: nat): History<V> {
    match op
    case Get(key, now) =>
      var (c, r) := Lookup(h.cache, key, now);
      if r.Some? then h.(cache := c, touched := h.touched + [key], expired := h.expired - {key})
      else if key in h.cache.entries then h.(cache := c, expired := h.expired + {key})
      else h.(cache := c)
    case Set(key, value, now) =>
      var c := Store(h.cache, key, value, now, maxEntries, ttlMs);
      var h' := h.(cache := c, written := h.written[key := Entry(value, now + ttlMs)]);
      if key in MakeRoom(h.cache, maxEntries).entries then h'
      else h'.(touched := h.touched + [key], expired := h.expired - {key})
  }

  function Run<V>(ops: seq<Op<V>>, maxEntries: nat, ttlMs: nat): History<V> {
    if ops == [] then History(Cache([], map[]), map[], [], {})
    else Do(Run(ops[..|ops| - 1], maxEntries, ttlMs), ops[|ops| - 1], maxEntries, ttlMs)
  }

  /** The keys touched after the last touch of `key`. */
  function TouchedSince(touched: seq<Key>, key: Key): set<Key> {
    if touched == [] || touched[|touched| - 1] == key then {}
    else TouchedSince(touched[..|touched| - 1], key) + {touched[|touched| - 1]}
  }

  lemma TouchedSinceAppend(touched: seq<Key>, next: Key, key: Key)
    ensures TouchedSince(touched + [next], key) == if next == key then {} else TouchedSince(touched, key) + {next}
  {
    assert (touched + [next])[..|touched|] == touched;
  }

  function Elements(s: seq<Key>): set<Key> {
    set k | k in s
  }

  /** Keys stand in the order of their last touches: whatever is younger in the map was touched
      since. */
  ghost predicate OrderedByTouch<V>(h: History<V>) {
    forall i, j | 0 <= i < j < |h.cache.order| :: h.cache.order[j] in TouchedSince(h.touched, h.cache.order[i])
  }

  /** Where a touched key is: still cached, dropped as expired, or pushed out by enough others. */
  ghost predicate Accounted<V>(h: History<V>, key: Key, maxEntries: nat) {
    key in h.cache.entries || key in h.expired || |TouchedSince(h.touched, key)| + 1 >= maxEntries
  }

  ghost predicate Sound<V>(h: History<V>, maxEntries: nat) {
    && Valid(h.cache)
    && |h.cache.order| <= (if maxEntries == 0 then 1 else maxEntries)
    && (forall k | k in h.cache.entries ::
          k in h.written && h.cache.entries[k] == h.written[k] && k in h.touched)
    && OrderedByTouch(h)
    && (forall k | k in h.touched :: Accounted(h, k, maxEntries))
  }

  lemma {:induction false} WithoutKeepsOrder(s: seq<Key>, key: Key, i: nat, j: nat)
    requires i < j < |Without(s, key)|
    ensures exists i', j' :: 0 <= i' < j' < |s| && s[i'] == Without(s, key)[i] && s[j'] == Without(s, key)[j]
  {
    var r := Without(s, key);
    if s[0] == key {
      WithoutKeepsOrder(s[1..], key, i, j);
      var i', j' :| 0 <= i' < j' < |s[1..]| && s[1..][i'] == r[i] && s[1..][j'] == r[j];
      assert s[i' + 1] == r[i] && s[j' + 1] == r[j];
    } else if i == 0 {
      assert r[j] in Without(s[1..], key);
      var j' :| 0 <= j' < |s[1..]| && s[1..][j'] == r[j];
      assert s[0] == r[i] && s[j' + 1] == r[j];
    } else {
      WithoutKeepsOrder(s[1..], key, i - 1, j - 1);
      var i', j' :| 0 <= i' < j' < |s[1..]| && s[1..][i'] == r[i] && s[1..][j'] == r[j];
      assert s[i' + 1] == r[i] && s[j' + 1] == r[j];
    }
  }

  lemma DeleteKeepsOrder<V>(h: History<V>, key: Key)
    requires OrderedByTouch(h)
    ensures OrderedByTouch(h.(cache := Delete(h.cache, key)))
  {
    var r := Without(h.cache.order, key);
    forall i, j | 0 <= i < j < |r|
      ensures r[j] in TouchedSince(h.touched, r[i])
    {
      WithoutKeepsOrder(h.cache.order, key, i, j);
    }
  }

  /** Appending an absent key at the young end is a touch of that key. */
  lemma AppendKeepsOrder<V>(h: History<V>, key: Key, entry: Entry<V>)
    requires OrderedByTouch(h) && Valid(h.cache) && key !in h.cache.entries
    ensures OrderedByTouch(h.(cache := Put(h.cache, key, entry), touched := h.touched + [key]))
  {
    var order := h.cache.order + [key];
    forall i, j | 0 <= i < j < |order|
      ensures order[j] in TouchedSince(h.touched + [key], order[i])
    {
      assert order[i] in h.cache.order;
      TouchedSinceAppend(h.touched, key, order[i]);
    }
  }

  lemma {:induction false} ElementsSize(s: seq<Key>)
    requires Distinct(s)
    ensures |Elements(s)| == |s|
  {
    if s != [] {
      ElementsSize(s[1..]);
      assert Elements(s) == {s[0]} + Elements(s[1..]);
    }
  }

  /** Everything younger than the oldest key has been touched since the oldest key was. */
  lemma OldestWaitedForAll<V>(h: History<V>)
    requires Valid(h.cache) && OrderedByTouch(h) && h.cache.order != []
    ensures forall i | 0 < i < |h.cache.order| :: h.cache.order[i] in TouchedSince(h.touched, h.cache.order[0])
    ensures |TouchedSince(h.touched, h.cache.order[0])| >= |h.cache.order| - 1
  {
    var rest := h.cache.order[1..];
    ElementsSize(rest);
    forall k | k in Elements(rest)
      ensures k in TouchedSince(h.touched, h.cache.order[0])
    {
      var j :| 0 <= j < |rest| && rest[j] == k;
      assert h.cache.order[j + 1] == k;
    }
    SubsetSize(Elements(rest), TouchedSince(h.touched, h.cache.order[0]));
  }

  lemma AccountedTouch<V>(h: History<V>, h': History<V>, key: Key, next: Key, maxEntries: nat)
    requires key in h.touched && Accounted(h, key, maxEntries)
    requires h'.touched == h.touched + [next]
    requires next in h'.cache.entries
    requires key != next ==> key in h.cache.entries ==> key in h'.cache.entries || |TouchedSince(h.touched, key)| + 1 >= maxEntries
    requires key != next ==> key in h.expired ==> key in h'.expired
    ensures Accounted(h', key, maxEntries)
  {
    TouchedSinceAppend(h.touched, next, key);
    if key != next {
      SubsetSize(TouchedSince(h.touched, key), TouchedSince(h'.touched, key));
    }
  }

  lemma AllAccounted<V>(h: History<V>, h': History<V>, next: Key, maxEntries: nat)
    requires forall k | k in h.touched :: Accounted(h, k, maxEntries)
    requires h'.touched == h.touched + [next] && next in h'.cache.entries
    requires h.cache.entries.Keys <= h'.cache.entries.Keys && forall k | k in h.expired :: k in h'.expired || k == next
    ensures forall k | k in h'.touched :: Accounted(h', k, maxEntries)
  {
    forall k | k in h'.touched
      ensures Accounted(h', k, maxEntries)
    {
      if k in h.touched {
        AccountedTouch(h, h', k, next, maxEntries);
      }
    }
  }

  lemma SoundGet<V>(h: History<V>, key: Key, now: nat, maxEntries: nat, ttlMs: nat)
    requires Sound(h, maxEntries)
    ensures Sound(Do(h, Op<V>.Get(key, now), maxEntries, ttlMs), maxEntries)
  {
    var h' := Do(h, Op<V>.Get(key, now), maxEntries, ttlMs);
    LookupValid(h.cache, key, now);
    if key in h.cache.entries {
      WithoutDistinct(h.cache.order, key);
      DeleteValid(h.cache, key);
      DeleteKeepsOrder(h, key);
      var e := h.cache.entries[key];
      if now < e.expiresAt {
        AppendKeepsOrder(h.(cache := Delete(h.cache, key)), key, e);
        AllAccounted(h, h', key, maxEntries);
      }
    }
  }

  lemma SoundRoom<V>(h: History<V>, maxEntries: nat)
    requires Sound(h, maxEntries)
    ensures Sound(h.(cache := MakeRoom(h.cache, maxEntries)), maxEntries)
    ensures var order := MakeRoom(h.cache, maxEntries).order;
            |order| < maxEntries || order == []
  {
    if |h.cache.order| >= maxEntries && h.cache.order != [] {
      var oldest := h.cache.order[0];
      WithoutDistinct(h.cache.order, oldest);
      DeleteValid(h.cache, oldest);
      DeleteKeepsOrder(h, oldest);
      OldestWaitedForAll(h);
    }
  }

  lemma SoundSet<V>(h: History<V>, key: Key, value: V, now: nat, maxEntries: nat, ttlMs: nat)
    requires Sound(h, maxEntries)
    ensures Sound(Do(h, Set(key, value, now), maxEntries, ttlMs), maxEntries)
  {
    var h' := Do(h, Set(key, value, now), maxEntries, ttlMs);
    var roomy := h.(cache := MakeRoom(h.cache, maxEntries));
    SoundRoom(h, maxEntries);
    PutValid(roomy.cache, key, Entry(value, now + ttlMs));
    if key !in roomy.cache.entries {
      AppendKeepsOrder(roomy, key, Entry(value, now + ttlMs));
      AllAccounted(roomy, h', key, maxEntries);
    }
  }

  /**
   Main result: after any operations the cache is part of the table of last writes, holds at
   most `maxEntries` entries (one, should that be zero), and has lost a touched key only to
   expiry or after at least `maxEntries - 1` different other keys were touched since.
   */
  lemma {:induction false} CacheSound<V>(ops: seq<Op<V>>, maxEntries: nat, ttlMs: nat)
    ensures Sound(Run(ops, maxEntries, ttlMs), maxEntries)
  {
    if ops != [] {
      CacheSound(ops[..|ops| - 1], maxEntries, ttlMs);
      var h := Run(ops[..|ops| - 1], maxEntries, ttlMs);
      match ops[|ops| - 1]
      case Get(key, now) => SoundGet(h, key, now, maxEntries, ttlMs);
      case Set(key, value, now) => SoundSet(h, key, value, now, maxEntries, ttlMs);
    }
  }

  /** What a hit after any operations returns: the last value written for that very key, before
      the end of that write's own lifetime. */
  lemma {:induction false} HitIsLastWrite<V>(ops: seq<Op<V>>, key: Key, now: nat, maxEntries: nat, ttlMs: nat)
    ensures var h := Run(ops, maxEntries, ttlMs);
            var r := Lookup(h.cache, key, now).1;
            r.Some? ==> key in h.written && r.value == h.written[key].value && now < h.written[key].expiresAt
  {
    CacheSound(ops, maxEntries, ttlMs);
  }

  /** A key that is still live and has fewer than `maxEntries - 1` other keys touched since its
      own last touch is always a hit. */
  lemma {:induction false} RecentKeyIsHit<V>(ops: seq<Op<V>>, key: Key, now: nat, maxEntries: nat, ttlMs: nat)
    requires var h := Run(ops, maxEntries, ttlMs);
             && key in h.touched && key !in h.expired && |TouchedSince(h.touched, key)| + 1 < maxEntries
             && (key in h.written ==> now < h.written[key].expiresAt)
    ensures var h := Run(ops, maxEntries, ttlMs);
            key in h.written && Lookup(h.cache, key, now).1 == Some(h.written[key].value)
  {
    CacheSound(ops, maxEntries, ttlMs);
  }
}
