/** The read-through list cache and the counters kept in Redis
    (`RedisHelper`). The store is split into its list keys and its counter
    keys; a list is kept as the sequence of cached objects, serialisation
    being taken to round-trip. */
module RedisHelper {
  import opened Wrappers
  import opened Sequences
  import opened Strings

  /* ------------------------------------------------------------ the lists */

  /** The list keys of the store. `key in lists` is `EXISTS key`. */
  type Lists<V> = map<string, seq<V>>

  /** Redis removes a list with its last element, so no stored list is empty. */
  predicate WellFormed<V>(lists: Lists<V>) {
    forall k :: k in lists ==> lists[k] != []
  }

  /** Every cached list within the length limit. */
  predicate Bounded<V>(lists: Lists<V>, limit: nat) {
    forall k :: k in lists ==> 1 <= |lists[k]| <= limit
  }

  /** A loader (`lazy_load_objects`) that honours the limit it is given. */
  predicate LoaderBounded<V>(loader: nat -> seq<V>, limit: nat) {
    |loader(limit)| <= limit
  }

  /** `RPUSH key v1 .. vn`: append, creating the list when absent. */
  function RPush<V>(lists: Lists<V>, key: string, values: seq<V>): Lists<V> {
    lists[key := (if key in lists then lists[key] else []) + values]
  }

  /** The range `LTRIM` keeps, with Redis's index rules: negative indices
      count from the end, `start` is clamped at 0, `stop` at the last index,
      and an empty range empties the list. */
  function LTrimRange<V>(s: seq<V>, start: int, stop: int): seq<V> {
    var n := |s|;
    var lo := if start < 0 then start + n else start;
    var hi := if stop < 0 then stop + n else stop;
    var lo' := if lo < 0 then 0 else lo;
    if lo' > hi || lo' >= n then []
    else s[lo'..(if hi >= n then n - 1 else hi) + 1]
  }

  /** `LTRIM key start stop` on a stored list; an emptied list disappears. */
  function LTrim<V>(lists: Lists<V>, key: string, start: int, stop: int): Lists<V>
    requires key in lists
  {
    var kept := LTrimRange(lists[key], start, stop);
    if kept == [] then lists - {key} else lists[key := kept]
  }

  /** `LTRIM 0 limit-1` keeps the first `limit` elements when `limit >= 1`. */
  lemma LTrimIsTake<V>(s: seq<V>, limit: nat)
    requires limit >= 1
    ensures LTrimRange(s, 0, limit - 1) == Take(s, limit)
  {
  }

  /** With a limit of 0 the stop index is -1, the last element, and the
      trim keeps the whole list. */
  lemma LTrimZeroLimitKeepsAll<V>(s: seq<V>)
    ensures LTrimRange(s, 0, 0 - 1) == s
  {
  }

  /** `_load_objects_to_cache`: push the loaded objects, only when there
      are any. */
  function LoadToCache<V>(lists: Lists<V>, key: string, objects: seq<V>): (r: Lists<V>)
    ensures objects == [] ==> r == lists
    ensures objects != [] ==> key in r && |r[key]| >= |objects|
    ensures key !in lists && objects != [] ==> r[key] == objects
    ensures key in lists && objects != [] ==> r[key] == lists[key] + objects
    ensures forall k :: k != key ==> (k in r <==> k in lists)
    ensures forall k :: k != key && k in lists ==> r[k] == lists[k]
  {
    if objects != [] then RPush(lists, key, objects) else lists
  }

  /** What `load_objects` returns, and the list keys afterwards. */
  datatype Loaded<V> = Loaded(objects: seq<V>, lists: Lists<V>)

  /** `load_objects`: the cached list on a hit; otherwise the loader's
      objects, cached when there are any. */
  function LoadObjects<V>(lists: Lists<V>, key: string, loader: nat -> seq<V>, limit: nat): (r: Loaded<V>)
    ensures key in r.lists ==> r.lists[key] == r.objects
    ensures key !in r.lists ==> r.objects == [] && r.lists == lists
    ensures forall k :: k != key ==> (k in r.lists <==> k in lists)
    ensures forall k :: k != key && k in lists ==> r.lists[k] == lists[k]
    ensures key in lists ==> r.lists == lists && r.objects == lists[key]
    ensures key !in lists ==> r.objects == loader(limit)
    ensures WellFormed(lists) ==> WellFormed(r.lists)
  {
    if key in lists then Loaded(lists[key], lists)
    else
      var objects := loader(limit);
      Loaded(objects, LoadToCache(lists, key, objects))
  }

  /** Once a load has cached the key, a second load returns what the first
      returned and changes nothing, whatever loader it is given. */
  lemma LoadTwice<V>(lists: Lists<V>, key: string, first: nat -> seq<V>, second: nat -> seq<V>, limit: nat)
    requires key in lists || first(limit) != []
    ensures var r := LoadObjects(lists, key, first, limit);
      LoadObjects(r.lists, key, second, limit) == r
  {
  }

  /** An empty loader result leaves the key uncached, so the next load asks
      the loader again. */
  lemma LoadEmptyStaysCold<V>(lists: Lists<V>, key: string, loader: nat -> seq<V>, limit: nat)
    requires key !in lists && loader(limit) == []
    ensures LoadObjects(lists, key, loader, limit) == Loaded([], lists)
  {
  }

  /** Loading keeps every list within the limit when the loader does. */
  lemma LoadBounded<V>(lists: Lists<V>, key: string, loader: nat -> seq<V>, limit: nat)
    requires Bounded(lists, limit) && LoaderBounded(loader, limit)
    ensures Bounded(LoadObjects(lists, key, loader, limit).lists, limit)
  {
  }

  /** `push_object`: on a cached key prepend and trim to the limit;
      otherwise fill the key from the loader, ignoring `obj` (the loader
      reads the database, which already holds it). */
  function PushObject<V>(lists: Lists<V>, key: string, obj: V, loader: nat -> seq<V>, limit: nat): (r: Lists<V>)
    ensures key in lists && limit >= 1 ==> key in r && r[key] == Take([obj] + lists[key], limit)
    ensures key !in lists ==> r == LoadObjects(lists, key, loader, limit).lists
    ensures forall k :: k != key ==> (k in r <==> k in lists)
    ensures forall k :: k != key && k in lists ==> r[k] == lists[k]
  {
    if key in lists then
      var pushed := lists[key := [obj] + lists[key]];
      LTrimIsTakeOnPush(lists[key], obj, limit);
      LTrim(pushed, key, 0, limit - 1)
    else LoadToCache(lists, key, loader(limit))
  }

  /** The trim after a push never empties the list. */
  lemma LTrimIsTakeOnPush<V>(s: seq<V>, obj: V, limit: nat)
    ensures LTrimRange([obj] + s, 0, limit - 1) != []
    ensures limit >= 1 ==> LTrimRange([obj] + s, 0, limit - 1) == Take([obj] + s, limit)
  {
    if limit >= 1 {
      LTrimIsTake([obj] + s, limit);
    }
  }

  /** Pushing keeps every list within the limit. */
  lemma PushBounded<V>(lists: Lists<V>, key: string, obj: V, loader: nat -> seq<V>, limit: nat)
    requires limit >= 1
    requires Bounded(lists, limit) && LoaderBounded(loader, limit)
    ensures Bounded(PushObject(lists, key, obj, loader, limit), limit)
  {
    if key !in lists {
      LoadBounded(lists, key, loader, limit);
    }
  }

  /** A cold push does not depend on the object pushed. */
  lemma ColdPushIgnoresObject<V>(lists: Lists<V>, key: string, a: V, b: V, loader: nat -> seq<V>, limit: nat)
    requires key !in lists
    ensures PushObject(lists, key, a, loader, limit) == PushObject(lists, key, b, loader, limit)
  {
  }

  /** Pushing objects one by one onto a cached key. */
  function PushAll<V>(lists: Lists<V>, key: string, objs: seq<V>, loader: nat -> seq<V>, limit: nat): Lists<V>
    decreases |objs|
  {
    if objs == [] then lists
    else PushAll(PushObject(lists, key, objs[0], loader, limit), key, objs[1..], loader, limit)
  }

  /** Trimming to the limit before prepending changes nothing. */
  lemma TakeOfTake<V>(x: V, s: seq<V>, limit: nat)
    requires limit >= 1
    ensures Take([x] + Take(s, limit), limit) == Take([x] + s, limit)
  {
    assert ([x] + Take(s, limit))[..Min(limit, |s| + 1)] == ([x] + s)[..Min(limit, |s| + 1)];
  }

  /** After pushes onto a cached key, the list holds the newest `limit`
      objects, newest first: the pushes reversed, then the old list. */
  lemma {:induction false} PushAllNewestFirst<V>(lists: Lists<V>, key: string, objs: seq<V>, loader: nat -> seq<V>, limit: nat)
    requires limit >= 1 && key in lists && |lists[key]| <= limit
    ensures var r := PushAll(lists, key, objs, loader, limit);
      key in r && r[key] == Take(Reverse(objs) + lists[key], limit)
    ensures var r := PushAll(lists, key, objs, loader, limit);
      key in r && |r[key]| <= limit && (|objs| >= limit ==> |r[key]| == limit)
    decreases |objs|
  {
    if objs != [] {
      var next := PushObject(lists, key, objs[0], loader, limit);
      PushAllNewestFirst(next, key, objs[1..], loader, limit);
      var rest := Reverse(objs[1..]);
      assert Reverse(objs) == rest + [objs[0]];
      TakeOfTake(objs[0], lists[key], limit);
      TakeAfterPrefix(rest, objs[0], lists[key], limit);
    }
  }

  /** `Take(r + Take([x] + s, L), L) == Take(r + [x] + s, L)`. */
  lemma TakeAfterPrefix<V>(r: seq<V>, x: V, s: seq<V>, limit: nat)
    ensures Take(r + Take([x] + s, limit), limit) == Take(r + [x] + s, limit)
  {
    var m := Min(limit, |r| + 1 + |s|);
    assert (r + Take([x] + s, limit))[..m] == (r + [x] + s)[..m];
  }

  /* --------------------------------------------------------- the counters */

  /** `get_count_key`: `"<class name>.<attr>:<id>"`. */
  function CountKey(className: string, attr: string, id: int): (key: string)
    ensures |key| > |className| + |attr| + 2
    ensures key[..|className|] == className && key[|className|] == '.'
    ensures key[|className| + 1..|className| + 1 + |attr|] == attr && key[|className| + 1 + |attr|] == ':'
  {
    className + "." + attr + ":" + IntToString(id)
  }

  /** Reading a counter key back into its class name, attribute and id. */
  function ParseCountKey(key: string): Option<(string, string, int)> {
    var dot := Find(key, '.');
    if dot < 0 then None
    else
      var rest := key[dot + 1..];
      var colon := Find(rest, ':');
      if colon < 0 then None
      else
        var id :- ParseInt(rest[colon + 1..]);
        Some((key[..dot], rest[..colon], id))
  }

  /** A counter key names its class, attribute and object: class names
      carry no '.', attribute names no ':'. */
  lemma CountKeyRoundTrip(className: string, attr: string, id: int)
    requires '.' !in className && ':' !in attr
    ensures ParseCountKey(CountKey(className, attr, id)) == Some((className, attr, id))
  {
    var digits := IntToString(id);
    var rest := attr + ":" + digits;
    var key := CountKey(className, attr, id);
    assert key == className + ['.'] + rest;
    FindAfterFreePrefix(className, '.', rest);
    assert key[|className| + 1..] == rest;
    assert key[..|className|] == className;
    FindAfterFreePrefix(attr, ':', digits);
    assert rest[|attr| + 1..] == digits;
    assert rest[..|attr|] == attr;
    ParseIntToString(id);
  }

  /** Two counters share a key only if they count the same attribute of the
      same object. */
  lemma CountKeyInjective(c1: string, a1: string, i1: int, c2: string, a2: string, i2: int)
    requires '.' !in c1 && ':' !in a1 && '.' !in c2 && ':' !in a2
    ensures CountKey(c1, a1, i1) == CountKey(c2, a2, i2) <==> (c1, a1, i1) == (c2, a2, i2)
  {
    CountKeyRoundTrip(c1, a1, i1);
    CountKeyRoundTrip(c2, a2, i2);
  }

  /** A counter value returned to the caller, and the counter keys afterwards. */
  datatype Counted = Counted(value: int, counts: map<string, int>)

  /** `incr_count` and `decr_count`: on a miss store the object's current
      value and return it (the database row already carries the change);
      on a hit `INCR`/`DECR` and return the new value. */
  function StepCount(counts: map<string, int>, key: string, current: int, delta: int): (r: Counted)
    ensures key in r.counts && r.counts[key] == r.value
    ensures r.counts.Keys == counts.Keys + {key}
    ensures forall k :: k in counts && k != key ==> r.counts[k] == counts[k]
    ensures key !in counts ==> r.value == current
    ensures key in counts ==> r.value - counts[key] == delta
  {
    if key !in counts then Counted(current, counts[key := current])
    else Counted(counts[key] + delta, counts[key := counts[key] + delta])
  }

  function IncrCount(counts: map<string, int>, key: string, current: int): (r: Counted)
    ensures key in counts ==> r.value == counts[key] + 1
    ensures key in r.counts && r.counts[key] == r.value
    ensures key !in counts ==> r.value == current
    ensures r.counts.Keys == counts.Keys + {key}
    ensures forall k :: k in counts && k != key ==> r.counts[k] == counts[k]
  {
    StepCount(counts, key, current, 1)
  }

  function DecrCount(counts: map<string, int>, key: string, current: int): (r: Counted)
    ensures key in counts ==> r.value == counts[key] - 1
    ensures key in r.counts && r.counts[key] == r.value
    ensures key !in counts ==> r.value == current
    ensures r.counts.Keys == counts.Keys + {key}
    ensures forall k :: k in counts && k != key ==> r.counts[k] == counts[k]
  {
    StepCount(counts, key, current, -1)
  }

  /** `get_count`: the stored value when there is one (any stored value is
      a non-empty string, so `if count:` holds even for "0"); otherwise the
      refreshed database value, which is then stored. */
  function GetCount(counts: map<string, int>, key: string, refreshed: int): (r: Counted)
    ensures key in r.counts && r.counts[key] == r.value
    ensures key in counts ==> r == Counted(counts[key], counts)
    ensures key !in counts ==> r.value == refreshed && r.counts == counts[key := refreshed]
  {
    if key in counts then Counted(counts[key], counts)
    else Counted(refreshed, counts[key := refreshed])
  }

  /** On a cached counter a decrement undoes an increment, and the other way round. */
  lemma IncrDecrInverse(counts: map<string, int>, key: string, current: int, current': int)
    requires key in counts
    ensures var up := IncrCount(counts, key, current);
      DecrCount(up.counts, key, current') == Counted(counts[key], counts)
    ensures var down := DecrCount(counts, key, current);
      IncrCount(down.counts, key, current') == Counted(counts[key], counts)
  {
    var up := IncrCount(counts, key, current);
    assert DecrCount(up.counts, key, current').counts == counts;
    var down := DecrCount(counts, key, current);
    assert IncrCount(down.counts, key, current').counts == counts;
  }

  /** A read after an update returns what the update returned, without
      touching the database. */
  lemma GetAfterStep(counts: map<string, int>, key: string, current: int, delta: int, refreshed: int)
    ensures var u := StepCount(counts, key, current, delta);
      GetCount(u.counts, key, refreshed) == u
  {
  }
}
