/** The redirect side of the server (src/routes/redirect.ts): the bounded LRU
    cache of `{longUrl, expiresAt}` entries and the `GET /:code` resolution. */
module Redirect {
  import opened Wrappers
  import opened Validate
  import opened UrlService

  /** What the cache keeps for a code; `expiresAt` is a timestamp in ms, or null. */
  datatype CacheEntry = CacheEntry(longUrl: string, expiresAt: Option<int>)

  /** The value of an `LRUCache`: its capacity `max`, the keys of its `Map` in
      insertion (= recency) order, front first, and the key-to-entry mapping. */
  datatype LruState = LruState(max: nat, order: seq<string>, entries: map<string, CacheEntry>)

  /** No key occurs twice. */
  predicate Distinct(s: seq<string>) {
    |s| <= 1 || (s[0] !in s[1..] && Distinct(s[1..]))
  }

  /** `order` lists each key of `entries` exactly once. */
  ghost predicate WellFormed(c: LruState) {
    Distinct(c.order) && forall k :: k in c.order <==> k in c.entries
  }

  /** The cache invariant: well formed and holding at most `max` entries. */
  ghost predicate CacheInv(c: LruState) {
    WellFormed(c) && |c.entries| <= c.max
  }

  /** `s` with `k` taken out, everything else in its original order. */
  function Without(s: seq<string>, k: string): (r: seq<string>)
    ensures |r| <= |s|
  {
    if s == [] then []
    else if s[0] == k then Without(s[1..], k)
    else [s[0]] + Without(s[1..], k)
  }

  lemma {:induction false} AppendDistinct(s: seq<string>, k: string)
    requires Distinct(s) && k !in s
    ensures Distinct(s + [k])
  {
    if s != [] {
      AppendDistinct(s[1..], k);
      assert (s + [k])[1..] == s[1..] + [k];
    }
  }

  /** A duplicate-free sequence splits into duplicate-free, disjoint parts. */
  lemma {:induction false} DistinctSplit(a: seq<string>, b: seq<string>)
    requires Distinct(a + b)
    ensures Distinct(a) && Distinct(b)
    ensures forall x | x in a :: x !in b
  {
    if a == [] {
      assert a + b == b;
    } else {
      assert (a + b)[1..] == a[1..] + b;
      DistinctSplit(a[1..], b);
      assert a[0] in a + b;
    }
  }

  /** Exactly `k` is taken out: every other element stays, and without `k` nothing changes. */
  lemma {:induction false} WithoutMembers(s: seq<string>, k: string)
    ensures forall x :: x in Without(s, k) <==> x in s && x != k
    ensures k !in s ==> Without(s, k) == s
  {
    if s != [] {
      WithoutMembers(s[1..], k);
      assert s == [s[0]] + s[1..];
    }
  }

  /** Taking a key out of a duplicate-free order keeps it duplicate-free and one shorter. */
  lemma {:induction false} WithoutDistinct(s: seq<string>, k: string)
    requires Distinct(s)
    ensures Distinct(Without(s, k))
    ensures k in s ==> |Without(s, k)| == |s| - 1
  {
    if s != [] {
      WithoutDistinct(s[1..], k);
      WithoutMembers(s[1..], k);
      if s[0] != k {
        var r := Without(s[1..], k);
        assert ([s[0]] + r)[1..] == r;
      }
    }
  }

  lemma {:induction false} DistinctCard(s: seq<string>)
    requires Distinct(s)
    ensures |set x | x in s| == |s|
  {
    if s != [] {
      DistinctCard(s[1..]);
      assert (set x | x in s) == (set x | x in s[1..]) + {s[0]};
    }
  }

  /** The number of entries (`map.size`) is the length of the recency order. */
  lemma SizeIsOrderLength(c: LruState)
    requires WellFormed(c)
    ensures |c.entries| == |c.order|
  {
    DistinctCard(c.order);
    assert c.entries.Keys == set x | x in c.order;
  }

  /** `get(key)`: a miss changes nothing; a hit deletes and re-inserts the key with
      the same value, which leaves the mapping as it was and moves the key to the
      most-recent end of the order. */
  function LruGet(c: LruState, key: string): (LruState, Option<CacheEntry>) {
    if key !in c.entries then (c, None)
    else (LruState(c.max, Without(c.order, key) + [key], c.entries), Some(c.entries[key]))
  }

  /** `set(key, val)`: `Map.set` overwrites a present key in place and appends a
      new one; if the size then exceeds `max`, the front key is deleted. */
  function LruSet(c: LruState, key: string, val: CacheEntry): LruState
    requires WellFormed(c)
  {
    var order := if key in c.entries then c.order else c.order + [key];
    var entries := c.entries[key := val];
    if |entries| > c.max then
      assert |order| > 0 by { assert key in entries; }
      LruState(c.max, order[1..], entries - {order[0]})
    else
      LruState(c.max, order, entries)
  }

  /** `delete(key)`. */
  function LruDelete(c: LruState, key: string): LruState {
    LruState(c.max, Without(c.order, key), c.entries - {key})
  }

  /** A miss returns nothing and leaves map and order as they were. */
  lemma GetMiss(c: LruState, key: string)
    requires key !in c.entries
    ensures LruGet(c, key) == (c, None)
  {
  }

  /** A hit returns the stored entry, keeps the same entries, and moves the key to
      the most-recent end with the other keys in their previous order. */
  lemma GetHit(c: LruState, key: string)
    requires CacheInv(c) && key in c.entries
    ensures LruGet(c, key).1 == Some(c.entries[key])
    ensures LruGet(c, key).0.entries == c.entries
    ensures LruGet(c, key).0.order == Without(c.order, key) + [key]
    ensures CacheInv(LruGet(c, key).0)
  {
    var w := Without(c.order, key);
    WithoutMembers(c.order, key);
    WithoutDistinct(c.order, key);
    AppendDistinct(w, key);
  }

  /** Setting a present key overwrites its entry where it stands: the order is
      unchanged and nothing is evicted. */
  lemma SetExisting(c: LruState, key: string, val: CacheEntry)
    requires CacheInv(c) && key in c.entries
    ensures LruSet(c, key, val) == LruState(c.max, c.order, c.entries[key := val])
    ensures CacheInv(LruSet(c, key, val))
  {
    assert c.entries[key := val].Keys == c.entries.Keys;
  }

  /** Setting a new key appends it at the most-recent end; if that overflows the
      capacity, exactly the front key of the appended order is evicted. The size
      stays within `max`, and with `max >= 1` the new key survives. */
  lemma SetNew(c: LruState, key: string, val: CacheEntry)
    requires CacheInv(c) && key !in c.entries
    ensures var c' := LruSet(c, key, val);
      var appended := c.order + [key];
      && CacheInv(c')
      && (|appended| <= c.max ==> c'.order == appended && c'.entries == c.entries[key := val])
      && (|appended| > c.max ==> c'.order == appended[1..] && c'.entries == c.entries[key := val] - {appended[0]})
      && (c.max >= 1 ==> key in c'.entries && c'.entries[key] == val && c'.order[|c'.order| - 1] == key)
  {
    var appended := c.order + [key];
    var m := c.entries[key := val];
    AppendDistinct(c.order, key);
    assert WellFormed(LruState(c.max, appended, m));
    SizeIsOrderLength(c);
    SizeIsOrderLength(LruState(c.max, appended, m));
    if |m| > c.max {
      DropFront(appended);
      var c' := LruState(c.max, appended[1..], m - {appended[0]});
      assert WellFormed(c');
      SizeIsOrderLength(c');
      if c.max >= 1 {
        assert appended[0] == c.order[0];
      }
    }
  }

  /** Dropping the front of a duplicate-free sequence removes exactly that key. */
  lemma DropFront(s: seq<string>)
    requires Distinct(s) && |s| > 0
    ensures Distinct(s[1..])
    ensures forall x :: x in s[1..] <==> x in s && x != s[0]
  {
    assert s == [s[0]] + s[1..];
  }

  /** Every `set` keeps the cache invariant. */
  lemma SetValid(c: LruState, key: string, val: CacheEntry)
    requires CacheInv(c)
    ensures CacheInv(LruSet(c, key, val))
  {
    if key in c.entries { SetExisting(c, key, val); } else { SetNew(c, key, val); }
  }

  /** `delete` removes the key if present, keeps every other entry and the order
      of the remaining keys, and is a no-op on an absent key. */
  lemma DeleteRemoves(c: LruState, key: string)
    requires CacheInv(c)
    ensures var c' := LruDelete(c, key);
      && CacheInv(c')
      && key !in c'.entries
      && c'.order == Without(c.order, key)
      && (forall k | k != key :: (k in c'.entries <==> k in c.entries))
      && (forall k | k in c'.entries :: c'.entries[k] == c.entries[k])
      && (key !in c.entries ==> c' == c)
  {
    var c' := LruDelete(c, key);
    WithoutMembers(c.order, key);
    WithoutDistinct(c.order, key);
    assert WellFormed(c');
    assert |c'.entries| <= |c.entries| by {
      if key in c.entries { assert |c'.entries| == |c.entries| - 1; }
      else { assert c'.entries == c.entries; }
    }
    if key !in c.entries {
      assert c.entries - {key} == c.entries;
    }
  }

  /** `set` applied to each key of `ks` in turn. */
  function SetAll(c: LruState, ks: seq<string>, val: CacheEntry): (r: LruState)
    requires CacheInv(c)
    ensures CacheInv(r) && r.max == c.max
  {
    if ks == [] then c
    else
      var prev := SetAll(c, ks[..|ks| - 1], val);
      SetValid(prev, ks[|ks| - 1], val);
      LruSet(prev, ks[|ks| - 1], val)
  }

  /** Filling an empty cache of capacity `max` with up to `max` distinct keys keeps
      them all, in insertion order (by the invariant, the entries' keys are exactly
      the keys of the order). */
  lemma {:induction false} FillUpToCapacity(max: nat, ks: seq<string>, val: CacheEntry)
    requires Distinct(ks) && |ks| <= max
    ensures SetAll(LruState(max, [], map[]), ks, val).order == ks
  {
    if ks != [] {
      var init := ks[..|ks| - 1];
      var last := ks[|ks| - 1];
      assert init + [last] == ks;
      DistinctSplit(init, [last]);
      assert last !in init by { assert last in [last]; }
      FillUpToCapacity(max, init, val);
      var prev := SetAll(LruState(max, [], map[]), init, val);
      SetNew(prev, last, val);
    }
  }

  /** Inserting `max + 1` distinct keys into an empty cache leaves exactly `max`
      entries: the first key inserted, the least recently touched, is the one evicted. */
  lemma OverflowEvictsOldest(max: nat, ks: seq<string>, val: CacheEntry)
    requires Distinct(ks) && |ks| == max + 1
    ensures var r := SetAll(LruState(max, [], map[]), ks, val);
      && |r.entries| == max
      && r.order == ks[1..]
      && ks[0] !in r.entries
  {
    var init := ks[..|ks| - 1];
    var last := ks[|ks| - 1];
    assert init + [last] == ks;
    DistinctSplit(init, [last]);
    assert last !in init by { assert last in [last]; }
    FillUpToCapacity(max, init, val);
    var prev := SetAll(LruState(max, [], map[]), init, val);
    SetNew(prev, last, val);
    SizeIsOrderLength(prev);
    var r := LruSet(prev, last, val);
    SizeIsOrderLength(r);
  }

  /** setting `x` then `y` in an empty
      cache of capacity 2 keeps both, `x` in front. */
  lemma RecencyFill(x: string, y: string, a: CacheEntry, b: CacheEntry)
    requires x != y
    ensures var s1 := LruState(2, [x], map[x := a]);
      var s2 := LruState(2, [x, y], map[x := a, y := b]);
      && CacheInv(s1) && CacheInv(s2)
      && LruSet(LruState(2, [], map[]), x, a) == s1
      && LruSet(s1, y, b) == s2
  {
    var s1 := LruState(2, [x], map[x := a]);
    SetNew(LruState(2, [], map[]), x, a);
    assert [] + [x] == [x];
    SetNew(s1, y, b);
  }

  /** Reading `x` moves it behind `y`. */
  lemma RecencyTouch(x: string, y: string, a: CacheEntry, b: CacheEntry)
    requires x != y
    ensures var s2 := LruState(2, [x, y], map[x := a, y := b]);
      var s3 := LruState(2, [y, x], map[x := a, y := b]);
      && CacheInv(s3)
      && LruGet(s2, x) == (s3, Some(a))
  {
    RecencyFill(x, y, a, b);
    var s2 := LruState(2, [x, y], map[x := a, y := b]);
    GetHit(s2, x);
    assert [x, y][1..] == [y] && [y][1..] == [];
    assert Without([x, y], x) + [x] == [y, x];
  }

  /** Setting a third key `z` then evicts `y`, the least recently touched key. */
  lemma RecencyEvict(x: string, y: string, z: string, a: CacheEntry, b: CacheEntry, c: CacheEntry)
    requires x != y && x != z && y != z
    ensures var s3 := LruState(2, [y, x], map[x := a, y := b]);
      LruSet(s3, z, c) == LruState(2, [x, z], map[x := a, z := c])
  {
    var s3 := LruState(2, [y, x], map[x := a, y := b]);
    assert [y, x][1..] == [x];
    assert WellFormed(s3);
    var m := s3.entries[z := c];
    assert |m| == 3 by {
      assert m.Keys == {x, y} + {z};
    }
    assert ([y, x] + [z])[1..] == [x, z];
    assert m - {y} == map[x := a, z := c];
  }

  /** after `set`, `delete` then `get` of the same code misses. */
  lemma InvalidationMisses(c: LruState, key: string, val: CacheEntry)
    requires CacheInv(c)
    ensures LruGet(LruDelete(LruSet(c, key, val), key), key).1 == None
  {
    SetValid(c, key, val);
  }

  /** `class LRUCache`: recency order is the `Map`'s insertion order, kept as `order`. */
  class LRUCache {
    const max: nat
    var order: seq<string>
    var entries: map<string, CacheEntry>

    function State(): LruState
      reads this
    {
      LruState(max, order, entries)
    }

    ghost predicate Valid()
      reads this
    {
      CacheInv(State())
    }

    /** `new LRUCache(max)`. */
    constructor (max: nat)
      ensures Valid() && State() == LruState(max, [], map[])
    {
      this.max := max;
      order := [];
      entries := map[];
    }

    method Get(key: string) returns (r: Option<CacheEntry>)
      requires Valid()
      modifies this
      ensures Valid()
      ensures (State(), r) == LruGet(old(State()), key)
    {
      if key !in entries {
        return None;
      }
      var val := entries[key];
      // refresh recency: delete, then set again at the back
      entries := entries - {key};
      order := Without(order, key);
      entries := entries[key := val];
      order := order + [key];
      r := Some(val);
      assert entries == old(entries);
      GetHit(old(State()), key);
    }

    method Set(key: string, val: CacheEntry)
      requires Valid()
      modifies this
      ensures Valid()
      ensures State() == LruSet(old(State()), key, val)
    {
      SetValid(State(), key, val);
      if key !in entries {
        order := order + [key];
      }
      entries := entries[key := val];
      if |entries| > max {
        var firstKey := order[0];
        order := order[1..];
        entries := entries - {firstKey};
      }
    }

    method Delete(key: string)
      requires Valid()
      modifies this
      ensures Valid()
      ensures State() == LruDelete(old(State()), key)
    {
      DeleteRemoves(State(), key);
      entries := entries - {key};
      order := Without(order, key);
    }
  }

  /** The capacity of the route's cache when REDIRECT_CACHE_MAX is unset, empty or 0. */
  const ROUTE_CACHE_DEFAULT_MAX: nat := 2000

  /** `Number(process.env.REDIRECT_CACHE_MAX) || 2000`, given the number the
      setting reads as (`None` for NaN). A negative capacity is over-full after
      every `set`, exactly like capacity 0, so it is stored as 0. */
  function RouteCacheMax(setting: Option<int>): (max: nat)
    ensures setting.None? || setting == Some(0) ==> max == ROUTE_CACHE_DEFAULT_MAX
    ensures setting.Some? && setting.value > 0 ==> max == setting.value
    ensures setting.Some? && setting.value < 0 ==> max == 0
  {
    match setting
    case None => ROUTE_CACHE_DEFAULT_MAX
    case Some(n) => if n == 0 then ROUTE_CACHE_DEFAULT_MAX else if n < 0 then 0 else n
  }

  /** `invalidateCacheFor(code)`: deletes the code from the route's cache. */
  method InvalidateCacheFor(cache: LRUCache, code: string)
    requires cache.Valid()
    modifies cache
    ensures cache.Valid()
    ensures cache.State() == LruDelete(old(cache.State()), code)
    ensures code !in cache.entries
  {
    cache.Delete(code);
  }

  /** What `shortUrlService.getByCode(code)` gives the resolver: it throws, finds
      nothing, or finds a record whose URL and expiry are shown. */
  datatype Lookup = LookupFailed | Absent | Record(longUrl: string, expiresAt: Option<int>)

  /** The lookup a store answers (`down` when the database call throws). */
  function LookupIn(store: Store, code: string, down: bool): Lookup {
    if down then LookupFailed
    else if code in store then Record(store[code].longUrl, store[code].expiresAt)
    else Absent
  }

  /** The responses of `GET /:code`; `Unrouted` is a path the route's pattern
      does not match, left to later handlers. */
  datatype Reply = Unrouted | NotFound | Gone | Redirect(location: string) | ServerError

  /** The HTTP status of each response the route sends. */
  function Status(r: Reply): nat
    requires !r.Unrouted?
  {
    match r
    case NotFound => 404
    case Gone => 410
    case Redirect(_) => 302
    case ServerError => 500
  }

  /** The result of resolving one code: the reply, the cache afterwards, whether
      the store was asked, and whether a stats increment was issued. */
  datatype Resolution = Resolution(reply: Reply, cache: LruState, lookedUp: bool, increment: bool)

  /** An entry is expired when it has an expiry and that instant is not in the future. */
  predicate IsExpired(e: CacheEntry, now: int) {
    e.expiresAt.Some? && e.expiresAt.value <= now
  }

  /** The expiry check and the redirect that follow the cache step. */
  function Serve(e: CacheEntry, c: LruState, lookedUp: bool, now: int): Resolution {
    if IsExpired(e, now) then Resolution(Gone, c, lookedUp, false)
    else Resolution(Redirect(e.longUrl), c, lookedUp, true)
  }

  /** `GET /:code`: the cache first; on a miss the store, whose record is cached
      before the expiry check; then 410 for an expired entry, otherwise 302 and
      one stats increment. */
  function Resolve(c: LruState, code: string, lookup: Lookup, now: int): Resolution
    requires WellFormed(c)
  {
    if !IsCodeValid(code) then Resolution(Unrouted, c, false, false)
    else
      var g := LruGet(c, code);
      match g.1
      case Some(e) => Serve(e, g.0, false, now)
      case None =>
        match lookup
        case LookupFailed => Resolution(ServerError, c, true, false)
        case Absent => Resolution(NotFound, c, true, false)
        case Record(u, x) =>
          var e := CacheEntry(u, x);
          Serve(e, LruSet(c, code, e), true, now)
  }

  /** A cache hit asks the store nothing: the outcome is the same whatever the
      store would have said, and the reply is served from the cached entry. */
  lemma HitSkipsStore(c: LruState, code: string, l1: Lookup, l2: Lookup, now: int)
    requires CacheInv(c) && IsCodeValid(code) && code in c.entries
    ensures Resolve(c, code, l1, now) == Resolve(c, code, l2, now)
    ensures !Resolve(c, code, l1, now).lookedUp
    ensures Resolve(c, code, l1, now).reply
         == (if IsExpired(c.entries[code], now) then Gone else Redirect(c.entries[code].longUrl))
  {
  }

  /** A miss whose lookup finds nothing is a 404 and leaves the cache as it was;
      one whose lookup throws is a 500 and leaves it too. Neither counts a click. */
  lemma MissWithoutRecord(c: LruState, code: string, now: int)
    requires CacheInv(c) && IsCodeValid(code) && code !in c.entries
    ensures Resolve(c, code, Absent, now) == Resolution(NotFound, c, true, false)
    ensures Resolve(c, code, LookupFailed, now) == Resolution(ServerError, c, true, false)
  {
  }

  /** A miss whose lookup finds a record caches `{longUrl, expiresAt}` whether or
      not it has expired; with room for one entry it is then in the cache. */
  lemma MissCachesRecord(c: LruState, code: string, u: string, x: Option<int>, now: int)
    requires CacheInv(c) && IsCodeValid(code) && code !in c.entries
    ensures var r := Resolve(c, code, Record(u, x), now);
      && r.lookedUp
      && r.cache == LruSet(c, code, CacheEntry(u, x))
      && (c.max >= 1 ==> code in r.cache.entries && r.cache.entries[code] == CacheEntry(u, x))
  {
    SetNew(c, code, CacheEntry(u, x));
  }

  /** 410 exactly for an expired entry and 302 to its URL otherwise; a stats
      increment is issued exactly with a 302, on hits and misses alike. */
  lemma ExpiryAndRedirect(c: LruState, code: string, lookup: Lookup, now: int)
    requires CacheInv(c) && IsCodeValid(code)
    ensures var r := Resolve(c, code, lookup, now);
      && !r.reply.Unrouted?
      && (r.increment <==> r.reply.Redirect?)
      && (r.increment <==> Status(r.reply) == 302)
      && (r.reply == Gone <==> Status(r.reply) == 410)
      && (code in c.entries ==> (r.reply == Gone <==> IsExpired(c.entries[code], now)))
      && (code !in c.entries && lookup.Record? ==>
            (r.reply == Gone <==> IsExpired(CacheEntry(lookup.longUrl, lookup.expiresAt), now)))
      && (code !in c.entries && lookup.Record? && !IsExpired(CacheEntry(lookup.longUrl, lookup.expiresAt), now) ==>
            r.reply == Redirect(lookup.longUrl))
  {
  }

  /** Resolving keeps the cache invariant. */
  lemma ResolveKeepsInv(c: LruState, code: string, lookup: Lookup, now: int)
    requires CacheInv(c)
    ensures CacheInv(Resolve(c, code, lookup, now).cache)
  {
    if IsCodeValid(code) {
      if code in c.entries {
        GetHit(c, code);
      } else if lookup.Record? {
        SetValid(c, code, CacheEntry(lookup.longUrl, lookup.expiresAt));
      }
    }
  }

  /** Two visits to an unexpired link: the first asks the store and fills the
      cache, the second is served from the cache alone; both redirect to the same
      URL and each issues one increment. */
  lemma RepeatVisit(c: LruState, code: string, u: string, x: Option<int>, now: int, l2: Lookup)
    requires CacheInv(c) && c.max >= 1 && IsCodeValid(code) && code !in c.entries
    requires !IsExpired(CacheEntry(u, x), now)
    ensures var r1 := Resolve(c, code, Record(u, x), now);
      && CacheInv(r1.cache)
      && r1.reply == Redirect(u) && r1.lookedUp && r1.increment
      && var r2 := Resolve(r1.cache, code, l2, now);
      && r2.reply == Redirect(u) && !r2.lookedUp && r2.increment
  {
    MissCachesRecord(c, code, u, x, now);
    ResolveKeepsInv(c, code, Record(u, x), now);
  }

  /** After `invalidateCacheFor(code)` the next resolution of the code asks the store again. */
  lemma InvalidatedCodeIsLookedUp(c: LruState, code: string, lookup: Lookup, now: int)
    requires CacheInv(c) && IsCodeValid(code)
    ensures CacheInv(LruDelete(c, code))
    ensures Resolve(LruDelete(c, code), code, lookup, now).lookedUp
  {
    DeleteRemoves(c, code);
  }

  /** The route handler over the shared cache and the service. */
  method HandleRedirect(cache: LRUCache, svc: ShortUrlService, code: string, now: int, storeDown: bool)
    returns (reply: Reply)
    requires cache.Valid() && svc.Valid()
    modifies cache, svc
    ensures cache.Valid() && svc.Valid()
    ensures var r := Resolve(old(cache.State()), code, LookupIn(old(svc.records), code, storeDown), now);
      && reply == r.reply
      && cache.State() == r.cache
      && svc.records == if r.increment then AfterRedirect(old(svc.records), code, now) else old(svc.records)
  {
    if !IsCodeValid(code) {
      return Unrouted;
    }
    var entry := cache.Get(code);
    var e: CacheEntry;
    if entry.None? {
      if storeDown {
        return ServerError;
      }
      var item := svc.GetByCode(code);
      if item.None? {
        return NotFound;
      }
      e := CacheEntry(item.value.longUrl, item.value.expiresAt);
      cache.Set(code, e);
    } else {
      e := entry.value;
    }
    if IsExpired(e, now) {
      return Gone;
    }
    // fire-and-forget in the source: its result and any error are ignored
    var _ := svc.IncrementStatsOnRedirect(code, now);
    reply := Redirect(e.longUrl);
  }
}
