/** The time-to-live cache of src/lib/cache.py.  The clock is a parameter:
    every operation that reads `time()` in the source takes `now`, and an
    operation that changes the cache returns the new cache.  A resolver is a
    function of the key whose failure stands for an exception it raises. */
module TtlCache {
  import opened Results

  /** `_DEFAULT_LIFETIME`: the item lifetime when none is given at all. */
  const DefaultLifetime: real := 60.0

  datatype Item<V> = Item(value: V, born: real, lifetime: real)

  datatype Cache<K, V> = Cache(lifetime: Option<real>, items: map<K, Item<V>>)

  /** The three outcomes of `get_or_raise`: a value, CacheMissException, and
      CacheTimeoutException (a subclass of the miss exception). */
  datatype Lookup<V> = Hit(value: V) | Miss | Timeout

  /** `Cache(lifetime)`: empty, with a default lifetime for its items. */
  function NewCache<K, V>(lifetime: Option<real>): (c: Cache<K, V>)
    ensures c.items == map[] && c.lifetime == lifetime
  {
    Cache(lifetime, map[])
  }

  /** `CacheItem.is_valid()` at time `now`: the item is younger than its
      lifetime (strictly). */
  predicate IsValid<V>(item: Item<V>, now: real) {
    now - item.born < item.lifetime
  }

  /** An item is valid from its birth up to, but not including, the moment
      its lifetime has passed, and once invalid it stays invalid. */
  lemma ValidityWindow<V>(item: Item<V>, earlier: real, later: real)
    requires earlier <= later
    ensures IsValid(item, later) ==> IsValid(item, earlier)
    ensures !IsValid(item, earlier) ==> !IsValid(item, later)
    ensures IsValid(item, later) <==> later < item.born + item.lifetime
  {
  }

  /** The lifetime an item gets from `set`: the argument, else the cache's
      default, else `_DEFAULT_LIFETIME`. */
  function EffectiveLifetime<K, V>(c: Cache<K, V>, lifetime: Option<real>): (r: real)
    ensures lifetime.Some? ==> r == lifetime.value
    ensures lifetime.None? && c.lifetime.Some? ==> r == c.lifetime.value
    ensures lifetime.None? && c.lifetime.None? ==> r == 60.0
  {
    if lifetime.Some? then lifetime.value
    else if c.lifetime.Some? then c.lifetime.value
    else DefaultLifetime
  }

  /** `set`: the key now holds the value, born at `now`; nothing else changes. */
  function Set<K(==, !new), V>(c: Cache<K, V>, key: K, value: V, lifetime: Option<real>, now: real): (r: Cache<K, V>)
    ensures key in r.items && r.items[key].value == value && r.items[key].born == now
    ensures r.items[key].lifetime == EffectiveLifetime(c, lifetime)
    ensures r.lifetime == c.lifetime
    ensures forall k :: k != key ==> (k in r.items <==> k in c.items)
    ensures forall k :: k != key && k in c.items ==> r.items[k] == c.items[k]
  {
    c.(items := c.items[key := Item(value, now, EffectiveLifetime(c, lifetime))])
  }

  /** `delete`: removing an absent key raises KeyError. */
  function Delete<K(==, !new), V>(c: Cache<K, V>, key: K): (r: Result<Cache<K, V>, Error>)
    ensures r.Err? <==> key !in c.items
    ensures r.Err? ==> r.error == MissingKey
    ensures r.Ok? ==> key !in r.value.items && r.value.lifetime == c.lifetime
    ensures r.Ok? ==> forall k :: k != key ==> (k in r.value.items <==> k in c.items)
    ensures r.Ok? ==> forall k :: k != key && k in c.items ==> r.value.items[k] == c.items[k]
  {
    if key !in c.items then Err(MissingKey)
    else Ok(c.(items := c.items - {key}))
  }

  /** `get_or_raise`.  Its `lifetime` argument is computed but never used:
      validity is judged by the item's own lifetime.  An expired item is
      deleted before the timeout is reported. */
  function GetOrRaise<K(==, !new), V>(c: Cache<K, V>, key: K, lifetime: Option<real>, now: real): (r: (Cache<K, V>, Lookup<V>))
    ensures r.1.Miss? <==> key !in c.items
    ensures r.1.Hit? <==> key in c.items && IsValid(c.items[key], now)
    ensures r.1.Hit? ==> r.1.value == c.items[key].value && r.0 == c
    ensures r.1.Miss? ==> r.0 == c
    ensures r.1.Timeout? ==> Delete(c, key) == Ok(r.0)
  {
    if key !in c.items then (c, Miss)
    else if !IsValid(c.items[key], now) then (c.(items := c.items - {key}), Timeout)
    else (c, Hit(c.items[key].value))
  }

  /** What `get_or_resolve` leaves behind: the cache, the value or the
      resolver's failure, and whether the resolver was called. */
  datatype Resolution<K, V, E> = Resolution(cache: Cache<K, V>, result: Result<V, E>, resolved: bool)

  /** `get_or_resolve`.  A hit answers from the cache without calling the
      resolver.  Otherwise (a miss, or a timeout, which has already deleted
      the item) the resolver is called; its value is stored with
      `item_lifetime`, else the cache's default, and returned.  The
      `lifetime` argument only reaches `get_or_raise`, which ignores it.  A
      failing resolver propagates its failure and stores nothing.  The clock
      is read twice: `now` when the lookup checks validity, and `resolvedAt`
      when the new item is born, after the resolver has returned. */
  function GetOrResolve<K(==, !new), V, E>(c: Cache<K, V>, key: K, resolve: K -> Result<V, E>,
                                    lifetime: Option<real>, itemLifetime: Option<real>, now: real, resolvedAt: real)
    : (r: Resolution<K, V, E>)
    ensures !r.resolved <==> key in c.items && IsValid(c.items[key], now)
    ensures !r.resolved ==> r.result == Ok(c.items[key].value) && r.cache == c
    ensures r.resolved ==> r.result == resolve(key)
    ensures r.resolved && r.result.Ok? ==>
      && key in r.cache.items && r.cache.items[key] == Item(r.result.value, resolvedAt, EffectiveLifetime(c, itemLifetime))
    ensures r.resolved && r.result.Err? ==> key !in r.cache.items
    ensures r.cache.lifetime == c.lifetime
    ensures forall k :: k != key ==> (k in r.cache.items <==> k in c.items)
    ensures forall k :: k != key && k in c.items ==> r.cache.items[k] == c.items[k]
  {
    var (c1, found) := GetOrRaise(c, key, lifetime, now);
    if found.Hit? then Resolution(c1, Ok(found.value), false)
    else match resolve(key)
      case Err(e) => Resolution(c1, Err(e), true)
      case Ok(v) =>
        var stored := if itemLifetime.Some? then itemLifetime else c1.lifetime;
        Resolution(Set(c1, key, v, stored, resolvedAt), Ok(v), true)
  }

  /** `get`: a miss or a timeout is None, and a timeout still deletes. */
  function Get<K(==, !new), V>(c: Cache<K, V>, key: K, lifetime: Option<real>, now: real): (r: (Cache<K, V>, Option<V>))
    ensures r.1.Some? <==> GetOrRaise(c, key, lifetime, now).1.Hit?
    ensures r.1.Some? ==> r.1.value == c.items[key].value
    ensures r.0 == GetOrRaise(c, key, lifetime, now).0
  {
    var (c1, found) := GetOrRaise(c, key, lifetime, now);
    if found.Hit? then (c1, Some(found.value)) else (c1, None)
  }

  // ---------------------------------------------------------------------------
  // Properties

  /** A value set at `born` is found until its lifetime has passed, and from
      then on the lookup reports a timeout and removes it. */
  lemma SetThenLookup<K(!new), V>(c: Cache<K, V>, key: K, value: V, lifetime: Option<real>, born: real, now: real)
    ensures var s := Set(c, key, value, lifetime, born);
      now - born < EffectiveLifetime(c, lifetime) ==> GetOrRaise(s, key, None, now) == (s, Hit(value))
    ensures var s := Set(c, key, value, lifetime, born);
      now - born >= EffectiveLifetime(c, lifetime) ==>
        GetOrRaise(s, key, None, now).1 == Timeout && key !in GetOrRaise(s, key, None, now).0.items
  {
  }

  /** After a timeout the key is gone: the next lookup is a plain miss. */
  lemma TimeoutThenMiss<K(!new), V>(c: Cache<K, V>, key: K, l1: Option<real>, l2: Option<real>, now: real, later: real)
    requires GetOrRaise(c, key, l1, now).1 == Timeout
    ensures GetOrRaise(GetOrRaise(c, key, l1, now).0, key, l2, later).1 == Miss
  {
  }

  /** The `lifetime` argument of `get_or_raise` changes nothing. */
  lemma LookupIgnoresLifetime<K(!new), V>(c: Cache<K, V>, key: K, l1: Option<real>, l2: Option<real>, now: real)
    ensures GetOrRaise(c, key, l1, now) == GetOrRaise(c, key, l2, now)
  {
  }

  /** Setting one key never changes what a lookup of another key answers. */
  lemma SetIsolation<K(!new), V>(c: Cache<K, V>, key: K, other: K, value: V, lifetime: Option<real>,
                               born: real, l: Option<real>, now: real)
    requires key != other
    ensures GetOrRaise(Set(c, key, value, lifetime, born), other, l, now).1 == GetOrRaise(c, other, l, now).1
  {
  }

  /** Setting a fresh key and deleting it gives back the original cache. */
  lemma SetThenDelete<K(!new), V>(c: Cache<K, V>, key: K, value: V, lifetime: Option<real>, born: real)
    requires key !in c.items
    ensures Delete(Set(c, key, value, lifetime, born), key) == Ok(c)
  {
    assert (c.items[key := Item(value, born, EffectiveLifetime(c, lifetime))] - {key}) == c.items;
  }

  /** A second `set` of the same key replaces the first entirely. */
  lemma SetOverwrites<K(!new), V>(c: Cache<K, V>, key: K, v1: V, v2: V, l1: Option<real>, l2: Option<real>,
                                t1: real, t2: real)
    ensures Set(Set(c, key, v1, l1, t1), key, v2, l2, t2) == Set(c, key, v2, l2, t2)
  {
    assert Set(c, key, v1, l1, t1).lifetime == c.lifetime;
  }

  /** Resolving a key the cache lacks calls the resolver; resolving it
      again within the stored lifetime is answered from the cache with the
      same value, without calling the resolver. */
  lemma ResolveOnce<K(!new), V, E>(c: Cache<K, V>, key: K, resolve: K -> Result<V, E>,
                                 lifetime: Option<real>, itemLifetime: Option<real>,
                                 now: real, resolvedAt: real, later: real, laterResolvedAt: real)
    requires key !in c.items && resolve(key).Ok?
    requires resolvedAt <= later && later - resolvedAt < EffectiveLifetime(c, itemLifetime)
    ensures var first := GetOrResolve(c, key, resolve, lifetime, itemLifetime, now, resolvedAt);
      var second := GetOrResolve(first.cache, key, resolve, lifetime, itemLifetime, later, laterResolvedAt);
      first.resolved && !second.resolved && second.result == first.result == resolve(key)
  {
  }
}
