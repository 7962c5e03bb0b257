/**
 * `timed_cache(seconds)`: entries carry the time they were stored and are
 * served while `now - storedAt < seconds`. As written, a fresh hit still runs
 * the wrapped function once (to measure the time saved) and discards its
 * result; a stale or absent entry is recomputed and overwritten. Stale
 * entries are never removed, only overwritten.
 */
module TimedCache {
  import opened CacheKey
  import opened CacheRegistry

  datatype Stamped<V> = Stamped(value: V, storedAt: int)

  type Cache<V> = map<Key, Stamped<V>>

  /** `current_time - timestamp < seconds` */
  predicate Fresh<V>(e: Stamped<V>, seconds: int, now: int) {
    now - e.storedAt < seconds
  }

  /** One call through the `timed_cache` wrapper at time `now`. */
  function Call<A, V>(cache: Cache<V>, seconds: int, now: int, c: Args<A>, f: Args<A> -> V, repr: A -> string)
    : (s: Step<Cache<V>, V>)
    ensures var k := KeyOf(repr, c);
      && (s.event == Hit <==> k in cache && Fresh(cache[k], seconds, now))
      && s.event != Unrecorded
      && s.invocations == 1
      && (s.event == Hit ==> s.value == cache[k].value && s.state == cache)
      && s.state.Keys == cache.Keys + {k}
      && (s.event == Miss ==> s.value == f(c) && s.state[k] == Stamped(f(c), now))
      && forall k' :: k' in cache && k' != k ==> s.state[k'] == cache[k']
  {
    var k := KeyOf(repr, c);
    if k in cache && Fresh(cache[k], seconds, now) then
      var _ := f(c);  // run for timing only; the result is discarded
      Step(cache[k].value, cache, Hit, 1)
    else
      var v := f(c);
      Step(v, cache[k := Stamped(v, now)], Miss, 1)
  }

  /** After a clear, every call misses and stores a new stamp, whatever the time. */
  lemma ClearThenMiss<A, V>(cache: Cache<V>, seconds: int, now: int, c: Args<A>, f: Args<A> -> V, repr: A -> string)
    ensures var s := Call(ClearStore(cache), seconds, now, c, f, repr);
            s.event == Miss && s.value == f(c) && s.state == map[KeyOf(repr, c) := Stamped(f(c), now)]
  {
  }

  /** After a miss at time `t`, a later call with the same key at time `t2`
      is a hit exactly while `t2 - t < seconds`, and a hit returns the value
      computed at `t`. */
  lemma FreshWindow<A, V>(cache: Cache<V>, seconds: int, t: int, t2: int, c: Args<A>, c2: Args<A>,
                          f: Args<A> -> V, repr: A -> string)
    requires KeyOf(repr, c2) == KeyOf(repr, c)
    requires Call(cache, seconds, t, c, f, repr).event == Miss
    ensures var s1 := Call(cache, seconds, t, c, f, repr);
            var s2 := Call(s1.state, seconds, t2, c2, f, repr);
            && (s2.event == Hit <==> t2 - t < seconds)
            && (s2.event == Hit ==> s2.value == f(c))
            && (s2.event == Miss ==> s2.value == f(c2))
  {
  }

  /** When the wrapped function depends only on the key, a timed cache is
      transparent whatever the clock says. */
  lemma Transparent<A, V>(cache: Cache<V>, seconds: int, now: int, c: Args<A>, g: Key -> V, repr: A -> string)
    requires forall k :: k in cache ==> cache[k].value == g(k)
    ensures var s := Call(cache, seconds, now, c, (a: Args<A>) => g(KeyOf(repr, a)), repr);
      && s.value == g(KeyOf(repr, c))
      && forall k :: k in s.state ==> s.state[k].value == g(k)
  {
  }
}
