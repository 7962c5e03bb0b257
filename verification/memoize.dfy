/**
 * `memoize`: an unbounded in-memory map from cache key to result. The first
 * call with a key runs the wrapped function and stores its result; every
 * later call with that key returns the stored result without running it.
 */
module Memoize {
  import opened CacheKey
  import opened CacheRegistry
  import Seqs

  type Cache<V> = map<Key, V>

  /** One call through the `memoize` wrapper. */
  function Call<A, V>(cache: Cache<V>, c: Args<A>, f: Args<A> -> V, repr: A -> string)
    : (s: Step<Cache<V>, V>)
    ensures s.event == Hit <==> KeyOf(repr, c) in cache
    ensures s.event != Unrecorded
    ensures s.event == Hit ==> s.state == cache && s.invocations == 0 && s.value == cache[KeyOf(repr, c)]
    ensures s.event == Miss ==> s.value == f(c) && s.invocations == 1
    ensures s.state.Keys == cache.Keys + {KeyOf(repr, c)}
    ensures s.state[KeyOf(repr, c)] == s.value
    ensures forall k :: k in cache ==> s.state[k] == cache[k]
  {
    var k := KeyOf(repr, c);
    if k in cache then Step(cache[k], cache, Hit, 0)
    else
      var v := f(c);
      Step(v, cache[k := v], Miss, 1)
  }

  /** After a clear, every call misses and runs the wrapped function again. */
  lemma ClearThenMiss<A, V>(cache: Cache<V>, c: Args<A>, f: Args<A> -> V, repr: A -> string)
    ensures var s := Call(ClearStore(cache), c, f, repr);
            s.event == Miss && s.invocations == 1 && s.value == f(c) && s.state.Keys == {KeyOf(repr, c)}
  {
  }

  /** Calling twice with the same arguments: the second call is a hit, both
      return the same value and the wrapped function ran at most once. */
  lemma CallTwice<A, V>(cache: Cache<V>, c: Args<A>, f: Args<A> -> V, repr: A -> string)
    ensures var s1 := Call(cache, c, f, repr);
            var s2 := Call(s1.state, c, f, repr);
            && s2.event == Hit
            && s2.value == s1.value
            && s2.state == s1.state
            && s1.invocations + s2.invocations <= 1
  {
  }

  // ---------------------------------------------------------------------------
  // A run of calls against an independent reference: every call returns the
  // result of the first call in the run with the same key.

  datatype Run<V> = Run(results: seq<V>, cache: Cache<V>, invocations: nat, events: seq<Event>)

  /** A sequence of calls, threading the cache from left to right. */
  function RunCalls<A, V>(cache: Cache<V>, calls: seq<Args<A>>, f: Args<A> -> V, repr: A -> string): (r: Run<V>)
    ensures |r.results| == |calls| && |r.events| == |calls|
    decreases |calls|
  {
    if |calls| == 0 then Run([], cache, 0, [])
    else
      var prev := RunCalls(cache, calls[..|calls| - 1], f, repr);
      var s := Call(prev.cache, calls[|calls| - 1], f, repr);
      Run(prev.results + [s.value], s.state, prev.invocations + s.invocations, prev.events + [s.event])
  }

  /** The set of keys a run touches. */
  function KeysOf<A>(calls: seq<Args<A>>, repr: A -> string): set<Key> {
    set i | 0 <= i < |calls| :: KeyOf(repr, calls[i])
  }

  /** A key belongs to a run exactly when it occurs in the run's key history. */
  lemma KeysOfHistory<A>(calls: seq<Args<A>>, repr: A -> string, k: Key)
    ensures k in KeysOf(calls, repr) <==> k in History(calls, repr)
  {
    var h := History(calls, repr);
    if k in h {
      var i :| 0 <= i < |h| && h[i] == k;
      assert KeyOf(repr, calls[i]) == k;
    }
  }

  /** Index of the first call in `calls` whose key is `k`. */
  function FirstWithKey<A>(calls: seq<Args<A>>, repr: A -> string, k: Key): (j: nat)
    requires k in KeysOf(calls, repr)
    ensures j < |calls| && KeyOf(repr, calls[j]) == k
    ensures forall i :: 0 <= i < j ==> KeyOf(repr, calls[i]) != k
  {
    KeysOfHistory(calls, repr, k);
    Seqs.FirstOf(History(calls, repr), k)
  }

  lemma FirstWithKeyPrefix<A>(calls: seq<Args<A>>, c: Args<A>, repr: A -> string, k: Key)
    requires k in KeysOf(calls, repr)
    ensures k in KeysOf(calls + [c], repr)
    ensures FirstWithKey(calls + [c], repr, k) == FirstWithKey(calls, repr, k)
  {
    KeysOfHistory(calls, repr, k);
    HistorySnoc(calls, c, repr);
    Seqs.FirstOfSnoc(History(calls, repr), KeyOf(repr, c), k);
    KeysOfHistory(calls + [c], repr, k);
  }

  lemma KeysOfSnoc<A>(calls: seq<Args<A>>, c: Args<A>, repr: A -> string)
    ensures KeysOf(calls + [c], repr) == KeysOf(calls, repr) + {KeyOf(repr, c)}
  {
    var all := calls + [c];
    forall x | x in KeysOf(all, repr) ensures x in KeysOf(calls, repr) + {KeyOf(repr, c)} {
      var i :| 0 <= i < |all| && KeyOf(repr, all[i]) == x;
      if i < |calls| { assert all[i] == calls[i]; }
    }
    forall x | x in KeysOf(calls, repr) ensures x in KeysOf(all, repr) {
      var i :| 0 <= i < |calls| && KeyOf(repr, calls[i]) == x;
      assert all[i] == calls[i];
    }
    assert all[|calls|] == c;
  }

  lemma FirstWithKeyNew<A>(calls: seq<Args<A>>, c: Args<A>, repr: A -> string)
    requires KeyOf(repr, c) !in KeysOf(calls, repr)
    ensures KeyOf(repr, c) in KeysOf(calls + [c], repr)
    ensures FirstWithKey(calls + [c], repr, KeyOf(repr, c)) == |calls|
  {
    var k := KeyOf(repr, c);
    KeysOfHistory(calls, repr, k);
    HistorySnoc(calls, c, repr);
    Seqs.FirstOfNew(History(calls, repr), k);
    KeysOfHistory(calls + [c], repr, k);
  }

  lemma RunSnoc<A, V>(cache: Cache<V>, init: seq<Args<A>>, c: Args<A>, f: Args<A> -> V, repr: A -> string)
    ensures var prev := RunCalls(cache, init, f, repr);
            var s := Call(prev.cache, c, f, repr);
            RunCalls(cache, init + [c], f, repr)
              == Run(prev.results + [s.value], s.state, prev.invocations + s.invocations, prev.events + [s.event])
  {
    assert (init + [c])[..|init + [c]| - 1] == init;
  }

  /** After a run from an empty cache the cache holds exactly the keys the
      run touched. */
  lemma {:induction false} RunKeys<A, V>(calls: seq<Args<A>>, f: Args<A> -> V, repr: A -> string)
    ensures RunCalls(map[], calls, f, repr).cache.Keys == KeysOf(calls, repr)
    decreases |calls|
  {
    if |calls| == 0 {
      assert KeysOf(calls, repr) == {};
    } else {
      var init, c := calls[..|calls| - 1], calls[|calls| - 1];
      Seqs.SplitLast(calls);
      RunKeys(init, f, repr);
      RunSnoc(map[], init, c, f, repr);
      KeysOfSnoc(init, c, repr);
    }
  }

  /** ... each with the result of the first call that had that key ... */
  lemma {:induction false} RunValues<A, V>(calls: seq<Args<A>>, f: Args<A> -> V, repr: A -> string)
    ensures var r := RunCalls(map[], calls, f, repr);
            forall k :: k in r.cache ==> k in KeysOf(calls, repr) && r.cache[k] == f(calls[FirstWithKey(calls, repr, k)])
    decreases |calls|
  {
    RunKeys(calls, f, repr);
    if |calls| > 0 {
      var init, c := calls[..|calls| - 1], calls[|calls| - 1];
      Seqs.SplitLast(calls);
      RunValues(init, f, repr);
      RunKeys(init, f, repr);
      RunSnoc(map[], init, c, f, repr);
      var r := RunCalls(map[], calls, f, repr);
      forall k | k in r.cache
        ensures r.cache[k] == f(calls[FirstWithKey(calls, repr, k)])
      {
        ValueStep(init, c, f, repr, k);
      }
    }
  }

  /** The last call of a run keeps every stored value that was the first
      result for its key, and stores the first result for a new key. */
  lemma ValueStep<A, V>(init: seq<Args<A>>, c: Args<A>, f: Args<A> -> V, repr: A -> string, k: Key)
    requires var prev := RunCalls(map[], init, f, repr);
      && prev.cache.Keys == KeysOf(init, repr)
      && (k in prev.cache ==> prev.cache[k] == f(init[FirstWithKey(init, repr, k)]))
    requires k in Call(RunCalls(map[], init, f, repr).cache, c, f, repr).state
    ensures k in KeysOf(init + [c], repr)
    ensures Call(RunCalls(map[], init, f, repr).cache, c, f, repr).state[k]
              == f((init + [c])[FirstWithKey(init + [c], repr, k)])
  {
    if k in KeysOf(init, repr) {
      FirstWithKeyPrefix(init, c, repr, k);
    } else {
      FirstWithKeyNew(init, c, repr);
    }
  }

  /** ... and the wrapped function ran once per distinct key. */
  lemma {:induction false} RunInvocations<A, V>(calls: seq<Args<A>>, f: Args<A> -> V, repr: A -> string)
    ensures var r := RunCalls(map[], calls, f, repr);
            r.invocations == |r.cache|
    decreases |calls|
  {
    if |calls| > 0 {
      var init, c := calls[..|calls| - 1], calls[|calls| - 1];
      Seqs.SplitLast(calls);
      RunInvocations(init, f, repr);
      RunSnoc(map[], init, c, f, repr);
      var prev := RunCalls(map[], init, f, repr);
      var k := KeyOf(repr, c);
      if k !in prev.cache {
        assert Call(prev.cache, c, f, repr).state == prev.cache[k := f(c)];
      }
    }
  }

  /** The wrapped function runs exactly once per distinct key of the run. */
  lemma RunsOncePerKey<A, V>(calls: seq<Args<A>>, f: Args<A> -> V, repr: A -> string)
    ensures RunCalls(map[], calls, f, repr).invocations == |KeysOf(calls, repr)|
  {
    var r := RunCalls(map[], calls, f, repr);
    RunInvocations(calls, f, repr);
    RunKeys(calls, f, repr);
    assert |r.cache| == |r.cache.Keys|;
  }

  /** Index of the first call with the same key as call `i`. */
  function FirstIndex<A>(calls: seq<Args<A>>, repr: A -> string, i: nat): (j: nat)
    requires i < |calls|
    ensures j <= i && KeyOf(repr, calls[j]) == KeyOf(repr, calls[i])
    ensures forall l :: 0 <= l < j ==> KeyOf(repr, calls[l]) != KeyOf(repr, calls[i])
  {
    assert KeyOf(repr, calls[i]) in KeysOf(calls, repr);
    FirstWithKey(calls, repr, KeyOf(repr, calls[i]))
  }

  lemma FirstIndexSnoc<A>(init: seq<Args<A>>, c: Args<A>, repr: A -> string, i: nat)
    requires i < |init|
    ensures FirstIndex(init + [c], repr, i) == FirstIndex(init, repr, i)
  {
    assert (init + [c])[i] == init[i];
    assert KeyOf(repr, init[i]) in KeysOf(init, repr);
    FirstWithKeyPrefix(init, c, repr, KeyOf(repr, init[i]));
  }

  /** A run from an empty cache returns, for every call, the result of the
      first call with the same key. */
  lemma {:induction false} RunResults<A, V>(calls: seq<Args<A>>, f: Args<A> -> V, repr: A -> string)
    ensures var r := RunCalls(map[], calls, f, repr);
      forall i :: 0 <= i < |calls| ==> r.results[i] == f(calls[FirstIndex(calls, repr, i)])
    decreases |calls|
  {
    if |calls| > 0 {
      var init, c := calls[..|calls| - 1], calls[|calls| - 1];
      Seqs.SplitLast(calls);
      RunResults(init, f, repr);
      RunSnoc(map[], init, c, f, repr);
      var r := RunCalls(map[], calls, f, repr);
      var prev := RunCalls(map[], init, f, repr);
      forall i | 0 <= i < |init|
        ensures r.results[i] == f(calls[FirstIndex(calls, repr, i)])
      {
        assert r.results[i] == prev.results[i];
        FirstIndexSnoc(init, c, repr, i);
        assert calls[FirstIndex(init, repr, i)] == init[FirstIndex(init, repr, i)];
      }
      RunResultLast(init, c, f, repr);
    }
  }

  lemma RunResultLast<A, V>(init: seq<Args<A>>, c: Args<A>, f: Args<A> -> V, repr: A -> string)
    ensures RunCalls(map[], init + [c], f, repr).results[|init|] == f((init + [c])[FirstIndex(init + [c], repr, |init|)])
  {
    var calls := init + [c];
    RunValues(init, f, repr);
    RunKeys(init, f, repr);
    RunSnoc(map[], init, c, f, repr);
    var k := KeyOf(repr, c);
    ValueStep(init, c, f, repr, k);
    assert calls[|init|] == c;
  }

  /** ... and reports a hit exactly when an earlier call had the same key. */
  lemma {:induction false} RunEvents<A, V>(calls: seq<Args<A>>, f: Args<A> -> V, repr: A -> string)
    ensures var r := RunCalls(map[], calls, f, repr);
      forall i :: 0 <= i < |calls| ==> (r.events[i] == Hit <==> FirstIndex(calls, repr, i) < i)
    decreases |calls|
  {
    if |calls| > 0 {
      var init, c := calls[..|calls| - 1], calls[|calls| - 1];
      Seqs.SplitLast(calls);
      RunEvents(init, f, repr);
      RunKeys(init, f, repr);
      RunSnoc(map[], init, c, f, repr);
      var prev := RunCalls(map[], init, f, repr);
      var e := Call(prev.cache, c, f, repr).event;
      var events := RunCalls(map[], calls, f, repr).events;
      assert events == prev.events + [e];
      forall i | 0 <= i < |calls|
        ensures events[i] == Hit <==> FirstIndex(calls, repr, i) < i
      {
        if i < |init| {
          FirstIndexSnoc(init, c, repr, i);
          assert events[i] == prev.events[i];
        } else {
          EventLast(init, c, prev.cache, f, repr);
          assert events[i] == e;
        }
      }
    }
  }

  /** The last call of a run hits exactly when an earlier call had its key. */
  lemma EventLast<A, V>(init: seq<Args<A>>, c: Args<A>, cache: Cache<V>, f: Args<A> -> V, repr: A -> string)
    requires cache.Keys == KeysOf(init, repr)
    ensures (Call(cache, c, f, repr).event == Hit) == (FirstIndex(init + [c], repr, |init|) < |init|)
  {
    var k, calls := KeyOf(repr, c), init + [c];
    assert calls[|init|] == c;
    if k in KeysOf(init, repr) {
      FirstWithKeyPrefix(init, c, repr, k);
    } else {
      FirstWithKeyNew(init, c, repr);
    }
    assert FirstIndex(calls, repr, |init|) == FirstWithKey(calls, repr, k);
  }

  /** When the wrapped function depends on its arguments only through the
      key (`f(c) == g(key)`), memoization is transparent: every call returns
      what an unwrapped call would, and the cache stays consistent with `g`. */
  lemma Transparent<A, V>(cache: Cache<V>, c: Args<A>, g: Key -> V, repr: A -> string)
    requires forall k :: k in cache ==> cache[k] == g(k)
    ensures var s := Call(cache, c, (a: Args<A>) => g(KeyOf(repr, a)), repr);
      && s.value == g(KeyOf(repr, c))
      && forall k :: k in s.state ==> s.state[k] == g(k)
  {
  }
}
