/**
 * Worked call sequences: the keys the wrappers build, the LRU run of the
 * module's own usage example, and the statistics a short run leaves behind.
 * The argument values are any values whose `repr`s differ.
 */
module CacheScenarios {
  import opened Wrappers
  import opened CacheKey
  import opened CacheRegistry
  import Memoize
  import LruCache
  import ParametrizedCache
  import Seqs

  /** `f(1, 2)` and `f(2, 1)` are keyed `"1:2"` and `"2:1"`. */
  lemma PositionalKeys<A>(repr: A -> string, x: A, y: A)
    ensures KeyOf(repr, Args([x, y], [])) == repr(x) + ":" + repr(y)
  {
    var parts := KeyParts(repr, Args([x, y], []));
    assert parts == [repr(x), repr(y)];
    assert Join(parts[1..]) == repr(y);
    assert Join(parts) == repr(x) + ":" + repr(y);
  }

  /** `f(b=2, a=1)` and `f(a=1, b=2)` are both keyed `"a=1:b=2"`. */
  lemma KeywordKeys<A>(repr: A -> string, x: A, y: A)
    ensures KeyOf(repr, Args([], [("b", y), ("a", x)])) == "a=" + repr(x) + ":b=" + repr(y)
    ensures KeyOf(repr, Args([], [("a", x), ("b", y)])) == "a=" + repr(x) + ":b=" + repr(y)
  {
    SortTwoNames(x, y);
    SortedKeywordsKey(repr, x, y);
    assert KeyParts(repr, Args([], [("b", y), ("a", x)])) == KeyParts(repr, Args([], [("a", x), ("b", y)]));
  }

  /** Both orders of the keywords `a` and `b` sort to `a, b`. */
  lemma SortTwoNames<A>(x: A, y: A)
    ensures SortByName([("b", y), ("a", x)]) == [("a", x), ("b", y)]
    ensures SortByName([("a", x), ("b", y)]) == [("a", x), ("b", y)]
  {
    assert NameLess("a", "b") && !NameLess("b", "a");
    assert [("b", y), ("a", x)][1..] == [("a", x)] && [("a", x), ("b", y)][1..] == [("b", y)];
    assert [("a", x)][1..] == [] && [("b", y)][1..] == [];
    assert SortByName([("a", x)]) == [("a", x)];
    assert SortByName([("b", y)]) == [("b", y)];
    assert Insert(("b", y), [("a", x)]) == [("a", x)] + Insert(("b", y), []);
  }

  /** The parts of `f(a=1, b=2)`'s key, one `name=value` per keyword. */
  lemma SortedKeywordsParts<A>(repr: A -> string, x: A, y: A)
    requires SortByName([("a", x), ("b", y)]) == [("a", x), ("b", y)]
    ensures KeyParts(repr, Args([], [("a", x), ("b", y)])) == ["a=" + repr(x), "b=" + repr(y)]
  {
    assert "a" + "=" == "a=" && "b" + "=" == "b=";
  }

  /** The key of `f(a=1, b=2)`, whose keywords are already in name order. */
  lemma SortedKeywordsKey<A>(repr: A -> string, x: A, y: A)
    requires SortByName([("a", x), ("b", y)]) == [("a", x), ("b", y)]
    ensures KeyOf(repr, Args([], [("a", x), ("b", y)])) == "a=" + repr(x) + ":b=" + repr(y)
  {
    SortedKeywordsParts(repr, x, y);
    JoinTwo("a=" + repr(x), "b=" + repr(y));
    Regroup("a=" + repr(x), repr(y));
  }

  lemma Regroup(p: string, q: string)
    ensures p + ":" + ("b=" + q) == p + ":b=" + q
  {
    assert ":" + "b=" == ":b=";
  }

  /** Two parts are joined by one separator. */
  lemma JoinTwo(p: string, q: string)
    ensures Join([p, q]) == p + ":" + q
  {
    assert [p, q][1..] == [q];
  }

  /** The recency list of the usage example before its last call. */
  lemma UsageRecency(k1: Key, k2: Key, k3: Key)
    requires k1 != k2 && k1 != k3 && k2 != k3
    ensures LruCache.LastOccurrences([k1, k2, k3, k1]) == [k2, k3, k1]
  {
    var h := [k1, k2, k3, k1];
    assert h[1..] == [k2, k3, k1] && h[1..][1..] == [k3, k1] && h[1..][1..][1..] == [k1];
    assert [k1][1..] == [];
    assert LruCache.LastOccurrences([k1]) == [k1];
    assert LruCache.LastOccurrences([k3, k1]) == [k3, k1];
  }

  /** With `maxsize=2`, the calls 1, 2, 3, 1, 2 are five misses: each call
      evicts the key the next one needs. */
  lemma LruUsageExample<A, V>(u1: A, u2: A, u3: A, f: Args<A> -> V, repr: A -> string)
    requires repr(u1) != repr(u2) && repr(u1) != repr(u3) && repr(u2) != repr(u3)
    ensures var calls := [Args([u1], []), Args([u2], []), Args([u3], []), Args([u1], [])];
      var r := LruCache.RunCalls(LruCache.Empty(), 2, calls, f, repr);
      && r.Success?
      && var last := LruCache.Call(r.value, 2, Args([u2], []), f, repr);
      && last.Success?
      && last.value.event == Miss
  {
    var calls := [Args([u1], []), Args([u2], []), Args([u3], []), Args([u1], [])];
    LruCache.HitIffRecent(2, calls, Args([u2], []), f, repr);
    UsageHistory(u1, u2, u3, repr);
    UsageRecency(repr(u1), repr(u2), repr(u3));
    assert Seqs.LastN([repr(u2), repr(u3), repr(u1)], 2) == [repr(u3), repr(u1)];
    KeyOfSingle(repr, u2);
  }

  /** The keys of the usage example's calls are the single arguments' `repr`s. */
  lemma UsageHistory<A>(u1: A, u2: A, u3: A, repr: A -> string)
    ensures History([Args([u1], []), Args([u2], []), Args([u3], []), Args([u1], [])], repr)
      == [repr(u1), repr(u2), repr(u3), repr(u1)]
  {
    KeyOfSingle(repr, u1);
    KeyOfSingle(repr, u2);
    KeyOfSingle(repr, u3);
  }

  /** `get_weather("New York")` twice, then with `use_cache=False`: one miss,
      one hit, and the bypassed call leaves the statistics alone. */
  lemma ParametrizedUsageExample<A, V>(city: A, off: A, f: Args<A> -> V, repr: A -> string, truthy: A -> bool)
    requires !truthy(off)
    ensures var reg0 := Register(CacheRegistry.Empty, "get_weather", Parametrized("use_cache"));
      var c := Args([city], []);
      var s1 := ParametrizedCache.Call(map[], "use_cache", c, f, repr, truthy);
      var s2 := ParametrizedCache.Call(s1.state, "use_cache", c, f, repr, truthy);
      var s3 := ParametrizedCache.Call(s2.state, "use_cache", Args([city], [("use_cache", off)]), f, repr, truthy);
      var reg := Record(Record(Record(reg0, "get_weather", s1.event), "get_weather", s2.event), "get_weather", s3.event);
      && s1.event == Miss && s2.event == Hit && s3.event == Unrecorded
      && s2.value == s1.value && s3.value == f(c)
      && GetStats(reg, "get_weather") == Some(Stats(1, 1))
  {
    ParametrizedCache.PopSplit([], off, [], "use_cache");
    assert [] + [("use_cache", off)] + [] == [("use_cache", off)];
    var reg0 := Register(CacheRegistry.Empty, "get_weather", Parametrized("use_cache"));
    assert GetStats(reg0, "get_weather") == Some(Zero);
  }

  /** A wrapped function that does not call its own wrapper, called twice
      with the same argument through `memoize`: the registry counts one miss
      then one hit. (The example's `fibonacci` calls itself through the
      wrapper; see `FibonacciExample`.) */
  lemma MemoizeStatsExample<A, V>(name: string, n: A, f: Args<A> -> V, repr: A -> string)
    ensures var reg0 := Register(CacheRegistry.Empty, name, PolicyKind.Memoize);
      var c := Args([n], []);
      var s1 := Memoize.Call(map[], c, f, repr);
      var s2 := Memoize.Call(s1.state, c, f, repr);
      var reg := Record(Record(reg0, name, s1.event), name, s2.event);
      && s1.event == Miss && s2.event == Hit
      && GetStats(reg, name) == Some(Stats(1, 1))
      && Summarize(reg) == Summary(1, 1, 1)
  {
    var reg0 := Register(CacheRegistry.Empty, name, PolicyKind.Memoize);
    assert GetStats(reg0, name) == Some(Zero);
    assert Summarize(CacheRegistry.Empty) == Summary(0, 0, 0);
    assert Valid(CacheRegistry.Empty);
    SummaryAfterRegister(CacheRegistry.Empty, name, PolicyKind.Memoize);
    GetStatsKnown(reg0, name);
    var s1 := Memoize.Call(map[], Args([n], []), f, repr);
    SummaryAfterRecord(reg0, name, s1.event);
    SummaryAfterRecord(Record(reg0, name, s1.event), name, Hit);
  }

  // ---------------------------------------------------------------------------
  // The example's `fibonacci`, which calls itself through `memoize`

  /** `fibonacci(n)` without a cache: `n` up to 1, then the sum of the two
      before. */
  function Fib(n: int): int
    decreases n
  {
    if n <= 1 then n else Fib(n - 1) + Fib(n - 2)
  }

  /** What one call of the decorated `fibonacci` returns and leaves behind:
      its value, the wrapper's cache, and the events it reports to
      `update_stats`, in order. */
  datatype FibRun = FibRun(value: int, cache: map<int, int>, events: seq<Event>)

  /** Every cached value is the `fibonacci` of its argument. */
  predicate FibCache(cache: map<int, int>) {
    forall k :: k in cache ==> cache[k] == Fib(k)
  }

  /** One call of `fibonacci(n)` through `memoize`. The recursive calls go
      back through the wrapper: they read and extend the same cache and each
      reports its own hit or miss before the outer call stores its result and
      reports its miss. The cache is keyed by `n` itself, since `repr` tells
      Python integers apart. */
  function FibMemo(cache: map<int, int>, n: int): FibRun
    decreases n
  {
    if n in cache then FibRun(cache[n], cache, [Hit])
    else if n <= 1 then FibRun(n, cache[n := n], [Miss])
    else
      var a := FibMemo(cache, n - 1);
      var b := FibMemo(a.cache, n - 2);
      FibRun(a.value + b.value, b.cache[n := a.value + b.value], a.events + b.events + [Miss])
  }

  /** With a cache of correct values, the decorated `fibonacci` returns the
      undecorated value, keeps every cached value correct, and caches `n`. */
  lemma {:induction false} FibMemoCorrect(cache: map<int, int>, n: int)
    requires FibCache(cache)
    ensures var r := FibMemo(cache, n);
      r.value == Fib(n) && FibCache(r.cache) && n in r.cache
    decreases n
  {
    if n !in cache && n > 1 {
      FibMemoCorrect(cache, n - 1);
      var a := FibMemo(cache, n - 1);
      FibMemoCorrect(a.cache, n - 2);
    }
  }

  /** The cache holds exactly the arguments `0..n`. */
  ghost predicate KeysUpTo(cache: map<int, int>, n: int) {
    forall k :: k in cache <==> 0 <= k <= n
  }

  /** From an empty cache, `fibonacci(n)` for `n >= 2` misses once on each of
      `n, n - 1, ..., 0` and hits once on each `fibonacci(k - 2)` for
      `k = 3, ..., n`, leaving exactly the keys `0..n` cached. */
  lemma {:induction false} FibFromEmpty(n: int)
    requires n >= 2
    ensures var r := FibMemo(map[], n);
      && KeysUpTo(r.cache, n)
      && Count(r.events, Hit) == n - 2
      && Count(r.events, Miss) == n + 1
    decreases n
  {
    if n == 2 {
      var a := FibMemo(map[], 1);
      assert a.cache == map[1 := 1];
      var b := FibMemo(a.cache, 0);
      assert b.cache == map[1 := 1][0 := 0];
      assert FibMemo(map[], 2).events == [Miss] + [Miss] + [Miss];
    } else {
      FibFromEmpty(n - 1);
      var a := FibMemo(map[], n - 1);
      FibStep(n);
      CountAppend(a.events, [Hit], Hit);
      CountAppend(a.events, [Hit], Miss);
      CountAppend(a.events + [Hit], [Miss], Hit);
      CountAppend(a.events + [Hit], [Miss], Miss);
    }
  }

  /** The step for `n >= 3`: once `fibonacci(n - 1)` has cached `0..n - 1`,
      `fibonacci(n - 2)` is a hit and the outer call one more miss. */
  lemma FibStep(n: int)
    requires n >= 3
    requires KeysUpTo(FibMemo(map[], n - 1).cache, n - 1)
    ensures var a, r := FibMemo(map[], n - 1), FibMemo(map[], n);
      && KeysUpTo(r.cache, n)
      && r.events == a.events + [Hit] + [Miss]
  {
    var a := FibMemo(map[], n - 1);
    assert n - 2 in a.cache;
    var b := FibMemo(a.cache, n - 2);
    assert b.cache == a.cache && b.events == [Hit];
  }

  /** `fibonacci(n)` twice from an empty cache, `n >= 2`: both calls return
      the undecorated value; the first reports `n + 1` misses and `n - 2` hits
      from its own recursive calls, the second is a single hit. */
  lemma FibTwice(n: int)
    requires n >= 2
    ensures var first := FibMemo(map[], n);
      var second := FibMemo(first.cache, n);
      var both := first.events + second.events;
      && first.value == Fib(n) && second.value == Fib(n)
      && Count(first.events, Hit) == n - 2 && Count(first.events, Miss) == n + 1
      && second.events == [Hit]
      && Count(both, Hit) == n - 1 && Count(both, Miss) == n + 1
  {
    FibFromEmpty(n);
    FibMemoCorrect(map[], n);
    var first := FibMemo(map[], n);
    FibMemoCorrect(first.cache, n);
    var second := FibMemo(first.cache, n);
    CountAppend(first.events, second.events, Hit);
    CountAppend(first.events, second.events, Miss);
  }

  /** The module's usage example, `fibonacci(10)` twice: 55 both times; the
      events reported to `update_stats` add up to 8 hits and 11 misses after
      the first call and 9 hits and 11 misses after both (not one miss and one
      hit), which is what `get_stats` then reads for a freshly registered name
      (`CacheRegistry.RecordAllCounts`). */
  lemma FibonacciExample()
    ensures forall n :: n == 10 ==>
      var first := FibMemo(map[], n);
      var second := FibMemo(first.cache, n);
      var both := first.events + second.events;
      && first.value == 55 && second.value == 55
      && Count(first.events, Hit) == 8 && Count(first.events, Miss) == 11
      && Count(both, Hit) == 9 && Count(both, Miss) == 11
  {
    assert Fib(10) == 55;
    forall n | n == 10
      ensures var first := FibMemo(map[], n);
        var second := FibMemo(first.cache, n);
        var both := first.events + second.events;
        && first.value == 55 && second.value == 55
        && Count(first.events, Hit) == 8 && Count(first.events, Miss) == 11
        && Count(both, Hit) == 9 && Count(both, Miss) == 11
    {
      FibTwice(n);
    }
  }
}
