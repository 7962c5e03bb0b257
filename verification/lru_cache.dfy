/**
 * `lru_cache(maxsize)`: a map of results plus `usage_order`, the list of keys
 * from least to most recently used. A hit moves its key to the tail; a miss
 * appends the key and, when the map has grown past `maxsize`, evicts the key
 * at the head. Python's `list.remove` and `del` raise when the two parts are
 * out of step; the model keeps those failures.
 */
module LruCache {
  import opened Wrappers
  import opened Seqs
  import opened CacheKey
  import opened CacheRegistry

  datatype State<V> = State(cache: map<Key, V>, order: seq<Key>)

  /** `ValueError` from `usage_order.remove(key)`; `KeyError` from `del cache[oldest]`.
      Each carries the state the wrapper is left in: the exception leaves the
      wrapper in use with whatever it had already changed. */
  datatype Fault<V> = ValueError(st: State<V>) | KeyError(st: State<V>)

  function Empty<V>(): State<V> {
    State(map[], [])
  }

  /** The number of entries the cache can keep: a negative `maxsize` keeps none. */
  function Cap(maxsize: int): nat {
    if maxsize < 0 then 0 else maxsize
  }

  /** `usage_order` lists exactly the cached keys, each once, and the map
      respects the size bound. */
  predicate Inv<V>(st: State<V>, maxsize: int) {
    && NoDups(st.order)
    && (forall k :: k in st.order ==> k in st.cache)
    && (forall k :: k in st.cache ==> k in st.order)
    && |st.cache| <= Cap(maxsize)
  }

  /** Every entry of `m` is an entry of `m2`. */
  predicate Within<V(==)>(m: map<Key, V>, m2: map<Key, V>) {
    forall x :: x in m ==> x in m2 && m[x] == m2[x]
  }

  lemma InvOrderLength<V>(st: State<V>, maxsize: int)
    requires Inv(st, maxsize)
    ensures |st.order| == |st.cache| <= Cap(maxsize)
  {
    DistinctCard(st.order);
    assert Elems(st.order) == st.cache.Keys;
  }

  /** One call through the `lru_cache` wrapper. */
  function Call<A, V>(st: State<V>, maxsize: int, c: Args<A>, f: Args<A> -> V, repr: A -> string)
    : (r: Result<Step<State<V>, V>, Fault<V>>)
    ensures Inv(st, maxsize) ==> r.Success? && Inv(r.value.state, maxsize)
    ensures r.Success? ==> r.value.event != Unrecorded
    ensures r.Success? ==> (r.value.event == Hit <==> KeyOf(repr, c) in st.cache)
    ensures r.Success? && r.value.event == Hit ==>
              var k := KeyOf(repr, c);
              && r.value.value == st.cache[k]
              && r.value.invocations == 0
              && r.value.state.cache == st.cache
              && r.value.state.order == RemoveFirst(st.order, k) + [k]
    ensures r.Success? && r.value.event == Miss ==>
              r.value.value == f(c) && r.value.invocations == 1
    ensures Inv(st, maxsize) && KeyOf(repr, c) !in st.cache ==>
              var k, st' := KeyOf(repr, c), r.value.state;
              && st'.order == LastN(st.order + [k], Cap(maxsize))
              && Within(st'.cache, st.cache[k := f(c)])
  {
    var k := KeyOf(repr, c);
    if k in st.cache then HitStep(st, k) else MissStep(st, maxsize, k, f(c))
  }

  /** The hit path: move the key to the tail of `usage_order`. */
  function HitStep<V>(st: State<V>, k: Key): (r: Result<Step<State<V>, V>, Fault<V>>)
    requires k in st.cache
    ensures r.Success? <==> k in st.order
    ensures r.Failure? ==> r.error == ValueError(st)
    ensures r.Success? ==> r.value == Step(st.cache[k], State(st.cache, RemoveFirst(st.order, k) + [k]), Hit, 0)
    ensures forall maxsize :: Inv(st, maxsize) ==> r.Success? && Inv(r.value.state, maxsize)
  {
    if k !in st.order then Failure(ValueError(st))
    else
      var o := RemoveFirst(st.order, k) + [k];
      assert forall maxsize :: Inv(st, maxsize) ==> Inv(State(st.cache, o), maxsize) by {
        forall maxsize | Inv(st, maxsize) ensures Inv(State(st.cache, o), maxsize) {
          var rf := RemoveFirst(st.order, k);
          assert NoDups(o) by {
            forall i, j | 0 <= i < j < |o| ensures o[i] != o[j] {
              if j < |rf| {
                assert o[i] == rf[i] && o[j] == rf[j];
              } else {
                assert o[i] == rf[i];
              }
            }
          }
        }
      }
      Success(Step(st.cache[k], State(st.cache, o), Hit, 0))
  }

  /** The miss path: store, append, and evict the head once over `maxsize`. */
  function MissStep<V>(st: State<V>, maxsize: int, k: Key, v: V): (r: Result<Step<State<V>, V>, Fault<V>>)
    requires k !in st.cache
    ensures r.Success? ==> r.value.event == Miss && r.value.value == v && r.value.invocations == 1
    ensures r.Failure? <==> |st.cache[k := v]| > maxsize && (st.order + [k])[0] !in st.cache[k := v]
    ensures r.Failure? ==> r.error == KeyError(State(st.cache[k := v], (st.order + [k])[1..]))
    ensures Inv(st, maxsize) ==>
              && r.Success?
              && Inv(r.value.state, maxsize)
              && r.value.state.order == LastN(st.order + [k], Cap(maxsize))
              && Within(r.value.state.cache, st.cache[k := v])
  {
    var m := st.cache[k := v];
    var o := st.order + [k];
    if |m| > maxsize then
      var oldest := o[0];
      if oldest !in m then Failure(KeyError(State(m, o[1..])))
      else
        MissEvicts(st, maxsize, k, v);
        Success(Step(v, State(m - {oldest}, o[1..]), Miss, 1))
    else
      MissKeeps(st, maxsize, k, v);
      Success(Step(v, State(m, o), Miss, 1))
  }

  lemma AppendNewNoDups(o: seq<Key>, k: Key)
    requires NoDups(o) && k !in o
    ensures NoDups(o + [k])
  {
    var o' := o + [k];
    forall i, j | 0 <= i < j < |o'| ensures o'[i] != o'[j] {
      if j < |o| {
        assert o'[i] == o[i] && o'[j] == o[j];
      } else {
        assert o'[i] == o[i];
      }
    }
  }

  lemma MissKeeps<V>(st: State<V>, maxsize: int, k: Key, v: V)
    requires k !in st.cache && |st.cache[k := v]| <= maxsize
    ensures Inv(st, maxsize) ==>
              && Inv(State(st.cache[k := v], st.order + [k]), maxsize)
              && st.order + [k] == LastN(st.order + [k], Cap(maxsize))
  {
    if Inv(st, maxsize) {
      InvOrderLength(st, maxsize);
      AppendNewNoDups(st.order, k);
    }
  }

  lemma MissEvicts<V>(st: State<V>, maxsize: int, k: Key, v: V)
    requires k !in st.cache && |st.cache[k := v]| > maxsize
    ensures Inv(st, maxsize) ==>
              var o := st.order + [k];
              && o[0] in st.cache[k := v]
              && Inv(State(st.cache[k := v] - {o[0]}, o[1..]), maxsize)
              && o[1..] == LastN(o, Cap(maxsize))
  {
    if Inv(st, maxsize) {
      InvOrderLength(st, maxsize);
      var o := st.order + [k];
      var m := st.cache[k := v];
      AppendNewNoDups(st.order, k);
      var o' := o[1..];
      assert NoDups(o') by {
        forall i, j | 0 <= i < j < |o'| ensures o'[i] != o'[j] {
          assert o'[i] == o[i + 1] && o'[j] == o[j + 1];
        }
      }
      assert o[0] in m;
      forall x | x in o' ensures x in m - {o[0]} {
        var j :| 0 <= j < |o'| && o'[j] == x;
        assert o[j + 1] == x;
      }
      forall x | x in m - {o[0]} ensures x in o' {
        assert x in o;
        var j :| 0 <= j < |o| && o[j] == x;
        assert o'[j - 1] == x;
      }
      assert |m - {o[0]}| == |m| - 1;
    }
  }

  /** `cache.clear()` as the registry performs it: the map is emptied but
      `usage_order` is not. */
  function ClearAsWritten<V>(st: State<V>): (st': State<V>)
    ensures |st'.cache| == 0 && st'.order == st.order
  {
    State(map[], st.order)
  }

  /** Clearing both parts, as evidently intended: the cache is usable again. */
  function Clear<V>(st: State<V>): (st': State<V>)
    ensures forall maxsize :: Inv(st', maxsize)
    ensures |st'.cache| == 0
  {
    Empty()
  }

  // ---------------------------------------------------------------------------
  // Reference: the cache holds the `Cap(maxsize)` most recently used keys.

  /** The distinct keys of a history, ordered by their last use. */
  function LastOccurrences(h: seq<Key>): (r: seq<Key>)
    ensures NoDups(r)
    ensures forall x :: x in r <==> x in h
  {
    if |h| == 0 then []
    else if h[0] in h[1..] then LastOccurrences(h[1..])
    else
      var t := LastOccurrences(h[1..]);
      assert NoDups([h[0]] + t) by {
        var r := [h[0]] + t;
        forall i, j | 0 <= i < j < |r| ensures r[i] != r[j] {
          assert r[j] == t[j - 1];
          if i > 0 { assert r[i] == t[i - 1]; }
        }
      }
      [h[0]] + t
  }

  /** Using a key moves it to the end of the recency list. */
  lemma {:induction false} LastOccurrencesSnoc(h: seq<Key>, k: Key)
    ensures LastOccurrences(h + [k]) == RemoveFirst(LastOccurrences(h), k) + [k]
  {
    if |h| > 0 {
      var x, t := h[0], h[1..];
      assert (h + [k])[1..] == t + [k];
      LastOccurrencesSnoc(t, k);
      if x == k && x !in t {
        assert LastOccurrences(h) == [k] + LastOccurrences(t);
        assert RemoveFirst(LastOccurrences(t), k) == LastOccurrences(t);
      }
    }
  }

  /** The last `cap` entries of the recency list after using `k`, computed
      from the last `cap` entries before. */
  lemma RecencyStep(rl: seq<Key>, k: Key, cap: nat)
    requires NoDups(rl)
    ensures var o := LastN(rl, cap);
      LastN(RemoveFirst(rl, k) + [k], cap)
        == if k in o then RemoveFirst(o, k) + [k] else LastN(o + [k], cap)
  {
    var o := LastN(rl, cap);
    var p := rl[..|rl| - |o|];
    assert rl == p + o;
    if k in o {
      NoDupsDisjoint(p, o, k);
      RecencyStepRecent(p, o, k, cap);
    } else if k in p {
      RecencyStepEvicted(p, o, k, cap);
    } else {
      RecencyStepNew(p, o, k, cap);
    }
  }

  /** A recent key moves to the end of the kept window. */
  lemma RecencyStepRecent(p: seq<Key>, o: seq<Key>, k: Key, cap: nat)
    requires o == LastN(p + o, cap) && k in o && k !in p
    ensures LastN(RemoveFirst(p + o, k) + [k], cap) == RemoveFirst(o, k) + [k]
  {
    var o' := RemoveFirst(o, k) + [k];
    assert |o'| == |o|;
    RemoveFirstAppendBack(p, o, k);
    assert RemoveFirst(p + o, k) + [k] == p + o';
    if |p| > 0 {
      assert |o| == cap;
      LastNOfSuffix(p, o', cap);
    } else {
      assert p + o' == o';
    }
  }

  /** A key never used before enters the window, pushing out its head when full. */
  lemma RecencyStepNew(p: seq<Key>, o: seq<Key>, k: Key, cap: nat)
    requires o == LastN(p + o, cap) && k !in p && k !in o
    ensures LastN(RemoveFirst(p + o, k) + [k], cap) == LastN(o + [k], cap)
  {
    assert k !in p + o;
    assert RemoveFirst(p + o, k) + [k] == p + (o + [k]);
    if |p| > 0 {
      LastNOfSuffix(p, o + [k], cap);
    }
  }

  /** A key used before but already out of the window comes back at its end. */
  lemma RecencyStepEvicted(p: seq<Key>, o: seq<Key>, k: Key, cap: nat)
    requires o == LastN(p + o, cap) && k in p && k !in o
    ensures LastN(RemoveFirst(p + o, k) + [k], cap) == LastN(o + [k], cap)
  {
    RemoveFirstAppendFront(p, o, k);
    assert RemoveFirst(p + o, k) + [k] == RemoveFirst(p, k) + (o + [k]);
    LastNOfSuffix(RemoveFirst(p, k), o + [k], cap);
  }

  /** A sequence of calls from a given state; the first fault stops the run. */
  function RunCalls<A, V>(st: State<V>, maxsize: int, calls: seq<Args<A>>, f: Args<A> -> V, repr: A -> string)
    : Result<State<V>, Fault<V>>
    decreases |calls|
  {
    if |calls| == 0 then Success(st)
    else
      match RunCalls(st, maxsize, calls[..|calls| - 1], f, repr)
      case Failure(e) => Failure(e)
      case Success(prev) =>
        match Call(prev, maxsize, calls[|calls| - 1], f, repr)
        case Failure(e) => Failure(e)
        case Success(s) => Success(s.state)
  }

  /** From an empty cache, every run succeeds and leaves exactly the
      `Cap(maxsize)` most recently used distinct keys, least recent first. */
  lemma {:induction false} RunKeepsMostRecent<A, V>(maxsize: int, calls: seq<Args<A>>, f: Args<A> -> V, repr: A -> string)
    ensures var r := RunCalls(Empty(), maxsize, calls, f, repr);
      && r.Success?
      && Inv(r.value, maxsize)
      && r.value.order == LastN(LastOccurrences(History(calls, repr)), Cap(maxsize))
    decreases |calls|
  {
    if |calls| > 0 {
      var init, c := calls[..|calls| - 1], calls[|calls| - 1];
      RunKeepsMostRecent(maxsize, init, f, repr);
      var prev := RunCalls(Empty(), maxsize, init, f, repr).value;
      var h, k := History(init, repr), KeyOf(repr, c);
      HistoryLast(calls, repr);
      LastOccurrencesSnoc(h, k);
      CallFollowsRecency(prev, maxsize, LastOccurrences(h), c, f, repr);
    }
  }

  /** One call on a state that keeps the last `Cap(maxsize)` entries of a
      recency list keeps the last entries of the list after the call's use. */
  lemma CallFollowsRecency<A, V>(prev: State<V>, maxsize: int, rl: seq<Key>, c: Args<A>, f: Args<A> -> V,
                                 repr: A -> string)
    requires Inv(prev, maxsize) && NoDups(rl) && prev.order == LastN(rl, Cap(maxsize))
    ensures var r, k := Call(prev, maxsize, c, f, repr), KeyOf(repr, c);
      && r.Success?
      && Inv(r.value.state, maxsize)
      && r.value.state.order == LastN(RemoveFirst(rl, k) + [k], Cap(maxsize))
  {
    RecencyStep(rl, KeyOf(repr, c), Cap(maxsize));
  }

  /** Hence the next call is a hit exactly when its key is among the
      `Cap(maxsize)` most recently used distinct keys. */
  lemma HitIffRecent<A, V>(maxsize: int, calls: seq<Args<A>>, c: Args<A>, f: Args<A> -> V, repr: A -> string)
    ensures var r := RunCalls(Empty(), maxsize, calls, f, repr);
      && r.Success?
      && var s := Call(r.value, maxsize, c, f, repr);
      && s.Success?
      && (s.value.event == Hit <==> KeyOf(repr, c) in LastN(LastOccurrences(History(calls, repr)), Cap(maxsize)))
  {
    RunKeepsMostRecent(maxsize, calls, f, repr);
  }

  /** When the wrapped function depends only on the key, an LRU cache is
      transparent. */
  lemma Transparent<A, V>(st: State<V>, maxsize: int, c: Args<A>, g: Key -> V, repr: A -> string)
    requires Inv(st, maxsize)
    requires forall k :: k in st.cache ==> st.cache[k] == g(k)
    ensures var r := Call(st, maxsize, c, (a: Args<A>) => g(KeyOf(repr, a)), repr);
      && r.Success?
      && r.value.value == g(KeyOf(repr, c))
      && forall k :: k in r.value.state.cache ==> r.value.state.cache[k] == g(k)
  {
    var f := (a: Args<A>) => g(KeyOf(repr, a));
    var r := Call(st, maxsize, c, f, repr);
    var k := KeyOf(repr, c);
    if k !in st.cache {
      assert Within(r.value.state.cache, st.cache[k := f(c)]);
      forall x | x in r.value.state.cache ensures r.value.state.cache[x] == g(x) {
        assert x in st.cache[k := f(c)];
      }
    }
  }

  /** The registry's `clear_cache()` leaves `usage_order` behind. With
      `maxsize` 1: call with `a`, clear, call with `b` (the stale head `a`
      keeps the map below the bound), call with `c` -- the eviction then
      deletes `a`, which is no longer in the map, and Python raises
      `KeyError`. The wrapper is left holding both `b` and `c`, over its
      bound, and still serves hits from that state. */
  lemma ClearAsWrittenThenFails<A, V>(a: A, b: A, c: A, f: Args<A> -> V, repr: A -> string)
    requires repr(a) != repr(b) && repr(a) != repr(c) && repr(b) != repr(c)
    ensures var s1 := Call(Empty(), 1, Args([a], []), f, repr);
      && s1.Success?
      && var s2 := Call(ClearAsWritten(s1.value.state), 1, Args([b], []), f, repr);
      && s2.Success?
      && var s3 := Call(s2.value.state, 1, Args([c], []), f, repr);
      && s3.Failure? && s3.error.KeyError?
      && var left := s3.error.st;
      && left == State(map[repr(b) := f(Args([b], [])), repr(c) := f(Args([c], []))], [repr(b), repr(c)])
      && !Inv(left, 1)
      && var s4 := Call(left, 1, Args([b], []), f, repr);
      && s4.Success? && s4.value.event == Hit && s4.value.value == f(Args([b], []))
  {
    KeyOfSingle(repr, a);
    KeyOfSingle(repr, b);
    KeyOfSingle(repr, c);
    var ka, kb, kc := repr(a), repr(b), repr(c);
    var va, vb, vc := f(Args([a], [])), f(Args([b], [])), f(Args([c], []));
    assert Call(Empty(), 1, Args([a], []), f, repr).value.state == State(map[ka := va], [ka]);
    assert ClearAsWritten(State(map[ka := va], [ka])) == State(map[], [ka]);
    StaleHeadMiss(ka, kb, vb);
    assert Call(State(map[], [ka]), 1, Args([b], []), f, repr).value.state == State(map[kb := vb], [ka, kb]);
    StaleHeadEvicts(ka, kb, kc, vb, vc);
    assert map[kb := vb][kc := vc] == map[kb := vb, kc := vc];
    OverfullStillHits(kb, kc, vb, vc);
  }

  /** After the stale clear, a miss on a new key keeps the map at the bound
      and appends behind the stale head. */
  lemma StaleHeadMiss<V>(ka: Key, kb: Key, vb: V)
    ensures MissStep(State(map[], [ka]), 1, kb, vb) == Success(Step(vb, State(map[kb := vb], [ka, kb]), Miss, 1))
  {
    assert map[][kb := vb] == map[kb := vb] && |map[kb := vb]| == 1;
    assert [ka] + [kb] == [ka, kb];
  }

  /** The next miss goes over the bound and evicts the stale head, which is
      no longer in the map; the new key stays stored and the head is popped. */
  lemma StaleHeadEvicts<V>(ka: Key, kb: Key, kc: Key, vb: V, vc: V)
    requires ka != kb && ka != kc && kb != kc
    ensures MissStep(State(map[kb := vb], [ka, kb]), 1, kc, vc)
              == Failure(KeyError(State(map[kb := vb][kc := vc], [kb, kc])))
  {
    var m := map[kb := vb][kc := vc];
    assert m.Keys == {kb, kc};
    assert |m| == 2;
    assert ([ka, kb] + [kc])[1..] == [kb, kc];
  }

  /** The state the `KeyError` leaves holds two keys under `maxsize` 1, and a
      call with one of them is served from it. */
  lemma OverfullStillHits<V>(kb: Key, kc: Key, vb: V, vc: V)
    requires kb != kc
    ensures var st := State(map[kb := vb, kc := vc], [kb, kc]);
      && !Inv(st, 1)
      && HitStep(st, kb) == Success(Step(vb, State(st.cache, [kc, kb]), Hit, 0))
  {
    var st := State(map[kb := vb, kc := vc], [kb, kc]);
    assert st.cache.Keys == {kb, kc};
    assert [kb, kc][0] == kb && [kb, kc][1..] == [kc];
    assert RemoveFirst([kb, kc], kb) + [kb] == [kc, kb];
  }

  /** Clearing both parts, the cache behaves as new: every later run
      succeeds and keeps the most recently used keys. */
  lemma ClearThenRun<A, V>(st: State<V>, maxsize: int, calls: seq<Args<A>>, f: Args<A> -> V, repr: A -> string)
    ensures var r := RunCalls(Clear(st), maxsize, calls, f, repr);
      && r.Success?
      && Inv(r.value, maxsize)
      && r.value.order == LastN(LastOccurrences(History(calls, repr)), Cap(maxsize))
  {
    RunKeepsMostRecent(maxsize, calls, f, repr);
  }
}
