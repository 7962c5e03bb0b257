/**
 * `parametrized_cache(param_name)`: a `memoize` cache that a keyword argument
 * switches off per call. The control argument is removed from the keywords
 * before the key is built or the wrapped function is called; when it is
 * absent caching is on. Python truthiness of the control value is a
 * parameter (`truthy`).
 */
module ParametrizedCache {
  import opened Wrappers
  import opened CacheKey
  import opened CacheRegistry
  import Memoize

  type Cache<V> = map<Key, V>

  /** Where `name` first occurs among the keywords (`|kw|` when it does not). */
  function FirstNamed<A>(kw: seq<(string, A)>, name: string): (i: nat)
    ensures i <= |kw|
    ensures forall j :: 0 <= j < i ==> kw[j].0 != name
    ensures i < |kw| ==> kw[i].0 == name
  {
    if |kw| == 0 || kw[0].0 == name then 0 else 1 + FirstNamed(kw[1..], name)
  }

  /** `kwargs.pop(name, default)` without the default: the value of the
      keyword called `name`, if any, and the keywords without it. */
  function Pop<A>(kw: seq<(string, A)>, name: string): (r: (Option<A>, seq<(string, A)>))
    ensures r.0.None? <==> forall i :: 0 <= i < |kw| ==> kw[i].0 != name
    ensures r.0.None? ==> r.1 == kw
    ensures r.0.Some? ==> |r.1| == |kw| - 1 && (name, r.0.value) in kw
  {
    var i := FirstNamed(kw, name);
    if i == |kw| then (None, kw)
    else (Some(kw[i].1), kw[..i] + kw[i + 1..])
  }

  /** Popping a keyword that occurs once, wherever it stands, returns its value
      and the other keywords in order. */
  lemma PopSplit<A>(kw1: seq<(string, A)>, v: A, kw2: seq<(string, A)>, name: string)
    requires forall i :: 0 <= i < |kw1| ==> kw1[i].0 != name
    ensures Pop(kw1 + [(name, v)] + kw2, name) == (Some(v), kw1 + kw2)
  {
    var kw := kw1 + [(name, v)] + kw2;
    var i := FirstNamed(kw, name);
    assert kw[|kw1|].0 == name;
    forall j | 0 <= j < |kw1| ensures kw[j].0 != name {
      assert kw[j] == kw1[j];
    }
    assert kw[..i] == kw1 && kw[i + 1..] == kw2;
  }

  /** The call the wrapped function sees: the control keyword removed. */
  function Stripped<A>(c: Args<A>, name: string): Args<A> {
    Args(c.positional, Pop(c.keywords, name).1)
  }

  /** `kwargs.pop(param_name, True)` is truthy. */
  predicate Enabled<A>(c: Args<A>, name: string, truthy: A -> bool) {
    var control := Pop(c.keywords, name).0;
    control.None? || truthy(control.value)
  }

  /** One call through the `parametrized_cache` wrapper. */
  function Call<A, V>(cache: Cache<V>, name: string, c: Args<A>, f: Args<A> -> V, repr: A -> string, truthy: A -> bool)
    : (s: Step<Cache<V>, V>)
    ensures var sc := Stripped(c, name);
      && (!Enabled(c, name, truthy) ==> s.value == f(sc) && s.state == cache && s.event == Unrecorded && s.invocations == 1)
      && (Enabled(c, name, truthy) ==>
            && (s.event == Hit <==> KeyOf(repr, sc) in cache)
            && (s.event == Hit ==> s.value == cache[KeyOf(repr, sc)] && s.state == cache && s.invocations == 0)
            && (s.event == Miss ==> s.value == f(sc) && s.invocations == 1)
            && s.state.Keys == cache.Keys + {KeyOf(repr, sc)}
            && s.state[KeyOf(repr, sc)] == s.value)
  {
    var sc := Stripped(c, name);
    if !Enabled(c, name, truthy) then Step(f(sc), cache, Unrecorded, 1)
    else Memoize.Call(cache, sc, f, repr)
  }

  /** The key never contains the control keyword: no keyword part of the
      stripped call carries its name. */
  lemma ControlNotInKey<A>(c: Args<A>, name: string)
    requires DistinctNames(c.keywords)
    ensures forall i :: 0 <= i < |Stripped(c, name).keywords| ==> Stripped(c, name).keywords[i].0 != name
  {
    var kw := c.keywords;
    var i := FirstNamed(kw, name);
    var r := Pop(kw, name).1;
    if i < |kw| {
      forall j | 0 <= j < |r| ensures r[j].0 != name {
        if j < i {
          assert r[j] == kw[j];
        } else {
          assert r[j] == kw[j + 1];
        }
      }
    }
  }

  /** Passing a truthy control value behaves exactly like not passing it. */
  lemma TruthyControlIsDefault<A, V>(cache: Cache<V>, name: string, pos: seq<A>, kw1: seq<(string, A)>, v: A,
                                     kw2: seq<(string, A)>, f: Args<A> -> V, repr: A -> string, truthy: A -> bool)
    requires forall i :: 0 <= i < |kw1| ==> kw1[i].0 != name
    requires forall i :: 0 <= i < |kw2| ==> kw2[i].0 != name
    requires truthy(v)
    ensures Call(cache, name, Args(pos, kw1 + [(name, v)] + kw2), f, repr, truthy)
         == Call(cache, name, Args(pos, kw1 + kw2), f, repr, truthy)
  {
    PopSplit(kw1, v, kw2, name);
    assert Pop(kw1 + kw2, name).0.None?;
  }

  /** A falsy control value bypasses the cache: the wrapped function runs on
      the other arguments, and neither the cache nor the statistics change. */
  lemma FalsyControlBypasses<A, V>(cache: Cache<V>, reg: Registry, fname: string, name: string, pos: seq<A>,
                                   kw1: seq<(string, A)>, v: A, kw2: seq<(string, A)>,
                                   f: Args<A> -> V, repr: A -> string, truthy: A -> bool)
    requires forall i :: 0 <= i < |kw1| ==> kw1[i].0 != name
    requires !truthy(v)
    ensures var s := Call(cache, name, Args(pos, kw1 + [(name, v)] + kw2), f, repr, truthy);
      && s.value == f(Args(pos, kw1 + kw2))
      && s.state == cache
      && Record(reg, fname, s.event) == reg
  {
    PopSplit(kw1, v, kw2, name);
  }

  /** With caching on, the wrapper is `memoize` applied to the stripped call. */
  lemma EnabledIsMemoize<A, V>(cache: Cache<V>, name: string, c: Args<A>, f: Args<A> -> V, repr: A -> string,
                               truthy: A -> bool)
    requires Enabled(c, name, truthy)
    ensures Call(cache, name, c, f, repr, truthy) == Memoize.Call(cache, Stripped(c, name), f, repr)
  {
  }
}
