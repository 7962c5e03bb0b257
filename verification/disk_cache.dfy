/**
 * `disk_cache(directory, expiration)`: results live in one file per key on
 * disk; the wrapper also remembers, in memory, which file each key maps to.
 * The disk is a map from path to file; the file name a key hashes to is a
 * parameter (`fileOf`), as are the clock and the outcome of each write.
 * Values are `Option<V>` because a stored Python `None` is indistinguishable
 * from an absent file: both are misses.
 */
module DiskCache {
  import opened Wrappers
  import opened CacheKey
  import opened CacheRegistry

  /** What a cache file holds. */
  datatype Content<V> =
    | Pickled(value: Option<V>)  // a pickled result (`None` included)
    | Truncated                  // loading raises `PickleError` or `EOFError`
    | Unreadable                 // opening or loading raises anything else

  datatype CacheFile<V> = CacheFile(content: Content<V>, mtime: int)

  type Disk<V> = map<string, CacheFile<V>>

  /** The in-memory `cache_files` map and the directory's contents. */
  datatype State<V> = State(tracked: map<Key, string>, disk: Disk<V>)

  /** How `save_to_cache` ends: the file is written; `open` fails (an `IOError`,
      ignored); `pickle.dump` fails with a `PickleError` (ignored, the file
      is left truncated); or `pickle.dump` raises another error, which escapes. */
  datatype WriteOutcome = Written | OpenFailed | DumpFailed | DumpRaised

  /** An exception escaping the wrapper, with the state it leaves behind. */
  datatype Crash<V> = ReadCrash(state: State<V>) | WriteCrash(state: State<V>)

  /** `get_from_cache`: `None` for a missing, expired or truncated file. */
  function Load<V>(disk: Disk<V>, file: string, expiration: Option<int>, now: int): (r: Result<Option<V>, ()>)
    ensures file !in disk ==> r == Success(None)
    ensures r.Success? && r.value.Some? <==>
      && file in disk
      && (expiration.Some? ==> now - disk[file].mtime < expiration.value)
      && disk[file].content.Pickled?
      && disk[file].content.value.Some?
    ensures r.Success? && r.value.Some? ==> r.value == disk[file].content.value
    ensures r.Failure? <==>
      && file in disk
      && (expiration.Some? ==> now - disk[file].mtime < expiration.value)
      && disk[file].content.Unreadable?
  {
    if file !in disk then Success(None)
    else if expiration.Some? && now - disk[file].mtime >= expiration.value then Success(None)
    else match disk[file].content
      case Pickled(v) => Success(v)
      case Truncated => Success(None)
      case Unreadable => Failure(())
  }

  /** `save_to_cache`: the disk after writing `result` to `file` at time `now`. */
  function Save<V>(disk: Disk<V>, file: string, result: Option<V>, now: int, w: WriteOutcome): (d: Disk<V>)
    ensures d.Keys == if w == OpenFailed then disk.Keys else disk.Keys + {file}
    ensures w == Written ==> d[file] == CacheFile(Pickled(result), now)
    ensures w == DumpFailed || w == DumpRaised ==> d[file] == CacheFile(Truncated, now)
    ensures forall p :: p in disk && p != file ==> d[p] == disk[p]
  {
    match w
    case Written => disk[file := CacheFile(Pickled(result), now)]
    case OpenFailed => disk
    case _ => disk[file := CacheFile(Truncated, now)]
  }

  /** One call through the `disk_cache` wrapper. */
  function Call<A, V>(st: State<V>, expiration: Option<int>, now: int, c: Args<A>,
                      f: Args<A> -> Option<V>, repr: A -> string, fileOf: Key -> string, w: WriteOutcome)
    : (r: Result<Step<State<V>, Option<V>>, Crash<V>>)
    ensures var k := KeyOf(repr, c);
      var tracked := st.tracked[k := fileOf(k)];
      var loaded := Load(st.disk, fileOf(k), expiration, now);
      && (loaded.Failure? ==> r == Failure(ReadCrash(State(tracked, st.disk))))
      && (r.Success? && r.value.event == Hit <==> loaded.Success? && loaded.value.Some?)
      && (r.Success? ==> r.value.event != Unrecorded && r.value.state.tracked == tracked)
      && (r.Success? && r.value.event == Hit ==>
            r.value.value == loaded.value && r.value.state.disk == st.disk && r.value.invocations == 0)
      && (loaded.Success? && loaded.value.None? ==>
            && (r.Success? <==> w != DumpRaised)
            && (r.Success? ==> r.value.event == Miss && r.value.value == f(c) && r.value.invocations == 1)
            && var d := Save(st.disk, fileOf(k), f(c), now, w);
               if r.Success? then r.value.state.disk == d else r == Failure(WriteCrash(State(tracked, d))))
  {
    var k := KeyOf(repr, c);
    var file := fileOf(k);
    var tracked := st.tracked[k := file];
    match Load(st.disk, file, expiration, now)
    case Failure(_) => Failure(ReadCrash(State(tracked, st.disk)))
    case Success(Some(v)) => Success(Step(Some(v), State(tracked, st.disk), Hit, 0))
    case Success(None) =>
      var result := f(c);
      var disk' := Save(st.disk, file, result, now, w);
      if w == DumpRaised then Failure(WriteCrash(State(tracked, disk')))
      else Success(Step(result, State(tracked, disk'), Miss, 1))
  }

  /** `clear_cache` empties the in-memory `cache_files` map only; the files stay. */
  function Clear<V>(st: State<V>): (st': State<V>)
    ensures |st'.tracked| == 0 && st'.disk == st.disk
  {
    State(map[], st.disk)
  }

  /** A result that was written is read back by a later call with the same key
      while it has not expired: a hit with the same value and no invocation. */
  lemma RoundTrip<A, V>(st: State<V>, expiration: Option<int>, t: int, t2: int, c: Args<A>, c2: Args<A>,
                        f: Args<A> -> Option<V>, repr: A -> string, fileOf: Key -> string, w2: WriteOutcome)
    requires KeyOf(repr, c2) == KeyOf(repr, c)
    requires Load(st.disk, fileOf(KeyOf(repr, c)), expiration, t) == Success(None)
    requires f(c).Some?
    requires expiration.Some? ==> t2 - t < expiration.value
    ensures var r1 := Call(st, expiration, t, c, f, repr, fileOf, Written);
      && r1.Success? && r1.value.event == Miss
      && var r2 := Call(r1.value.state, expiration, t2, c2, f, repr, fileOf, w2);
         r2 == Success(Step(f(c), r1.value.state, Hit, 0))
  {
    var k := KeyOf(repr, c);
    var r1 := Call(st, expiration, t, c, f, repr, fileOf, Written);
    var s1 := r1.value.state;
    assert s1.disk[fileOf(k)] == CacheFile(Pickled(f(c)), t);
    assert Load(s1.disk, fileOf(k), expiration, t2) == Success(f(c));
    assert s1.tracked[k := fileOf(k)] == s1.tracked;
  }

  /** A `None` result is stored but never served: the next call misses again
      and runs the wrapped function again. */
  lemma NoneIsMiss<A, V>(st: State<V>, expiration: Option<int>, t: int, t2: int, c: Args<A>,
                         f: Args<A> -> Option<V>, repr: A -> string, fileOf: Key -> string, w2: WriteOutcome)
    requires Load(st.disk, fileOf(KeyOf(repr, c)), expiration, t) == Success(None)
    requires f(c).None?
    requires w2 != DumpRaised
    ensures var r1 := Call(st, expiration, t, c, f, repr, fileOf, Written);
      && r1.Success?
      && var r2 := Call(r1.value.state, expiration, t2, c, f, repr, fileOf, w2);
         r2.Success? && r2.value.event == Miss && r2.value.invocations == 1
  {
  }

  /** Once `expiration` seconds have passed since the write, the file is ignored. */
  lemma ExpiredIsMiss<A, V>(st: State<V>, e: int, t: int, t2: int, c: Args<A>,
                            f: Args<A> -> Option<V>, repr: A -> string, fileOf: Key -> string, w2: WriteOutcome)
    requires Load(st.disk, fileOf(KeyOf(repr, c)), Some(e), t) == Success(None)
    requires t2 - t >= e
    requires w2 != DumpRaised
    ensures var r1 := Call(st, Some(e), t, c, f, repr, fileOf, Written);
      && r1.Success?
      && var r2 := Call(r1.value.state, Some(e), t2, c, f, repr, fileOf, w2);
         r2.Success? && r2.value.event == Miss && r2.value.value == f(c)
  {
  }

  /** A failed write that is swallowed still returns the computed result, and
      the next call recomputes it. */
  lemma SwallowedWriteStillReturns<A, V>(st: State<V>, expiration: Option<int>, t: int, t2: int, c: Args<A>,
                                         f: Args<A> -> Option<V>, repr: A -> string, fileOf: Key -> string,
                                         w: WriteOutcome, w2: WriteOutcome)
    requires Load(st.disk, fileOf(KeyOf(repr, c)), expiration, t) == Success(None)
    requires w == OpenFailed || w == DumpFailed
    requires w2 != DumpRaised
    requires t <= t2
    ensures var r1 := Call(st, expiration, t, c, f, repr, fileOf, w);
      && r1.Success? && r1.value.value == f(c)
      && var r2 := Call(r1.value.state, expiration, t2, c, f, repr, fileOf, w2);
         r2.Success? && r2.value.event == Miss && r2.value.invocations == 1
  {
    var k := KeyOf(repr, c);
    var r1 := Call(st, expiration, t, c, f, repr, fileOf, w);
    assert Load(r1.value.state.disk, fileOf(k), expiration, t2) == Success(None);
  }

  /** What a call does depends on the disk alone: two states with the same
      files give the same outcome, event, value, invocations and disk, whatever
      `cache_files` held; only the tracked map can differ. */
  lemma TrackedIrrelevant<A, V>(st: State<V>, st2: State<V>, expiration: Option<int>, now: int, c: Args<A>,
                                f: Args<A> -> Option<V>, repr: A -> string, fileOf: Key -> string, w: WriteOutcome)
    requires st2.disk == st.disk
    ensures var r := Call(st, expiration, now, c, f, repr, fileOf, w);
      var r' := Call(st2, expiration, now, c, f, repr, fileOf, w);
      && (r.Success? <==> r'.Success?)
      && (r.Success? ==> r'.value.(state := r.value.state) == r.value
                         && r'.value.state.disk == r.value.state.disk)
      && (r.Failure? ==> (r'.error.ReadCrash? <==> r.error.ReadCrash?)
                         && r'.error.state.disk == r.error.state.disk)
  {
  }

  /** Clearing through the registry does not clear the disk: whatever a call
      would have returned before, it returns after, hit for hit. */
  lemma ClearKeepsDiskHits<A, V>(st: State<V>, expiration: Option<int>, now: int, c: Args<A>,
                                 f: Args<A> -> Option<V>, repr: A -> string, fileOf: Key -> string, w: WriteOutcome)
    ensures var r := Call(st, expiration, now, c, f, repr, fileOf, w);
      var r' := Call(Clear(st), expiration, now, c, f, repr, fileOf, w);
      && (r.Success? <==> r'.Success?)
      && (r.Success? ==> r'.value.event == r.value.event && r'.value.value == r.value.value
                          && r'.value.state.disk == r.value.state.disk)
  {
    TrackedIrrelevant(st, Clear(st), expiration, now, c, f, repr, fileOf, w);
  }
}
