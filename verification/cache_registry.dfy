/**
 * The statistics registry every caching decorator reports to: one entry per
 * function name, in registration order, each with a policy label and hit and
 * miss counters. The registry is a value threaded through the calls; the
 * process-wide singleton and its lock are not modelled.
 */
module CacheRegistry {
  import opened Wrappers
  import opened Seqs

  /** The policy label a decorator registers with. */
  datatype PolicyKind =
    | Memoize
    | Timed(seconds: int)
    | Lru(maxsize: int)
    | Disk(directory: string)
    | Parametrized(param: string)

  datatype Stats = Stats(hits: nat, misses: nat)

  const Zero := Stats(0, 0)

  datatype Entry = Entry(name: string, kind: PolicyKind, stats: Stats)

  /** Entries in insertion order, like the Python dict they model. */
  datatype Registry = Registry(entries: seq<Entry>)

  /** What a wrapped call reports: a hit, a miss, or nothing at all (a
      bypassed call, or one that raised before reaching `update_stats`). */
  datatype Event = Hit | Miss | Unrecorded

  /** The outcome of one call through a caching decorator: the value handed
      back, the policy's next state, the event to record and how many times
      the wrapped function ran. */
  datatype Step<S, V> = Step(value: V, state: S, event: Event, invocations: nat)

  /** The `summary` part of `get_stats()`. */
  datatype Summary = Summary(totalFunctions: nat, totalHits: nat, totalMisses: nat)

  const Empty := Registry([])

  /** `cache.clear()` as `clear_cache` performs it on a registered dict:
      every key is gone. */
  function ClearStore<K, V>(m: map<K, V>): (c: map<K, V>)
    ensures forall k :: k !in c
  {
    map[]
  }

  function Names(r: Registry): (ns: seq<string>)
    ensures |ns| == |r.entries|
    ensures forall i :: 0 <= i < |ns| ==> ns[i] == r.entries[i].name
  {
    seq(|r.entries|, i requires 0 <= i < |r.entries| => r.entries[i].name)
  }

  /** One entry per name. */
  predicate Valid(r: Registry) {
    NoDups(Names(r))
  }

  /** Position of `name`, or -1. */
  function IndexOf(es: seq<Entry>, name: string): (i: int)
    ensures -1 <= i < |es|
    ensures 0 <= i ==> es[i].name == name
    ensures i == -1 <==> forall k :: 0 <= k < |es| ==> es[k].name != name
    ensures 0 <= i ==> forall k :: 0 <= k < i ==> es[k].name != name
  {
    if |es| == 0 then -1
    else if es[0].name == name then 0
    else
      var j := IndexOf(es[1..], name);
      if j < 0 then -1 else j + 1
  }

  /** `get_stats(name)`: the record, or nothing (`{}`) for an unknown name. */
  function GetStats(r: Registry, name: string): Option<Stats> {
    var i := IndexOf(r.entries, name);
    if i < 0 then None else Some(r.entries[i].stats)
  }

  lemma GetStatsKnown(r: Registry, name: string)
    ensures GetStats(r, name).Some? <==> name in Names(r)
  {
    var i := IndexOf(r.entries, name);
    if name in Names(r) {
      var k :| 0 <= k < |Names(r)| && Names(r)[k] == name;
      assert r.entries[k].name == name;
    }
  }

  /** `register`: (re)sets the name's counters to zero; a new name is added at
      the end, a known one is overwritten in place. Nothing else changes. */
  function Register(r: Registry, name: string, kind: PolicyKind): (r': Registry)
    ensures GetStats(r', name) == Some(Zero)
    ensures forall n :: n != name ==> GetStats(r', n) == GetStats(r, n)
    ensures name in Names(r) ==> |r'.entries| == |r.entries|
    ensures name !in Names(r) ==> |r'.entries| == |r.entries| + 1
    ensures Valid(r) ==> Valid(r')
  {
    var i := IndexOf(r.entries, name);
    GetStatsKnown(r, name);
    if 0 <= i then
      SetEntry(r, i, Entry(name, kind, Zero));
      Registry(r.entries[i := Entry(name, kind, Zero)])
    else
      var r' := Registry(r.entries + [Entry(name, kind, Zero)]);
      assert forall n :: n != name ==> IndexOf(r'.entries, n) == IndexOf(r.entries, n) by {
        forall n | n != name ensures IndexOf(r'.entries, n) == IndexOf(r.entries, n) {
          IndexOfAppend(r.entries, Entry(name, kind, Zero), n);
        }
      }
      IndexOfAppend(r.entries, Entry(name, kind, Zero), name);
      assert Names(r') == Names(r) + [name];
      r'
  }

  /** `update_stats(name, hit)`: no-op for an unknown name, otherwise exactly
      one of the two counters goes up by one. */
  function UpdateStats(r: Registry, name: string, hit: bool): (r': Registry)
    ensures GetStats(r, name).None? ==> r' == r
    ensures GetStats(r, name).Some? ==>
              var s := GetStats(r, name).value;
              GetStats(r', name) == Some(if hit then Stats(s.hits + 1, s.misses) else Stats(s.hits, s.misses + 1))
    ensures forall n :: n != name ==> GetStats(r', n) == GetStats(r, n)
    ensures Names(r') == Names(r)
  {
    var i := IndexOf(r.entries, name);
    if i < 0 then r
    else
      var s := r.entries[i].stats;
      var e := r.entries[i].(stats := if hit then Stats(s.hits + 1, s.misses) else Stats(s.hits, s.misses + 1));
      SetEntry(r, i, e);
      Registry(r.entries[i := e])
  }

  /** The registry update a wrapped call performs for its event. */
  function Record(r: Registry, name: string, e: Event): (r': Registry)
    ensures Names(r') == Names(r)
    ensures e == Unrecorded ==> r' == r
    ensures forall n :: GetStats(r, n).Some? ==>
              && GetStats(r', n).Some?
              && GetStats(r', n).value.hits >= GetStats(r, n).value.hits
              && GetStats(r', n).value.misses >= GetStats(r, n).value.misses
  {
    match e
    case Hit => UpdateStats(r, name, true)
    case Miss => UpdateStats(r, name, false)
    case Unrecorded => r
  }

  /** The registry after a wrapped function's calls report `events`, in order. */
  function RecordAll(r: Registry, name: string, events: seq<Event>): Registry
    decreases |events|
  {
    if |events| == 0 then r else Record(RecordAll(r, name, events[..|events| - 1]), name, events[|events| - 1])
  }

  /** How many of `events` are `e`. */
  function Count(events: seq<Event>, e: Event): nat
    decreases |events|
  {
    if |events| == 0 then 0 else Count(events[..|events| - 1], e) + (if events[|events| - 1] == e then 1 else 0)
  }

  /** For a registered name, the counters grow by the number of hits and
      misses reported; unrecorded events add nothing. */
  lemma {:induction false} RecordAllCounts(r: Registry, name: string, events: seq<Event>, hits: nat, misses: nat)
    requires GetStats(r, name) == Some(Stats(hits, misses))
    ensures GetStats(RecordAll(r, name, events), name)
              == Some(Stats(hits + Count(events, Hit), misses + Count(events, Miss)))
    decreases |events|
  {
    if |events| > 0 {
      var prefix, e := events[..|events| - 1], events[|events| - 1];
      RecordAllCounts(r, name, prefix, hits, misses);
      RecordOneCounts(RecordAll(r, name, prefix), name, e, hits + Count(prefix, Hit), misses + Count(prefix, Miss));
    }
  }

  lemma RecordOneCounts(r: Registry, name: string, e: Event, hits: nat, misses: nat)
    requires GetStats(r, name) == Some(Stats(hits, misses))
    ensures GetStats(Record(r, name, e), name)
              == Some(Stats(hits + (if e == Hit then 1 else 0), misses + (if e == Miss then 1 else 0)))
  {
  }

  /** Counting distributes over concatenation. */
  lemma {:induction false} CountAppend(a: seq<Event>, b: seq<Event>, e: Event)
    ensures Count(a + b, e) == Count(a, e) + Count(b, e)
    decreases |b|
  {
    if |b| > 0 {
      assert (a + b)[..|a + b| - 1] == a + b[..|b| - 1];
      CountAppend(a, b[..|b| - 1], e);
    } else {
      assert a + b == a;
    }
  }

  /** `clear_cache(name)` / `clear_cache()`: counters back to zero for the
      name (or for every name); an unknown name changes nothing. */
  function ClearCache(r: Registry, name: Option<string>): (r': Registry)
    ensures Names(r') == Names(r)
    ensures name.None? ==> forall n :: n in Names(r) ==> GetStats(r', n) == Some(Zero)
    ensures name.Some? && name.value in Names(r) ==>
              && GetStats(r', name.value) == Some(Zero)
              && forall n :: n != name.value ==> GetStats(r', n) == GetStats(r, n)
    ensures name.Some? && name.value !in Names(r) ==> r' == r
  {
    GetStatsKnown(r, name.GetOr(""));
    match name
    case Some(n) =>
      var i := IndexOf(r.entries, n);
      if i < 0 then r
      else
        var e := r.entries[i].(stats := Zero);
        SetEntry(r, i, e);
        Registry(r.entries[i := e])
    case None =>
      var r' := Registry(ResetAll(r.entries));
      assert Names(r') == Names(r);
      assert forall m :: IndexOf(r'.entries, m) == IndexOf(r.entries, m) by {
        forall m ensures IndexOf(r'.entries, m) == IndexOf(r.entries, m) {
          IndexOfSameNames(r.entries, r'.entries, m);
        }
      }
      assert forall n :: n in Names(r) ==> GetStats(r', n) == Some(Zero) by {
        forall n | n in Names(r) ensures GetStats(r', n) == Some(Zero) {
          GetStatsKnown(r, n);
        }
      }
      r'
  }

  function ResetAll(es: seq<Entry>): (es': seq<Entry>)
    ensures |es'| == |es|
    ensures forall i :: 0 <= i < |es| ==> es'[i] == es[i].(stats := Zero)
  {
    seq(|es|, i requires 0 <= i < |es| => es[i].(stats := Zero))
  }

  /** Sum of the hit (or miss) counters over all entries. */
  function Total(es: seq<Entry>, hits: bool): nat {
    if |es| == 0 then 0
    else (if hits then es[0].stats.hits else es[0].stats.misses) + Total(es[1..], hits)
  }

  /** `get_stats()` summary. */
  function Summarize(r: Registry): Summary {
    Summary(|r.entries|, Total(r.entries, true), Total(r.entries, false))
  }

  // ---------------------------------------------------------------------------
  // Index bookkeeping

  lemma {:induction false} IndexOfUnchanged(es: seq<Entry>, i: int, e: Entry, n: string)
    requires 0 <= i < |es| && e.name == es[i].name
    ensures IndexOf(es[i := e], n) == IndexOf(es, n)
  {
    if i > 0 {
      assert es[i := e][1..] == es[1..][i - 1 := e];
      IndexOfUnchanged(es[1..], i - 1, e, n);
    }
  }

  /** Overwriting the entry at position `i` with one of the same name keeps
      every name's position; only the overwritten name's record changes. */
  lemma SetEntry(r: Registry, i: int, e: Entry)
    requires 0 <= i < |r.entries| && e.name == r.entries[i].name
    ensures var r' := Registry(r.entries[i := e]);
      && Names(r') == Names(r)
      && (forall n :: IndexOf(r'.entries, n) == IndexOf(r.entries, n))
      && (forall n :: n != e.name ==> GetStats(r', n) == GetStats(r, n))
      && (IndexOf(r.entries, e.name) == i ==> GetStats(r', e.name) == Some(e.stats))
  {
    var r' := Registry(r.entries[i := e]);
    forall n ensures IndexOf(r'.entries, n) == IndexOf(r.entries, n) {
      IndexOfUnchanged(r.entries, i, e, n);
    }
    assert Names(r') == Names(r);
  }

  lemma {:induction false} IndexOfSameNames(es: seq<Entry>, es': seq<Entry>, n: string)
    requires |es| == |es'|
    requires forall k :: 0 <= k < |es| ==> es'[k].name == es[k].name
    ensures IndexOf(es', n) == IndexOf(es, n)
  {
    if |es| > 0 {
      IndexOfSameNames(es[1..], es'[1..], n);
    }
  }

  lemma {:induction false} IndexOfAppend(es: seq<Entry>, e: Entry, n: string)
    requires forall k :: 0 <= k < |es| ==> es[k].name != e.name
    ensures n != e.name ==> IndexOf(es + [e], n) == IndexOf(es, n)
    ensures n == e.name ==> IndexOf(es + [e], n) == |es|
  {
    if |es| > 0 {
      assert (es + [e])[1..] == es[1..] + [e];
      IndexOfAppend(es[1..], e, n);
    }
  }

  // ---------------------------------------------------------------------------
  // Summary totals

  lemma {:induction false} TotalUpdate(es: seq<Entry>, i: int, e: Entry, hits: bool)
    requires 0 <= i < |es|
    ensures Total(es[i := e], hits) + (if hits then es[i].stats.hits else es[i].stats.misses)
         == Total(es, hits) + (if hits then e.stats.hits else e.stats.misses)
  {
    if i > 0 {
      assert es[i := e][1..] == es[1..][i - 1 := e];
      TotalUpdate(es[1..], i - 1, e, hits);
    }
  }

  lemma {:induction false} TotalAppend(es: seq<Entry>, e: Entry, hits: bool)
    ensures Total(es + [e], hits) == Total(es, hits) + (if hits then e.stats.hits else e.stats.misses)
  {
    if |es| > 0 {
      assert (es + [e])[1..] == es[1..] + [e];
      TotalAppend(es[1..], e, hits);
    }
  }

  lemma {:induction false} TotalReset(es: seq<Entry>, hits: bool)
    ensures Total(ResetAll(es), hits) == 0
  {
    if |es| > 0 {
      assert ResetAll(es)[1..] == ResetAll(es[1..]);
      TotalReset(es[1..], hits);
    }
  }

  /** Recording an event on a registered name adds exactly one to the matching
      summary total; a bypassed call or an unknown name changes no total. */
  lemma SummaryAfterRecord(r: Registry, name: string, e: Event)
    ensures var before, after := Summarize(r), Summarize(Record(r, name, e));
      && after.totalFunctions == before.totalFunctions
      && after.totalHits == before.totalHits + (if e == Hit && name in Names(r) then 1 else 0)
      && after.totalMisses == before.totalMisses + (if e == Miss && name in Names(r) then 1 else 0)
  {
    GetStatsKnown(r, name);
    var i := IndexOf(r.entries, name);
    if e != Unrecorded && 0 <= i {
      var r' := Record(r, name, e);
      var s := r.entries[i].stats;
      var en := r.entries[i].(stats := if e == Hit then Stats(s.hits + 1, s.misses) else Stats(s.hits, s.misses + 1));
      assert r'.entries == r.entries[i := en];
      TotalUpdate(r.entries, i, en, true);
      TotalUpdate(r.entries, i, en, false);
    }
  }

  /** After `clear_cache()` every summary total is zero and no function is forgotten. */
  lemma SummaryAfterClearAll(r: Registry)
    ensures Summarize(ClearCache(r, None)) == Summary(|r.entries|, 0, 0)
  {
    TotalReset(r.entries, true);
    TotalReset(r.entries, false);
  }

  /** Registering a new name adds one function and no hits or misses;
      re-registering a known name drops its old counts from the totals. */
  lemma SummaryAfterRegister(r: Registry, name: string, kind: PolicyKind)
    requires Valid(r)
    ensures var before, after := Summarize(r), Summarize(Register(r, name, kind));
      && (name !in Names(r) ==> after == Summary(before.totalFunctions + 1, before.totalHits, before.totalMisses))
      && (name in Names(r) ==>
            var prior := GetStats(r, name).value;
            && after.totalFunctions == before.totalFunctions
            && after.totalHits + prior.hits == before.totalHits
            && after.totalMisses + prior.misses == before.totalMisses)
  {
    GetStatsKnown(r, name);
    var i := IndexOf(r.entries, name);
    var en := Entry(name, kind, Zero);
    if 0 <= i {
      assert Register(r, name, kind).entries == r.entries[i := en];
      TotalUpdate(r.entries, i, en, true);
      TotalUpdate(r.entries, i, en, false);
    } else {
      assert Register(r, name, kind).entries == r.entries + [en];
      TotalAppend(r.entries, en, true);
      TotalAppend(r.entries, en, false);
    }
  }

  /** `total_functions` is the number of distinct registered names. */
  lemma TotalFunctionsIsNameCount(r: Registry)
    requires Valid(r)
    ensures Summarize(r).totalFunctions == |Elems(Names(r))|
  {
    DistinctCard(Names(r));
  }
}
