# Caching decorators and drill-down matrices, in Dafny

This project models two components of the dashboard toolkit.

**The function-result caching layer** (`performanceUtils.py`):
- the cache key built from a call's arguments;
- the `CacheRegistry` statistics registry (`register`, `update_stats`, `clear_cache`, `get_stats`);
- the five decorators `memoize`, `timed_cache`, `lru_cache`, `disk_cache` and `parametrized_cache`.

Each decorator is a pure transition: one wrapped call takes the policy's state and returns a `Step` holding:
- the value handed back;
- the next state;
- the event to report to the registry (`Hit`, `Miss`, or `Unrecorded` when `update_stats` is never reached);
- how many times the wrapped function ran.

Other inputs are explicit parameters:
- the wrapped function is a total function of the call's arguments;
- Python's `repr` of an argument is an opaque function;
- the clock is an integer;
- for the disk, so are the file-name hash and the outcome of each write.

**The drill-down matrices** (`streamlit_dash.py`):
- `powerbi_matrix` shows a flat, pre-order list of group rows. Each row has a `level` and an `expand_button` of `"+"`, `"-"` or `""`. Its callback expands or collapses one row, expands everything, or collapses everything.
- The pandas filter-group-aggregate step is a collaborator `subgroups`. Given the conditions of a row, it returns the next level's rows in frame order.
- `editable_matrix` toggles one level of detail per row and keeps the expanded row ids as strings in a separate store.

Modules, one per file:
- `Wrappers`: `Option` and `Result`.
- `Seqs`: duplicate-free sequences, remove-first, last-n.
- `CacheKey`, `CacheRegistry`, `Memoize`, `TimedCache`, `LruCache`, `DiskCache`, `ParametrizedCache`.
- `CacheScenarios`: the module's own usage examples as lemmas.
- `MatrixRows`: the row record, `prepare_row_data`, the well-formed shape.
- `DrillMatrix`: the `powerbi_matrix` callback.
- `EditableMatrix`: the `editable_matrix` callback.

Where the code and the written description of these components differ, the model follows the code:
- The table's first rows are grouped by every `group_by` column (`streamlit_dash.py:1063`), not only by the first one. So two top-level rows can share their first column's value, and expanding either shows the same subgroups.
- The comment at `performanceUtils.py:423` says the last call of the LRU example hits. With `maxsize=2` the calls 1, 2, 3, 1 evict key 2, so the fifth call misses.
- A fresh `timed_cache` hit still runs the wrapped function, to time it, and discards the result (`performanceUtils.py:158-159`). The model keeps this: one invocation on every call.
- `clear_cache` on a `disk_cache` empties only the in-memory `cache_files` map. The files stay, and later calls still hit them.
- Expand-all leaves `"+"` on rows whose subtree it shows. This is the second finding below. `DrillMatrix.Handle` is the callback as written; `DrillMatrix.HandleFixed` is the same callback with the corrected build.
- The usage example's `fibonacci` calls itself through its own `memoize` wrapper. So `fibonacci(10)` twice reports 9 hits and 11 misses, not one miss and one hit as its comments suggest.

## Model

| member | source | states |
|---|---|---|
| CacheKey.SortByName | performanceUtils.py:109 | `sorted(kwargs.items())` is a permutation of the keyword arguments and, their names being distinct, strictly increasing by name |
| CacheKey.SortedUnique | performanceUtils.py:109 | two name-sorted keyword lists with the same elements are equal, so sorting fixes one order |
| CacheKey.KeyParts | performanceUtils.py:108-109 | the key parts are the positional `repr`s in call order, then `name=repr(value)` for each keyword in name order |
| CacheKey.KeywordOrderIrrelevant | performanceUtils.py:108-110 | calls with the same positional arguments and the same keyword arguments, in any order, get the same key |
| CacheKey.KeyPartsDeterminePositional | performanceUtils.py:108-110 | equal key-part lists with the same number of keywords have equal positional `repr`s position by position |
| CacheKey.PositionalSwapChangesParts | performanceUtils.py:108 | swapping two positional arguments whose `repr`s differ changes the key parts |
| CacheRegistry.GetStatsKnown | performanceUtils.py:63-66 | `get_stats(name)` returns a record exactly for registered names, and `{}` otherwise |
| CacheRegistry.Register | performanceUtils.py:30-41 | `register` sets the name's counters to zero, adds an unknown name and overwrites a known one in place, changes no other name's record, and keeps one entry per name |
| CacheRegistry.UpdateStats | performanceUtils.py:43-50 | `update_stats` does nothing for an unregistered name; otherwise it adds one to exactly the hit or the miss counter and changes no other record |
| CacheRegistry.Record | performanceUtils.py:43-50 | the registry update of one wrapped call: counters never decrease, and a call that never reaches `update_stats` changes nothing |
| CacheRegistry.ClearCache | performanceUtils.py:52-61 | clearing one known name zeroes its counters only; clearing an unknown name changes nothing; clearing all zeroes every counter and forgets no name |
| CacheRegistry.SummaryAfterRecord | performanceUtils.py:63-75 | a recorded hit or miss adds exactly one to the matching summary total, and only for a registered name |
| CacheRegistry.SummaryAfterClearAll | performanceUtils.py:57-75 | after `clear_cache()` the summary shows every function with zero hits and zero misses |
| CacheRegistry.SummaryAfterRegister | performanceUtils.py:30-41 | registering a new name adds one function and no counts; re-registering drops that name's old counts from the totals |
| CacheRegistry.TotalFunctionsIsNameCount | performanceUtils.py:70 | `total_functions` is the number of distinct registered names |
| Memoize.Call | performanceUtils.py:106-125 | a call hits exactly when its key is cached, then returns the stored value without running the function; otherwise it runs the function once, stores and returns the result, and keeps every other entry |
| Memoize.CallTwice | performanceUtils.py:113-125 | the same call twice: the second is a hit with the first one's value, and the function ran at most once |
| Memoize.RunKeys | performanceUtils.py:113-122 | after any run from an empty cache, the cache holds exactly the keys of the run |
| Memoize.RunValues | performanceUtils.py:117-122 | each cached key holds the result of the first call with that key |
| Memoize.RunsOncePerKey | performanceUtils.py:113-125 | over a run, the wrapped function runs exactly once per distinct key |
| Memoize.RunResults | performanceUtils.py:113-125 | every call of a run returns the result of the first call with the same key |
| Memoize.RunEvents | performanceUtils.py:113-123 | a call of a run is a hit exactly when an earlier call had the same key |
| Memoize.Transparent | performanceUtils.py:106-125 | when the function depends on its arguments only through the key, every call returns the unwrapped result and the cache stays consistent |
| Memoize.ClearThenMiss | performanceUtils.py:52-61 | after `clear_cache` empties the dict, the next call misses, runs the function once and leaves only its key cached |
| Memoize.RunInvocations | performanceUtils.py:113-122 | over a run from an empty cache, the function ran exactly as often as there are cached entries |
| TimedCache.Call | performanceUtils.py:145-170 | a hit happens exactly for a cached entry with `now - stored < seconds` and returns the stored value; every call runs the function once; a miss stores `(result, now)`; other entries are untouched |
| TimedCache.FreshWindow | performanceUtils.py:151-167 | after a miss at time `t`, a call with the same key at `t2` hits exactly while `t2 - t < seconds`, returning the value computed at `t` |
| TimedCache.Transparent | performanceUtils.py:145-170 | when the function depends only on the key, a timed cache returns the unwrapped result at any time |
| TimedCache.ClearThenMiss | performanceUtils.py:52-61 | after `clear_cache`, the next call misses at any time and leaves only its fresh stamp |
| LruCache.InvOrderLength | performanceUtils.py:189-190 | under the invariant, `usage_order` is as long as the map and within the bound |
| LruCache.Call | performanceUtils.py:194-222 | under the invariant a call never raises and keeps the invariant; a hit moves its key to the tail without running the function; a miss runs it once and leaves the last `maxsize` keys of the extended order |
| LruCache.HitStep | performanceUtils.py:201-207 | the hit path raises `ValueError` exactly when the key is missing from `usage_order`, leaving the state as it was; otherwise it moves the key to the tail |
| LruCache.MissStep | performanceUtils.py:209-222 | the miss path stores the result and appends the key; once over `maxsize` it pops the head and deletes it from the map, keeping the invariant; the deletion raises `KeyError` exactly when the popped head is not in the map, and the fault carries the state left behind, with the new entry stored and the head already popped |
| LruCache.MissKeeps | performanceUtils.py:210-215 | a miss within the bound appends the key and keeps the invariant |
| LruCache.MissEvicts | performanceUtils.py:216-221 | a miss over the bound evicts the head of `usage_order`, which is always a cached key, and the order becomes the last `maxsize` keys |
| LruCache.LastOccurrences | performanceUtils.py:201-204 | the recency list of a key history: each used key once, and nothing else |
| LruCache.LastOccurrencesSnoc | performanceUtils.py:203-204 | using a key moves it to the end of the recency list |
| LruCache.RecencyStep | performanceUtils.py:201-219 | the last `maxsize` entries of the recency list after a use follow from the last `maxsize` entries before it, as the hit and miss paths compute them |
| LruCache.RunKeepsMostRecent | performanceUtils.py:189-222 | from an empty cache every run succeeds, keeps the invariant, and leaves `usage_order` equal to the `maxsize` most recently used distinct keys, least recent first |
| LruCache.HitIffRecent | performanceUtils.py:201-217 | the next call hits exactly when its key is among the `maxsize` most recently used distinct keys |
| LruCache.Transparent | performanceUtils.py:194-222 | when the function depends only on the key, an LRU cache returns the unwrapped result |
| LruCache.ClearAsWritten | performanceUtils.py:52-59 | the registry's `clear_cache` empties the LRU dict and leaves `usage_order` as it was |
| LruCache.Clear | performanceUtils.py:189-190 | resetting both the dict and `usage_order` gives an empty cache that satisfies the invariant for every bound |
| LruCache.ClearAsWrittenThenFails | performanceUtils.py:52-59 | clearing through the registry empties the map but not `usage_order`; with `maxsize=1`, a later eviction then raises `KeyError` and leaves two entries in a one-entry cache, which later calls still hit |
| LruCache.OverfullStillHits | performanceUtils.py:201-207 | in that over-full state, a call with the first key is a hit that moves it to the tail |
| LruCache.ClearThenRun | performanceUtils.py:189-222 | clearing both the map and `usage_order` makes the cache behave as new |
| DiskCache.Load | performanceUtils.py:260-273 | a file that is missing, expired, truncated or holds `None` reads as a miss; another read error escapes; otherwise the stored value is returned |
| DiskCache.Save | performanceUtils.py:275-281 | a write stores `(result, now)`, or leaves the disk unchanged when `open` fails, or leaves a truncated file when pickling fails; other files are untouched |
| DiskCache.Call | performanceUtils.py:284-300 | a call records the key's file, hits exactly when the file loads a value, and otherwise runs the function, saves, and returns the result unless the write raises an unexpected error |
| DiskCache.RoundTrip | performanceUtils.py:284-300 | a written result is read back as a hit, with no invocation, while it has not expired |
| DiskCache.NoneIsMiss | performanceUtils.py:288-289 | a stored `None` is never served: the next call runs the function again |
| DiskCache.ExpiredIsMiss | performanceUtils.py:265-267 | once `expiration` seconds have passed since the write, the next call misses and recomputes |
| DiskCache.SwallowedWriteStillReturns | performanceUtils.py:275-281 | a swallowed write failure still returns the computed result, and the next call recomputes |
| DiskCache.TrackedIrrelevant | performanceUtils.py:245-300 | two states with the same files give the same outcome, event, value, invocations and disk, whatever `cache_files` holds |
| DiskCache.ClearKeepsDiskHits | performanceUtils.py:245-256 | clearing the `cache_files` map changes no later call's outcome, hit for hit |
| DiskCache.Clear | performanceUtils.py:52-59 | `clear_cache` forgets every tracked file name but leaves the files on disk |
| ParametrizedCache.Pop | performanceUtils.py:324 | `kwargs.pop(name)` finds the keyword exactly when it is present and returns the other keywords |
| ParametrizedCache.PopSplit | performanceUtils.py:324 | popping a keyword, wherever it stands, returns its value and the other keywords in order |
| ParametrizedCache.Call | performanceUtils.py:322-345 | with caching off, the function runs on the stripped arguments and nothing changes; with it on, the call behaves as `memoize` on the stripped arguments |
| ParametrizedCache.ControlNotInKey | performanceUtils.py:324-333 | the control keyword never appears in the arguments the key is built from |
| ParametrizedCache.TruthyControlIsDefault | performanceUtils.py:324-326 | passing a truthy control value behaves exactly like omitting it |
| ParametrizedCache.FalsyControlBypasses | performanceUtils.py:326-328 | a falsy control value calls the function directly; neither the cache nor the statistics change |
| ParametrizedCache.EnabledIsMemoize | performanceUtils.py:330-345 | with caching on, the wrapper is `memoize` applied to the stripped call |
| CacheScenarios.PositionalKeys | performanceUtils.py:108-110 | `f(x, y)` is keyed `repr(x) + ":" + repr(y)` |
| CacheScenarios.KeywordKeys | performanceUtils.py:108-110 | `f(b=y, a=x)` and `f(a=x, b=y)` are both keyed `a=repr(x):b=repr(y)` |
| CacheScenarios.LruUsageExample | performanceUtils.py:418-423 | with `maxsize=2`, after the calls 1, 2, 3, 1 the call with 2 is a miss |
| CacheScenarios.ParametrizedUsageExample | performanceUtils.py:317-345 | two enabled calls then one with `use_cache=False`: miss, hit, bypass, and the statistics show one hit and one miss |
| CacheScenarios.MemoizeStatsExample | performanceUtils.py:102-125 | a memoized function that does not call its own wrapper, called twice with one argument: one miss then one hit, in the record and in the summary |
| CacheRegistry.RecordAllCounts | performanceUtils.py:43-50 | after a sequence of wrapped calls reports its events, a registered name's counters have grown by exactly the number of hits and of misses among them |
| CacheScenarios.FibMemoCorrect | performanceUtils.py:369-373 | the memoized `fibonacci`, whose recursive calls go back through the wrapper, returns the undecorated value and keeps every cached value correct |
| CacheScenarios.FibFromEmpty | performanceUtils.py:113-125 | from an empty cache, `fibonacci(n)` with `n >= 2` caches exactly `0..n` and reports `n + 1` misses and `n - 2` hits from its own recursive calls |
| CacheScenarios.FibTwice | performanceUtils.py:113-125 | calling it twice returns the undecorated value both times, and the second call is a single hit, so both calls report `n - 1` hits and `n + 1` misses |
| CacheScenarios.FibonacciExample | performanceUtils.py:409-410 | the usage example `fibonacci(10)` twice returns 55 both times and reports 8 hits and 11 misses, then 9 hits and 11 misses in all |
| MatrixRows.Prepare | streamlit_dash.py:1093-1100 | `prepare_row_data` gives `"+"` exactly when a deeper grouping column exists, records the level and keeps the fields, and attaches the parent conditions only when non-empty |
| MatrixRows.ConditionsOf | streamlit_dash.py:1206 | the filter `{col: row[col] for col in group_by[:level + 1]}` exists exactly when the row holds those columns, and pairs each with its value in `group_by` order |
| MatrixRows.ShapeSlice | streamlit_dash.py:1231-1280 | any contiguous part of a shaped row list keeps its shape |
| MatrixRows.ShapeConcat | streamlit_dash.py:1231-1280 | joining two shaped lists keeps the shape when the rows at the junction may stand together |
| MatrixRows.PreparedTopWellFormed | streamlit_dash.py:1103 | the rows the table is built with are well formed |
| DrillMatrix.ExpandAt | streamlit_dash.py:1254-1280 | expanding row `i` keeps the rows before it, shows row `i` as `"-"`, inserts the new rows, then keeps every later row; the length grows by the number of new rows |
| DrillMatrix.DeeperRun | streamlit_dash.py:1238-1250 | the run of rows after a position that are deeper than a level, ending at the first row that is not |
| DrillMatrix.CollapseAt | streamlit_dash.py:1231-1252 | collapsing row `i` keeps the rows before it, shows row `i` as `"+"`, and drops exactly the maximal run of deeper rows after it |
| DrillMatrix.CollapseLoop | streamlit_dash.py:1234-1250 | the skip-until-level loop, as written, computes exactly that collapse |
| DrillMatrix.Click | streamlit_dash.py:1221-1280 | a click on the button column raises `IndexError` past the end, does nothing on `""`, collapses `"-"`, and expands `"+"` with the subgroups at `level + 1` under the row's conditions, or raises `KeyError` when a grouping column is missing |
| DrillMatrix.Handle | streamlit_dash.py:1185-1282 | the callback as written: expand-all shows the as-written build (rows `"+"` even over their shown subtree) or raises `KeyError`, collapse-all shows the first rows again whatever was shown, a button-column click, or no update for any other cell |
| DrillMatrix.HandleFixed | streamlit_dash.py:1195-1215 | the corrected callback agrees with the as-written one everywhere except expand-all, where it fails exactly when the as-written one does and otherwise shows the same rows with every `"+"` marked `"-"` |
| DrillMatrix.DeeperRunIs | streamlit_dash.py:1238-1250 | the deeper run is the unique maximal run |
| DrillMatrix.CollapseUndoesExpand | streamlit_dash.py:1231-1280 | collapsing a row just expanded gives back the list before the expansion |
| DrillMatrix.ClickTwiceRestores | streamlit_dash.py:1221-1280 | two clicks on a `"+"` row with nothing deeper below it restore the list |
| DrillMatrix.ExpandUndoesCollapse | streamlit_dash.py:1231-1280 | expanding a collapsed row brings back exactly the rows the collapse removed, when they were its freshly prepared subgroups |
| DrillMatrix.ExpandAtWellFormed | streamlit_dash.py:1254-1280 | expanding a `"+"` row of a well-formed list keeps it well formed |
| DrillMatrix.CollapseAtWellFormed | streamlit_dash.py:1231-1252 | collapsing a `"-"` row of a well-formed list keeps it well formed |
| DrillMatrix.ExpandGroupMarked | streamlit_dash.py:1199-1212 | the corrected expand-all is the as-written one with every `"+"` row shown as `"-"`; both fail on the same data; the as-written build never shows `"-"` |
| DrillMatrix.ExpandGroupLevels | streamlit_dash.py:1199-1212 | a group's expansion starts at the group's level and never rises above it |
| DrillMatrix.ExpandGroupShape | streamlit_dash.py:1199-1212 | the corrected group expansion has the shape of a well-formed list |
| DrillMatrix.ExpandGroupTotal | streamlit_dash.py:1199-1212 | when every row holds its grouping columns, the expansion succeeds and every row it emits can be expanded |
| DrillMatrix.ExpandAllFixedWellFormed | streamlit_dash.py:1195-1215 | the corrected expand-all gives a well-formed list whose rows can all be expanded |
| DrillMatrix.ExpandAllShape | streamlit_dash.py:1195-1215 | the as-written expand-all is a pre-order listing from the top level, stepping down one level at a time, never deeper than the last grouping column, never showing `"-"` |
| DrillMatrix.LeafGroup | streamlit_dash.py:1199-1204 | a group at the last grouping level is its rows, prepared, with no subtrees |
| DrillMatrix.ExpandGroupAtLevel | streamlit_dash.py:1199-1212 | the rows of a group's expansion at the group's own level are exactly its prepared rows, in order |
| DrillMatrix.TopRowsOfExpandAll | streamlit_dash.py:1195-1219 | the top-level rows of expand-all are exactly the rows collapse-all returns |
| DrillMatrix.ClickPreservesWellFormed | streamlit_dash.py:1221-1280 | a click on a well-formed, expandable list raises only for an out-of-range row and otherwise gives a well-formed, expandable list |
| DrillMatrix.HandlePreservesWellFormed | streamlit_dash.py:1185-1282 | collapse-all, clicks and other cells keep the list well formed and expandable, raising only for an out-of-range row; expand-all as written is not covered, since its list is not well formed |
| DrillMatrix.HandleFixedPreservesWellFormed | streamlit_dash.py:1185-1282 | with the corrected expand-all, every callback outcome keeps the list well formed and expandable; the only exception is the out-of-range row |
| DrillMatrix.InitialWellFormed | streamlit_dash.py:1103 | the first rows are well formed and expandable |
| DrillMatrix.ExpandAllThenClickDuplicates | streamlit_dash.py:1199-1280 | as written, with two grouping columns, expand-all leaves the first row `"+"` above its subgroups, and a click on it shows them twice |
| DrillMatrix.ExpandAllFixedClickCollapses | streamlit_dash.py:1199-1280 | corrected, the first row shows `"-"`; a click collapses exactly its subgroups, and a second click restores the list |
| DrillMatrix.SameLeadingValueSameChildren | streamlit_dash.py:1063 | two top-level rows with the same first-column value expand to the same subgroups |
| EditableMatrix.InitialRows | streamlit_dash.py:808-817 | the table shows `"+"` exactly on the rows that have detail data, and `""` on the others |
| EditableMatrix.HandleCellClick | streamlit_dash.py:894-924 | no update without a cell, outside `drill_button`, or for a row without detail data; `IndexError` past the end; otherwise the click flips exactly that row's id in the expanded set, sets its button to `"-"` or `"+"`, and leaves every other row alone |
| EditableMatrix.InitialInSync | streamlit_dash.py:808-817 | the first rows agree with an empty expanded set |
| EditableMatrix.ClickKeepsSync | streamlit_dash.py:906-924 | with distinct row ids, a click keeps the buttons in agreement with the expanded set |
| EditableMatrix.ClickTwiceRestores | streamlit_dash.py:910-924 | two clicks on the same row restore the expanded set, and the rows when they were in agreement with it |
| EditableMatrix.DetailShowsLatestOnly | streamlit_dash.py:916-964 | only the latest expansion's detail is shown, and collapsing it empties the container while another row is still expanded |

## Left out

- Threads and the registry's singleton lock (`performanceUtils.py:19-28`): the registry is one value threaded through the calls.
- Time measurement: `total_time_saved` and all floating-point time values are left out. The clock is an integer parameter.
- `created_at` and `get_cache_info`: they report data and decide nothing.
- The decorator-side registration: each policy starts from an empty state, and `Register` is modelled separately.
- `pickle`, `hashlib.md5` and the file system.
  - A file is a content tag plus an mtime.
  - The key-to-file hash is a parameter `fileOf` and is not assumed injective.
  - Unexpected exceptions are the `WriteOutcome` and `Content` cases.
- `os.makedirs` and the file name's directory prefix are left out.
- Python's `repr` is opaque, and no lemma assumes it injective. Python truthiness of the control value is a parameter.
- pandas `groupby`, filtering and aggregation (`streamlit_dash.py:1063`, `1208-1211`, `1266-1270`) are the `subgroups` collaborator. `Sound` is the assumption that it returns rows holding the next grouping columns.
- Duplicate `group_by` columns are left out.
- DataTable paging, sorting and filtering are left out. The clicked `row` indexes the full row list and is never negative, so Python's negative indexing does not arise.
- An empty `ctx.triggered`: its `IndexError` at `streamlit_dash.py:1188` comes before the emptiness check. `Trigger` always names what fired.
- The detail table's layout and title (`streamlit_dash.py:926-962`): the detail is the row id and its `drill_data` entry.
- Widgets, layout and server startup (the rest of `streamlit_dash.py`, `LayoutManager.py`): they build component trees.
- Memoize.Call: the wrapped function is a pure value, so a function that calls its own wrapper is not covered by it, and the hits and misses of its inner calls are not counted there. The example's recursive `fibonacci` is modelled on its own by `CacheScenarios.FibMemo`, with its integer argument as the key.
- DiskCache.Call: a read error escapes before `update_stats`, so no event is recorded. Both crash cases also carry the state left behind.
- MatrixRows.PreparedTopWellFormed: it holds for every frame; whether rows are expandable depends on the frame holding its grouping columns.

## Findings

| source | as written | input that shows it | evidently intended | confidence | as-written member | corrected member |
|---|---|---|---|---|---|---|
| performanceUtils.py:52-59 | `clear_cache` calls `.clear()` on the registered dict only, so an `lru_cache` keeps its `usage_order` | `maxsize=1`: call `a`, clear, call `b`, call `c`; the eviction deletes `a`, which is no longer in the map, and raises `KeyError` | clearing an LRU cache resets both the map and `usage_order` | not executed | LruCache.ClearAsWrittenThenFails | LruCache.ClearThenRun |
| streamlit_dash.py:1199-1215 | expand-all builds rows with `prepare_row_data`, which marks every expandable row `"+"` even when its subtree follows it | two grouping columns, one top-level row with at least one subgroup: after expand-all, clicking the row's `"+"` expands it again and the subgroups appear twice | rows whose subtree is shown are marked `"-"`, so a click collapses them | not executed | DrillMatrix.ExpandAllThenClickDuplicates | DrillMatrix.ExpandAllFixedClickCollapses |
