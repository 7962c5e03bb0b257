/**
 * The `handle_matrix_interaction` callback of `powerbi_matrix`: four list
 * transformations on the displayed rows (expand one row, collapse one row,
 * expand all, collapse all). The pandas filtering and aggregation is an
 * abstract collaborator `subgroups`: given the conditions of a row at level
 * `L` (the values of its first `L + 1` grouping columns), it returns the
 * aggregated rows of the next grouping, in frame order.
 */
module DrillMatrix {
  import opened Wrappers
  import opened MatrixRows

  /** What the callback reads from its stores. `top` is `grouped_data`, the
      frame the table was built from. */
  datatype Config<!C> = Config(groupBy: seq<string>, top: seq<Fields<C>>,
                              subgroups: Conditions<C> -> seq<Fields<C>>)

  /** The table's `active_cell`: a row index and a column id. */
  datatype Cell = Cell(row: nat, column: string)

  /** What fired the callback. */
  datatype Trigger = ExpandAllClicked | CollapseAllClicked | CellChanged(cell: Option<Cell>)

  /** `IndexError` from `current_data[row_idx]`; `KeyError` from a missing grouping column. */
  datatype Fault = IndexError | MissingColumn

  /** `dash.no_update`, new table data, or an exception. */
  datatype Response<C> = NoUpdate | Update(rows: seq<Row<C>>) | Crash(fault: Fault)

  const ButtonColumn := "expand_button"

  /** The collaborator returns rows that hold the grouping columns the next
      expansion reads. */
  ghost predicate Sound<C(!new)>(cfg: Config<C>) {
    && (forall j :: 0 <= j < |cfg.top| ==> Covers(cfg.top[j], cfg.groupBy, 0))
    && forall conds: Conditions<C>, kid: Fields<C> ::
         kid in cfg.subgroups(conds) ==> Covers(kid, cfg.groupBy, |conds|)
  }

  /** The rows built at construction, and returned by collapse-all. */
  function Initial<C>(cfg: Config<C>): seq<Row<C>> {
    PrepareAll(cfg.top, 0, [], |cfg.groupBy|)
  }

  /** Expand row `i`: mark it `"-"` and splice `kids` right after it. */
  function ExpandAt<C>(rows: seq<Row<C>>, i: nat, kids: seq<Row<C>>): (r: seq<Row<C>>)
    requires i < |rows|
    ensures |r| == |rows| + |kids|
    ensures forall k {:trigger r[k]} :: 0 <= k < i ==> r[k] == rows[k]
    ensures r[i] == rows[i].(button := Minus)
    ensures forall k :: i < k <= i + |kids| ==> r[k] == kids[k - i - 1]
    ensures forall k :: i + |kids| < k < |r| ==> r[k] == rows[k - |kids|]
  {
    var m := |kids|;
    seq(|rows| + m, k requires 0 <= k < |rows| + m =>
      if k < i then rows[k] else if k == i then rows[i].(button := Minus)
      else if k <= i + m then kids[k - i - 1] else rows[k - m])
  }

  /** The number of rows from `j` on that are deeper than `level`, up to the
      first row that is not. */
  function DeeperRun<C>(rows: seq<Row<C>>, j: nat, level: nat): (d: nat)
    requires j <= |rows|
    ensures j + d <= |rows|
    ensures forall k :: j <= k < j + d ==> rows[k].level > level
    ensures j + d < |rows| ==> rows[j + d].level <= level
    decreases |rows| - j
  {
    if j == |rows| || rows[j].level <= level then 0 else 1 + DeeperRun(rows, j + 1, level)
  }

  /** Rows `i` to `j - 1` replaced by the single row `x`. */
  function Replace<C>(rows: seq<Row<C>>, i: nat, j: nat, x: Row<C>): (r: seq<Row<C>>)
    requires i < j <= |rows|
    ensures |r| == |rows| - (j - i - 1)
    ensures forall k {:trigger r[k]} :: 0 <= k < i ==> r[k] == rows[k]
    ensures r[i] == x
    ensures forall k :: i < k < |r| ==> r[k] == rows[k + (j - i - 1)]
  {
    var d := j - i - 1;
    seq(|rows| - d, k requires 0 <= k < |rows| - d => if k < i then rows[k] else if k == i then x else rows[k + d])
  }

  /** Collapse row `i`: mark it `"+"` and drop the maximal run of deeper rows
      that follows it; everything from the first row not deeper is kept. */
  function CollapseAt<C>(rows: seq<Row<C>>, i: nat): (r: seq<Row<C>>)
    requires i < |rows|
    ensures i < |r| <= |rows|
    ensures forall k {:trigger r[k]} :: 0 <= k < i ==> r[k] == rows[k]
    ensures r[i] == rows[i].(button := Plus)
    ensures var d := |rows| - |r|;
      && (forall k :: i < k < |r| ==> r[k] == rows[k + d])
      && (forall k :: i < k <= i + d ==> rows[k].level > rows[i].level)
      && (i + 1 + d < |rows| ==> rows[i + 1 + d].level <= rows[i].level)
  {
    Replace(rows, i, i + 1 + DeeperRun(rows, i + 1, rows[i].level), rows[i].(button := Plus))
  }

  /** The collapse loop as written: copy rows before `idx`, copy `idx` with
      `"+"`, then skip rows while they are deeper than `idx`'s level. */
  method CollapseLoop<C>(rows: seq<Row<C>>, idx: nat) returns (result: seq<Row<C>>)
    requires idx < |rows|
    ensures result == CollapseAt(rows, idx)
  {
    var d := DeeperRun(rows, idx + 1, rows[idx].level);
    var c := CollapseAt(rows, idx);
    result := [];
    var skip: Option<nat> := None;
    var i := 0;
    while i < |rows|
      invariant 0 <= i <= |rows|
      invariant i <= idx ==> |result| == i && skip == None
      invariant idx < i <= idx + 1 + d ==> |result| == idx + 1 && skip == Some(rows[idx].level)
      invariant idx + 1 + d < i ==> |result| == i - d && skip == None
      invariant forall k :: 0 <= k < |result| ==> result[k] == c[k]
    {
      var row := rows[i];
      if i < idx {
        result := result + [row];
      } else if i == idx {
        row := row.(button := Plus);
        result := result + [row];
        skip := Some(row.level);
      } else {
        if skip.Some? && row.level <= skip.value {
          skip := None;
        }
        if skip.None? {
          result := result + [row];
        }
      }
      i := i + 1;
    }
  }

  /** A click on row `i` of the button column. The contract is the dispatch;
      what each branch does to the list is stated by `ExpandAt` and
      `CollapseAt`. */
  function Click<C>(cfg: Config<C>, rows: seq<Row<C>>, i: nat): (r: Response<C>)
    ensures i >= |rows| ==> r == Crash(IndexError)
    ensures i < |rows| && rows[i].button == Blank ==> r == NoUpdate
    ensures i < |rows| && rows[i].button == Minus ==> r == Update(CollapseAt(rows, i))
    ensures i < |rows| && rows[i].button == Plus ==>
              match ConditionsOf(rows[i].fields, cfg.groupBy, rows[i].level)
              case None => r == Crash(MissingColumn)
              case Some(conds) =>
                r == Update(ExpandAt(rows, i, PrepareAll(cfg.subgroups(conds), rows[i].level + 1, conds, |cfg.groupBy|)))
  {
    if i >= |rows| then Crash(IndexError)
    else
      var row := rows[i];
      if row.button == Blank then NoUpdate
      else if row.button == Minus then Update(CollapseAt(rows, i))
      else
        match ConditionsOf(row.fields, cfg.groupBy, row.level)
        case None => Crash(MissingColumn)
        case Some(conds) =>
          Update(ExpandAt(rows, i, PrepareAll(cfg.subgroups(conds), row.level + 1, conds, |cfg.groupBy|)))
  }

  // ---------------------------------------------------------------------------
  // Expand all

  /** The termination measure of the expand-all recursion. */
  function Depth(level: nat, n: nat): nat {
    if level < n then n - level else 0
  }

  /** `expand_group(data, level, parent)`: each row, then (while a deeper
      grouping exists) the expansion of its subgroups. With `marked` false the
      rows keep the button `prepare_row_data` gives them, as written; with
      `marked` true a row whose subtree is emitted shows `"-"`. `None` stands
      for a `KeyError`. */
  function ExpandGroup<C>(cfg: Config<C>, data: seq<Fields<C>>, level: nat, parent: Conditions<C>, marked: bool)
    : Option<seq<Row<C>>>
    decreases Depth(level, |cfg.groupBy|), |data|
  {
    var n := |cfg.groupBy|;
    if |data| == 0 then Some([])
    else
      var row := Prepare(data[0], level, parent, n);
      var head := if marked then Mark(row) else row;
      var sub :=
        if level + 1 < n then
          match ConditionsOf(data[0], cfg.groupBy, level)
          case None => None
          case Some(conds) => ExpandGroup(cfg, cfg.subgroups(conds), level + 1, conds, marked)
        else Some([]);
      var rest := ExpandGroup(cfg, data[1..], level, parent, marked);
      if sub.None? || rest.None? then None
      else Some([head] + sub.value + rest.value)
  }

  /** A row shown as expanded when it could be expanded. */
  function Mark<C>(row: Row<C>): (r: Row<C>)
    ensures r.fields == row.fields && r.level == row.level && r.parent == row.parent
    ensures r.button == if row.button == Plus then Minus else row.button
  {
    if row.button == Plus then row.(button := Minus) else row
  }

  function MarkAll<C>(rows: seq<Row<C>>): (r: seq<Row<C>>)
    ensures |r| == |rows| && forall k :: 0 <= k < |rows| ==> r[k] == Mark(rows[k])
  {
    seq(|rows|, k requires 0 <= k < |rows| => Mark(rows[k]))
  }

  /** Expand-all as written: every row keeps `"+"` even with its subtree shown. */
  function ExpandAll<C>(cfg: Config<C>): Option<seq<Row<C>>> {
    ExpandGroup(cfg, cfg.top, 0, [], false)
  }

  /** Expand-all with expanded rows shown as `"-"`. */
  function ExpandAllFixed<C>(cfg: Config<C>): Option<seq<Row<C>>> {
    ExpandGroup(cfg, cfg.top, 0, [], true)
  }

  /** The callback, as written: expand-all shows the `prepare_row_data`
      rows of `ExpandAll`. The contract is the dispatch; the effects are
      stated by `ExpandAll`, `Initial` and `Click`. */
  function Handle<C>(cfg: Config<C>, trigger: Trigger, rows: seq<Row<C>>): (r: Response<C>)
    ensures trigger == CollapseAllClicked ==> r == Update(Initial(cfg))
    ensures trigger == ExpandAllClicked ==>
              r == (if ExpandAll(cfg).Some? then Update(ExpandAll(cfg).value) else Crash(MissingColumn))
    ensures trigger.CellChanged? && (trigger.cell.None? || trigger.cell.value.column != ButtonColumn) ==> r == NoUpdate
    ensures trigger.CellChanged? && trigger.cell.Some? && trigger.cell.value.column == ButtonColumn ==>
              r == Click(cfg, rows, trigger.cell.value.row)
  {
    match trigger
    case ExpandAllClicked =>
      (match ExpandAll(cfg)
       case None => Crash(MissingColumn)
       case Some(all) => Update(all))
    case CollapseAllClicked => Update(Initial(cfg))
    case CellChanged(cell) =>
      if cell.None? || cell.value.column != ButtonColumn then NoUpdate
      else Click(cfg, rows, cell.value.row)
  }

  /** The callback with the corrected expand-all: the same response as
      `Handle` for every other trigger, and for expand-all the as-written
      rows with every row whose subtree is shown marked `"-"`. */
  function HandleFixed<C>(cfg: Config<C>, trigger: Trigger, rows: seq<Row<C>>): (r: Response<C>)
    ensures trigger != ExpandAllClicked ==> r == Handle(cfg, trigger, rows)
    ensures trigger == ExpandAllClicked ==>
              && (r.Crash? <==> Handle(cfg, trigger, rows).Crash?)
              && (r.Update? ==> Handle(cfg, trigger, rows).Update?
                                && r.rows == MarkAll(Handle(cfg, trigger, rows).rows))
  {
    if trigger != ExpandAllClicked then Handle(cfg, trigger, rows)
    else
      ExpandGroupMarked(cfg, cfg.top, 0, []);
      match ExpandAllFixed(cfg)
      case None => Crash(MissingColumn)
      case Some(all) => Update(all)
  }

  // ---------------------------------------------------------------------------
  // Expand and collapse undo each other

  /** `DeeperRun` is the unique maximal run. */
  lemma {:induction false} DeeperRunIs<C>(rows: seq<Row<C>>, j: nat, level: nat, d: nat)
    requires j + d <= |rows|
    requires forall k :: j <= k < j + d ==> rows[k].level > level
    requires j + d < |rows| ==> rows[j + d].level <= level
    ensures DeeperRun(rows, j, level) == d
    decreases d
  {
    if d > 0 {
      DeeperRunIs(rows, j + 1, level, d - 1);
    }
  }

  /** Collapsing a row just expanded gives back the list before the expansion,
      provided the row showed `"+"` with nothing deeper under it and the
      spliced rows are deeper than it. */
  lemma CollapseUndoesExpand<C>(rows: seq<Row<C>>, i: nat, kids: seq<Row<C>>)
    requires i < |rows| && rows[i].button == Plus
    requires i + 1 < |rows| ==> rows[i + 1].level <= rows[i].level
    requires forall j :: 0 <= j < |kids| ==> kids[j].level > rows[i].level
    ensures CollapseAt(ExpandAt(rows, i, kids), i) == rows
  {
    var e := ExpandAt(rows, i, kids);
    SplicedRun(rows, i, kids);
    ReplaceSplice(rows, i, kids, e[i].(button := Plus));
    assert e[i].(button := Plus) == rows[i];
  }

  /** Replacing a row and the rows spliced after it by one row `x` leaves
      the list with `x` in that row's place. */
  lemma ReplaceSplice<C>(rows: seq<Row<C>>, i: nat, kids: seq<Row<C>>, x: Row<C>)
    requires i < |rows|
    ensures Replace(ExpandAt(rows, i, kids), i, i + 1 + |kids|, x) == rows[i := x]
  {
    var e, m := ExpandAt(rows, i, kids), |kids|;
    var c := Replace(e, i, i + 1 + m, x);
    forall k {:trigger c[k]} | i < k < |rows| ensures c[k] == rows[k] {
      assert c[k] == e[k + m];
    }
  }

  /** The rows spliced in by an expansion are the run a collapse removes. */
  lemma SplicedRun<C>(rows: seq<Row<C>>, i: nat, kids: seq<Row<C>>)
    requires i < |rows| && rows[i].button == Plus
    requires i + 1 < |rows| ==> rows[i + 1].level <= rows[i].level
    requires forall j :: 0 <= j < |kids| ==> kids[j].level > rows[i].level
    ensures var e := ExpandAt(rows, i, kids); DeeperRun(e, i + 1, e[i].level) == |kids|
  {
    var e, m := ExpandAt(rows, i, kids), |kids|;
    forall k | i + 1 <= k < i + 1 + m ensures e[k].level > e[i].level {
      assert e[k] == kids[k - i - 1];
    }
    if i + 1 + m < |e| {
      assert e[i + 1 + m] == rows[i + 1];
    }
    DeeperRunIs(e, i + 1, e[i].level, m);
  }

  /** A click on a `"+"` row followed by a click on the same row restores the
      list. */
  lemma ClickTwiceRestores<C>(cfg: Config<C>, rows: seq<Row<C>>, i: nat)
    requires i < |rows| && rows[i].button == Plus
    requires i + 1 < |rows| ==> rows[i + 1].level <= rows[i].level
    requires Covers(rows[i].fields, cfg.groupBy, rows[i].level)
    ensures var r := Click(cfg, rows, i);
      && r.Update?
      && Click(cfg, r.rows, i) == Update(rows)
  {
    var conds := ConditionsOf(rows[i].fields, cfg.groupBy, rows[i].level).value;
    var kids := PrepareAll(cfg.subgroups(conds), rows[i].level + 1, conds, |cfg.groupBy|);
    CollapseUndoesExpand(rows, i, kids);
  }

  /** Expanding a collapsed row gives back the list before the collapse,
      provided the rows under it were exactly its freshly prepared subgroups. */
  lemma ExpandUndoesCollapse<C>(cfg: Config<C>, rows: seq<Row<C>>, i: nat, conds: Conditions<C>)
    requires i < |rows| && rows[i].button == Minus
    requires ConditionsOf(rows[i].fields, cfg.groupBy, rows[i].level) == Some(conds)
    requires var d := DeeperRun(rows, i + 1, rows[i].level);
      rows[i + 1..i + 1 + d] == PrepareAll(cfg.subgroups(conds), rows[i].level + 1, conds, |cfg.groupBy|)
    ensures var r := Click(cfg, rows, i);
      && r.Update?
      && Click(cfg, r.rows, i) == Update(rows)
  {
    SliceAt(rows, i + 1, PrepareAll(cfg.subgroups(conds), rows[i].level + 1, conds, |cfg.groupBy|));
    ClickCollapseExpand(cfg, rows, i, conds);
  }

  lemma ClickCollapseExpand<C>(cfg: Config<C>, rows: seq<Row<C>>, i: nat, conds: Conditions<C>)
    requires i < |rows| && rows[i].button == Minus
    requires ConditionsOf(rows[i].fields, cfg.groupBy, rows[i].level) == Some(conds)
    requires var kids := PrepareAll(cfg.subgroups(conds), rows[i].level + 1, conds, |cfg.groupBy|);
      && |kids| == DeeperRun(rows, i + 1, rows[i].level)
      && forall t :: 0 <= t < |kids| ==> kids[t] == rows[i + 1 + t]
    ensures var r := Click(cfg, rows, i);
      && r.Update?
      && Click(cfg, r.rows, i) == Update(rows)
  {
    var c := CollapseAt(rows, i);
    var kids := PrepareAll(cfg.subgroups(conds), rows[i].level + 1, conds, |cfg.groupBy|);
    var e := ExpandAt(c, i, kids);
    ReExpand(rows, i, kids);
    ClickPlusRow(cfg, c, i, conds);
    assert Click(cfg, rows, i) == Update(c);
    assert Click(cfg, c, i) == Update(e);
    assert e == rows;
  }

  lemma ClickPlusRow<C>(cfg: Config<C>, rows: seq<Row<C>>, i: nat, conds: Conditions<C>)
    requires i < |rows| && rows[i].button == Plus
    requires ConditionsOf(rows[i].fields, cfg.groupBy, rows[i].level) == Some(conds)
    ensures Click(cfg, rows, i) == Update(ExpandAt(rows, i, PrepareAll(cfg.subgroups(conds), rows[i].level + 1, conds, |cfg.groupBy|)))
  {
  }

  /** Splicing the collapsed run back in under a collapsed `"-"` row gives
      back the list. */
  lemma ReExpand<C>(rows: seq<Row<C>>, i: nat, kids: seq<Row<C>>)
    requires i < |rows| && rows[i].button == Minus
    requires |kids| == DeeperRun(rows, i + 1, rows[i].level)
    requires forall t :: 0 <= t < |kids| ==> kids[t] == rows[i + 1 + t]
    ensures |ExpandAt(CollapseAt(rows, i), i, kids)| == |rows|
    ensures forall k {:trigger ExpandAt(CollapseAt(rows, i), i, kids)[k]} :: 0 <= k < |rows| ==>
              ExpandAt(CollapseAt(rows, i), i, kids)[k] == rows[k]
  {
    var j := i + 1 + DeeperRun(rows, i + 1, rows[i].level);
    assert CollapseAt(rows, i) == Replace(rows, i, j, rows[i].(button := Plus));
    SpliceReplaced(rows, i, j, rows[i].(button := Plus), kids);
    assert rows[i].(button := Plus).(button := Minus) == rows[i];
  }

  /** Splicing the replaced rows back in after the replacing row gives back
      the list, with that row expanded in place of the first replaced one. */
  lemma SpliceReplaced<C>(rows: seq<Row<C>>, i: nat, j: nat, x: Row<C>, kids: seq<Row<C>>)
    requires i < j <= |rows| && |kids| == j - i - 1
    requires forall t :: 0 <= t < |kids| ==> kids[t] == rows[i + 1 + t]
    ensures ExpandAt(Replace(rows, i, j, x), i, kids) == rows[i := x.(button := Minus)]
  {
    var c, d := Replace(rows, i, j, x), |kids|;
    var e := ExpandAt(c, i, kids);
    forall k {:trigger e[k]} | i < k < |rows| ensures e[k] == rows[k] {
      if k <= i + d {
        assert e[k] == kids[k - i - 1];
      } else {
        assert e[k] == c[k - d];
      }
    }
  }

  /** The elements of a slice, one by one. */
  lemma SliceAt<T>(s: seq<T>, a: nat, part: seq<T>)
    requires a + |part| <= |s| && part == s[a..a + |part|]
    ensures forall t :: 0 <= t < |part| ==> part[t] == s[a + t]
  {
  }

  // ---------------------------------------------------------------------------
  // Clicks keep the row list well formed

  /** Expanding a `"+"` row of a well-formed list keeps it well formed. */
  lemma ExpandAtWellFormed<C>(rows: seq<Row<C>>, i: nat, kids: seq<Row<C>>, n: nat)
    requires WellFormed(rows, n)
    requires i < |rows| && rows[i].button == Plus
    requires Shape(kids, n)
    requires |kids| > 0 ==> kids[0].level == rows[i].level + 1
    requires forall j :: 0 <= j < |kids| ==> kids[j].level > rows[i].level
    ensures WellFormed(ExpandAt(rows, i, kids), n)
  {
    var e, m := ExpandAt(rows, i, kids), |kids|;
    forall k | 0 <= k < |e| ensures e[k].level == 0 || e[k].level < n
      ensures e[k].button == Blank <==> e[k].level + 1 >= n
    {
      if i < k <= i + m {
        assert e[k] == kids[k - i - 1];
      } else if k > i + m {
        assert e[k] == rows[k - m];
      }
    }
    forall k | 0 <= k < |e| - 1 ensures Adjacent(e[k], e[k + 1]) {
      ExpandAtAdjacent(rows, i, kids, n, k);
    }
  }

  /** Two neighbours in an expanded list may stand next to each other. */
  lemma ExpandAtAdjacent<C>(rows: seq<Row<C>>, i: nat, kids: seq<Row<C>>, n: nat, k: nat)
    requires WellFormed(rows, n)
    requires i < |rows| && rows[i].button == Plus
    requires Shape(kids, n)
    requires |kids| > 0 ==> kids[0].level == rows[i].level + 1
    requires forall j :: 0 <= j < |kids| ==> kids[j].level > rows[i].level
    requires k + 1 < |rows| + |kids|
    ensures var e := ExpandAt(rows, i, kids); Adjacent(e[k], e[k + 1])
  {
    var e, m := ExpandAt(rows, i, kids), |kids|;
    if k + 1 < i {
      assert Adjacent(rows[k], rows[k + 1]);
    } else if k + 1 == i {
      assert Adjacent(rows[k], rows[k + 1]);
    } else if k == i {
      if m == 0 {
        assert e[i + 1 + m] == rows[i + 1];
      } else {
        assert e[i + 1] == kids[0];
      }
    } else if k < i + m {
      assert e[k] == kids[k - i - 1];
      assert e[k + 1] == kids[k - i];
      assert Adjacent(kids[k - i - 1], kids[k - i]);
    } else if k == i + m {
      assert e[i + m] == kids[m - 1];
      assert e[i + 1 + m] == rows[i + 1];
      assert Adjacent(rows[i], rows[i + 1]);
    } else {
      assert e[k] == rows[k - m];
      assert e[k + 1] == rows[k - m + 1];
      assert Adjacent(rows[k - m], rows[k - m + 1]);
    }
  }

  /** Expanding keeps every row expandable when the spliced rows are. */
  lemma ExpandAtExpandable<C>(rows: seq<Row<C>>, i: nat, kids: seq<Row<C>>, groupBy: seq<string>)
    requires Expandable(rows, groupBy) && Expandable(kids, groupBy)
    requires i < |rows|
    ensures Expandable(ExpandAt(rows, i, kids), groupBy)
  {
    var e, m := ExpandAt(rows, i, kids), |kids|;
    forall k | 0 <= k < |e| ensures Covers(e[k].fields, groupBy, e[k].level) {
      if i < k <= i + m {
        assert e[k] == kids[k - i - 1];
      } else if k > i + m {
        assert e[k] == rows[k - m];
      }
    }
  }

  /** Collapsing a `"-"` row of a well-formed list keeps it well formed. */
  lemma CollapseAtWellFormed<C>(rows: seq<Row<C>>, i: nat, n: nat)
    requires WellFormed(rows, n)
    requires i < |rows| && rows[i].button == Minus
    ensures WellFormed(CollapseAt(rows, i), n)
  {
    var j := i + 1 + DeeperRun(rows, i + 1, rows[i].level);
    var r := Replace(rows, i, j, rows[i].(button := Plus));
    assert CollapseAt(rows, i) == r;
    KeepShape(rows, i, j, rows[i].(button := Plus), n);
  }

  /** Replacing rows `i` to `j - 1` by a row `x` at row `i`'s level keeps the
      list well formed when the next row is no deeper than `x`. */
  lemma KeepShape<C>(rows: seq<Row<C>>, i: nat, j: nat, x: Row<C>, n: nat)
    requires WellFormed(rows, n)
    requires i < j <= |rows|
    requires x.level == rows[i].level && x.button != Blank && rows[i].button != Blank
    requires j < |rows| ==> rows[j].level <= x.level
    ensures WellFormed(Replace(rows, i, j, x), n)
  {
    var r, d := Replace(rows, i, j, x), j - i - 1;
    forall k | 0 <= k < |r| - 1 ensures Adjacent(r[k], r[k + 1]) {
      if k + 1 <= i {
        assert Adjacent(rows[k], rows[k + 1]);
      } else if k > i {
        assert r[k] == rows[k + d] && r[k + 1] == rows[k + d + 1] && Adjacent(rows[k + d], rows[k + d + 1]);
      }
    }
  }

  /** Collapsing keeps every remaining row expandable. */
  lemma CollapseAtExpandable<C>(rows: seq<Row<C>>, i: nat, groupBy: seq<string>)
    requires Expandable(rows, groupBy)
    requires i < |rows|
    ensures Expandable(CollapseAt(rows, i), groupBy)
  {
    var c := CollapseAt(rows, i);
    forall k | 0 <= k < |c| ensures Covers(c[k].fields, groupBy, c[k].level) {
      if k > i {
        assert c[k] == rows[k + (|rows| - |c|)];
      }
    }
  }

  // ---------------------------------------------------------------------------
  // Expand all

  /** Every row is at `level` or deeper. */
  predicate AllAtLeast<C>(rows: seq<Row<C>>, level: nat) {
    forall k :: 0 <= k < |rows| ==> rows[k].level >= level
  }

  /** No row shows `"-"`. */
  predicate NoMinus<C>(rows: seq<Row<C>>) {
    forall k :: 0 <= k < |rows| ==> rows[k].button != Minus
  }

  lemma MarkAllSplice<C>(x: Row<C>, a: seq<Row<C>>, b: seq<Row<C>>)
    ensures MarkAll([x] + a + b) == [Mark(x)] + MarkAll(a) + MarkAll(b)
  {
  }

  lemma NoMinusSplice<C>(x: Row<C>, a: seq<Row<C>>, b: seq<Row<C>>)
    requires x.button != Minus && NoMinus(a) && NoMinus(b)
    ensures NoMinus([x] + a + b)
  {
    var r := [x] + a + b;
    assert forall k :: 1 <= k < 1 + |a| ==> r[k] == a[k - 1];
    assert forall k :: 1 + |a| <= k < |r| ==> r[k] == b[k - 1 - |a|];
  }

  lemma AllAtLeastSplice<C>(x: Row<C>, a: seq<Row<C>>, b: seq<Row<C>>, level: nat)
    requires x.level >= level && AllAtLeast(a, level) && AllAtLeast(b, level)
    ensures AllAtLeast([x] + a + b, level)
  {
    var r := [x] + a + b;
    assert forall k :: 1 <= k < 1 + |a| ==> r[k] == a[k - 1];
    assert forall k :: 1 + |a| <= k < |r| ==> r[k] == b[k - 1 - |a|];
  }

  /** The corrected build is the as-written build with every `"+"` row shown
      as `"-"`: both fail on the same input, and the as-written build never
      shows `"-"`. */
  lemma {:induction false} ExpandGroupMarked<C>(cfg: Config<C>, data: seq<Fields<C>>, level: nat, parent: Conditions<C>)
    ensures var u := ExpandGroup(cfg, data, level, parent, false);
      var m := ExpandGroup(cfg, data, level, parent, true);
      && (u.Some? <==> m.Some?)
      && (u.Some? ==> m.value == MarkAll(u.value) && NoMinus(u.value))
    decreases Depth(level, |cfg.groupBy|), |data|
  {
    var n := |cfg.groupBy|;
    if |data| > 0 {
      var row := Prepare(data[0], level, parent, n);
      ExpandGroupMarked(cfg, data[1..], level, parent);
      if level + 1 < n {
        var conds := ConditionsOf(data[0], cfg.groupBy, level);
        if conds.Some? {
          ExpandGroupMarked(cfg, cfg.subgroups(conds.value), level + 1, conds.value);
        }
      }
      var u := ExpandGroup(cfg, data, level, parent, false);
      if u.Some? {
        var sub := if level + 1 < n then ExpandGroup(cfg, cfg.subgroups(ConditionsOf(data[0], cfg.groupBy, level).value), level + 1, ConditionsOf(data[0], cfg.groupBy, level).value, false).value else [];
        var rest := ExpandGroup(cfg, data[1..], level, parent, false).value;
        assert u.value == [row] + sub + rest;
        MarkAllSplice(row, sub, rest);
        NoMinusSplice(row, sub, rest);
      }
    }
  }

  /** A group expansion starts at its own level and never rises above it. */
  lemma {:induction false} ExpandGroupLevels<C>(cfg: Config<C>, data: seq<Fields<C>>, level: nat, parent: Conditions<C>,
                                                 marked: bool)
    ensures var r := ExpandGroup(cfg, data, level, parent, marked);
      r.Some? ==> AllAtLeast(r.value, level) && (|r.value| > 0 ==> r.value[0].level == level)
    decreases Depth(level, |cfg.groupBy|), |data|
  {
    var n := |cfg.groupBy|;
    if |data| > 0 {
      ExpandGroupLevels(cfg, data[1..], level, parent, marked);
      if ExpandGroup(cfg, data, level, parent, marked).Some? {
        ExpandGroupCons(cfg, data, level, parent, marked);
        var row := Prepare(data[0], level, parent, n);
        var head := if marked then Mark(row) else row;
        var rest := ExpandGroup(cfg, data[1..], level, parent, marked).value;
        var sub: seq<Row<C>> := [];
        if level + 1 < n {
          var conds := ConditionsOf(data[0], cfg.groupBy, level).value;
          ExpandGroupLevels(cfg, cfg.subgroups(conds), level + 1, conds, marked);
          sub := ExpandGroup(cfg, cfg.subgroups(conds), level + 1, conds, marked).value;
        }
        AllAtLeastSplice(head, sub, rest, level);
      }
    }
  }

  /** A row, its shown subtree and its following siblings join into a shaped list. */
  lemma NodeShape<C>(head: Row<C>, sub: seq<Row<C>>, rest: seq<Row<C>>, n: nat)
    requires Shape([head], n) && Shape(sub, n) && Shape(rest, n)
    requires AllAtLeast(sub, head.level + 1)
    requires |sub| > 0 ==> sub[0].level == head.level + 1 && head.button == Minus
    requires |rest| > 0 ==> rest[0].level == head.level
    ensures Shape([head] + sub + rest, n)
  {
    if |sub| > 0 && |rest| > 0 {
      assert sub[|sub| - 1].level >= head.level + 1;
    }
    SpliceShape([], head, sub, rest, n);
    assert [] + [head] + sub + rest == [head] + sub + rest;
  }

  /** A freshly prepared row, shown as expanded when it can be, stands alone
      as a shaped list. */
  lemma MarkedShape<C>(fields: Fields<C>, level: nat, parent: Conditions<C>, n: nat)
    requires level == 0 || level < n
    ensures Shape([Mark(Prepare(fields, level, parent, n))], n)
  {
  }

  /** The corrected group expansion has the shape of a well-formed list. */
  lemma {:induction false} ExpandGroupShape<C>(cfg: Config<C>, data: seq<Fields<C>>, level: nat, parent: Conditions<C>)
    requires level == 0 || level < |cfg.groupBy|
    ensures var r := ExpandGroup(cfg, data, level, parent, true);
      r.Some? ==> Shape(r.value, |cfg.groupBy|)
    decreases Depth(level, |cfg.groupBy|), |data|
  {
    var n := |cfg.groupBy|;
    if |data| > 0 {
      ExpandGroupShape(cfg, data[1..], level, parent);
      ExpandGroupLevels(cfg, data[1..], level, parent, true);
      if ExpandGroup(cfg, data, level, parent, true).Some? {
        ExpandGroupCons(cfg, data, level, parent, true);
        var head := Mark(Prepare(data[0], level, parent, n));
        var rest := ExpandGroup(cfg, data[1..], level, parent, true).value;
        MarkedShape(data[0], level, parent, n);
        if level + 1 < n {
          var conds := ConditionsOf(data[0], cfg.groupBy, level).value;
          ExpandGroupShape(cfg, cfg.subgroups(conds), level + 1, conds);
          ExpandGroupLevels(cfg, cfg.subgroups(conds), level + 1, conds, true);
          NodeShape(head, ExpandGroup(cfg, cfg.subgroups(conds), level + 1, conds, true).value, rest, n);
        } else {
          NodeShape(head, [], rest, n);
        }
      }
    }
  }

  /** With the grouping columns present in every row, a group expansion
      succeeds and every row it emits can compute its conditions. */
  lemma {:induction false} ExpandGroupTotal<C(!new)>(cfg: Config<C>, data: seq<Fields<C>>, level: nat, parent: Conditions<C>,
                                                marked: bool)
    requires Sound(cfg)
    requires AllCover(data, cfg.groupBy, level)
    ensures var r := ExpandGroup(cfg, data, level, parent, marked);
      r.Some? && Expandable(r.value, cfg.groupBy)
    decreases Depth(level, |cfg.groupBy|), |data|
  {
    var n := |cfg.groupBy|;
    if |data| > 0 {
      var head := if marked then Mark(Prepare(data[0], level, parent, n)) else Prepare(data[0], level, parent, n);
      AllCoverTail(data, cfg.groupBy, level);
      ExpandGroupTotal(cfg, data[1..], level, parent, marked);
      var rest := ExpandGroup(cfg, data[1..], level, parent, marked).value;
      var sub: seq<Row<C>> := [];
      if level + 1 < n {
        var conds := ConditionsOf(data[0], cfg.groupBy, level).value;
        KidsCover(cfg, conds, level);
        ExpandGroupTotal(cfg, cfg.subgroups(conds), level + 1, conds, marked);
        sub := ExpandGroup(cfg, cfg.subgroups(conds), level + 1, conds, marked).value;
      }
      ExpandGroupUnfold(cfg, data, level, parent, marked);
      ExpandableSplice([], head, sub, rest, cfg.groupBy);
    }
  }

  /** Every row of a frame holds the grouping columns up to `level`. */
  predicate AllCover<C>(data: seq<Fields<C>>, groupBy: seq<string>, level: nat) {
    forall j :: 0 <= j < |data| ==> Covers(data[j], groupBy, level)
  }

  lemma AllCoverTail<C>(data: seq<Fields<C>>, groupBy: seq<string>, level: nat)
    requires |data| > 0 && AllCover(data, groupBy, level)
    ensures Covers(data[0], groupBy, level) && AllCover(data[1..], groupBy, level)
  {
    forall j | 0 <= j < |data[1..]| ensures Covers(data[1..][j], groupBy, level) {
      assert data[1..][j] == data[j + 1];
    }
  }

  /** The subgroups of a row's filter hold the next level's grouping columns. */
  lemma KidsCover<C(!new)>(cfg: Config<C>, conds: Conditions<C>, level: nat)
    requires Sound(cfg) && |conds| == level + 1
    ensures AllCover(cfg.subgroups(conds), cfg.groupBy, level + 1)
  {
    var kids := cfg.subgroups(conds);
    forall j | 0 <= j < |kids| ensures Covers(kids[j], cfg.groupBy, level + 1) {
      assert kids[j] in kids;
    }
  }

  /** One step of the group expansion, once both recursive builds succeed. */
  lemma ExpandGroupUnfold<C>(cfg: Config<C>, data: seq<Fields<C>>, level: nat, parent: Conditions<C>, marked: bool)
    requires |data| > 0
    requires var n := |cfg.groupBy|;
      level + 1 < n ==>
        && ConditionsOf(data[0], cfg.groupBy, level).Some?
        && ExpandGroup(cfg, cfg.subgroups(ConditionsOf(data[0], cfg.groupBy, level).value), level + 1,
                       ConditionsOf(data[0], cfg.groupBy, level).value, marked).Some?
    requires ExpandGroup(cfg, data[1..], level, parent, marked).Some?
    ensures var n := |cfg.groupBy|;
      var row := Prepare(data[0], level, parent, n);
      var sub := if level + 1 < n
        then var conds := ConditionsOf(data[0], cfg.groupBy, level).value;
             ExpandGroup(cfg, cfg.subgroups(conds), level + 1, conds, marked).value
        else [];
      ExpandGroup(cfg, data, level, parent, marked)
        == Some([] + [if marked then Mark(row) else row] + sub + ExpandGroup(cfg, data[1..], level, parent, marked).value)
  {
    var row := Prepare(data[0], level, parent, |cfg.groupBy|);
    var head := if marked then Mark(row) else row;
    assert [] + [head] == [head];
  }

  /** A successful group expansion is its first row, that row's subtree,
      then the expansion of the other rows. */
  lemma ExpandGroupCons<C>(cfg: Config<C>, data: seq<Fields<C>>, level: nat, parent: Conditions<C>, marked: bool)
    requires |data| > 0 && ExpandGroup(cfg, data, level, parent, marked).Some?
    ensures var n := |cfg.groupBy|;
      var row := Prepare(data[0], level, parent, n);
      var co := ConditionsOf(data[0], cfg.groupBy, level);
      var rest := ExpandGroup(cfg, data[1..], level, parent, marked);
      && rest.Some?
      && (level + 1 < n ==> co.Some? && ExpandGroup(cfg, cfg.subgroups(co.value), level + 1, co.value, marked).Some?)
      && ExpandGroup(cfg, data, level, parent, marked).value
         == [if marked then Mark(row) else row]
            + (if level + 1 < n then ExpandGroup(cfg, cfg.subgroups(co.value), level + 1, co.value, marked).value else [])
            + rest.value
  {
  }

  /** The corrected expand-all succeeds and gives a well-formed list in which
      every row can be expanded. */
  lemma ExpandAllFixedWellFormed<C(!new)>(cfg: Config<C>)
    requires Sound(cfg)
    ensures ExpandAllFixed(cfg).Some?
    ensures WellFormed(ExpandAllFixed(cfg).value, |cfg.groupBy|)
    ensures Expandable(ExpandAllFixed(cfg).value, cfg.groupBy)
  {
    ExpandGroupTotal(cfg, cfg.top, 0, [], true);
    ExpandGroupShape(cfg, cfg.top, 0, []);
    ExpandGroupLevels(cfg, cfg.top, 0, [], true);
  }

  /** The as-written expand-all is a pre-order listing starting at the top
      level, stepping down at most one level at a time, never deeper than
      the last grouping column, and it never shows `"-"`. */
  lemma ExpandAllShape<C>(cfg: Config<C>)
    ensures var r := ExpandAll(cfg);
      r.Some? ==>
        && StartsAtTop(r.value) && LevelsBelow(r.value, |cfg.groupBy|)
        && ButtonsMatchLevels(r.value, |cfg.groupBy|) && StepsAtMostOne(r.value)
        && NoMinus(r.value)
    ensures ExpandAll(cfg).Some? <==> ExpandAllFixed(cfg).Some?
  {
    ExpandGroupMarked(cfg, cfg.top, 0, []);
    ExpandGroupShape(cfg, cfg.top, 0, []);
    ExpandGroupLevels(cfg, cfg.top, 0, [], false);
    var r := ExpandAll(cfg);
    if r.Some? {
      var m := ExpandAllFixed(cfg).value;
      assert forall k :: 0 <= k < |m| ==> m[k].level == r.value[k].level;
      assert forall k :: 0 <= k < |m| ==> (m[k].button == Blank <==> r.value[k].button == Blank);
    }
  }

  /** A group at the last grouping level is its rows, prepared, with no subtrees. */
  lemma {:induction false} LeafGroup<C>(cfg: Config<C>, data: seq<Fields<C>>, level: nat, parent: Conditions<C>,
                                        marked: bool)
    requires level + 1 >= |cfg.groupBy|
    ensures ExpandGroup(cfg, data, level, parent, marked) == Some(PrepareAll(data, level, parent, |cfg.groupBy|))
    decreases |data|
  {
    var n := |cfg.groupBy|;
    if |data| > 0 {
      LeafGroup(cfg, data[1..], level, parent, marked);
      assert PrepareAll(data, level, parent, n)
          == [Prepare(data[0], level, parent, n)] + [] + PrepareAll(data[1..], level, parent, n);
    }
  }

  /** The rows of a list at one level, in order. */
  function AtLevel<C>(rows: seq<Row<C>>, level: nat): (r: seq<Row<C>>)
    ensures |r| <= |rows|
    ensures forall k :: 0 <= k < |r| ==> r[k].level == level
  {
    if |rows| == 0 then []
    else (if rows[0].level == level then [rows[0]] else []) + AtLevel(rows[1..], level)
  }

  lemma {:induction false} AtLevelConcat<C>(a: seq<Row<C>>, b: seq<Row<C>>, level: nat)
    ensures AtLevel(a + b, level) == AtLevel(a, level) + AtLevel(b, level)
    decreases |a|
  {
    if |a| > 0 {
      assert (a + b)[1..] == a[1..] + b;
      AtLevelConcat(a[1..], b, level);
    } else {
      assert a + b == b;
    }
  }

  lemma {:induction false} AtLevelDeeper<C>(a: seq<Row<C>>, level: nat)
    requires AllAtLeast(a, level + 1)
    ensures AtLevel(a, level) == []
    decreases |a|
  {
    if |a| > 0 {
      AtLevelDeeper(a[1..], level);
    }
  }

  /** The rows of a group expansion at the group's own level are exactly the
      group's rows, prepared and in order: the subtrees sit between them. */
  lemma {:induction false} ExpandGroupAtLevel<C>(cfg: Config<C>, data: seq<Fields<C>>, level: nat, parent: Conditions<C>)
    ensures var r := ExpandGroup(cfg, data, level, parent, false);
      r.Some? ==> AtLevel(r.value, level) == PrepareAll(data, level, parent, |cfg.groupBy|)
    decreases |data|
  {
    var n := |cfg.groupBy|;
    var r := ExpandGroup(cfg, data, level, parent, false);
    if |data| > 0 && r.Some? {
      var row := Prepare(data[0], level, parent, n);
      var rest := ExpandGroup(cfg, data[1..], level, parent, false).value;
      ExpandGroupAtLevel(cfg, data[1..], level, parent);
      var sub: seq<Row<C>> := [];
      if level + 1 < n {
        var conds := ConditionsOf(data[0], cfg.groupBy, level).value;
        ExpandGroupLevels(cfg, cfg.subgroups(conds), level + 1, conds, false);
        sub := ExpandGroup(cfg, cfg.subgroups(conds), level + 1, conds, false).value;
      }
      assert r.value == [row] + sub + rest;
      AtLevelNode(row, sub, rest, level);
      PrepareAllCons(data, level, parent, n);
    }
  }

  /** A row, its deeper subtree and its siblings: at the row's level, the
      subtree disappears. */
  lemma AtLevelNode<C>(row: Row<C>, sub: seq<Row<C>>, rest: seq<Row<C>>, level: nat)
    requires row.level == level && AllAtLeast(sub, level + 1)
    ensures AtLevel([row] + sub + rest, level) == [row] + AtLevel(rest, level)
  {
    AtLevelDeeper(sub, level);
    AtLevelConcat([row] + sub, rest, level);
    AtLevelConcat([row], sub, level);
    assert AtLevel([row], level) == [row];
  }

  lemma PrepareAllCons<C>(data: seq<Fields<C>>, level: nat, parent: Conditions<C>, n: nat)
    requires |data| > 0
    ensures PrepareAll(data, level, parent, n) == [Prepare(data[0], level, parent, n)] + PrepareAll(data[1..], level, parent, n)
  {
  }

  /** The top-level rows of the as-written expand-all are the rows collapse-all
      returns. */
  lemma TopRowsOfExpandAll<C>(cfg: Config<C>)
    ensures ExpandAll(cfg).Some? ==> AtLevel(ExpandAll(cfg).value, 0) == Initial(cfg)
    ensures Handle(cfg, CollapseAllClicked, []) == Update(Initial(cfg))
  {
    ExpandGroupAtLevel(cfg, cfg.top, 0, []);
  }

  // ---------------------------------------------------------------------------
  // The callback keeps the row list well formed

  /** The rows an expansion splices in, for a row of level `L` whose
      conditions the collaborator answers, fit below that row. */
  lemma KidsFit<C(!new)>(cfg: Config<C>, conds: Conditions<C>, L: nat)
    requires Sound(cfg) && L + 1 < |cfg.groupBy| && |conds| == L + 1
    ensures var kids := PrepareAll(cfg.subgroups(conds), L + 1, conds, |cfg.groupBy|);
      && Shape(kids, |cfg.groupBy|)
      && (forall j :: 0 <= j < |kids| ==> kids[j].level == L + 1)
      && Expandable(kids, cfg.groupBy)
  {
    var data := cfg.subgroups(conds);
    PreparedShape(data, L + 1, conds, |cfg.groupBy|);
    forall j | 0 <= j < |data| ensures Covers(data[j], cfg.groupBy, L + 1) {
      assert data[j] in data;
    }
  }

  /** Expanding a `"+"` row keeps a well-formed, expandable list so. */
  lemma ExpandClickWellFormed<C(!new)>(cfg: Config<C>, rows: seq<Row<C>>, i: nat)
    requires Sound(cfg)
    requires WellFormed(rows, |cfg.groupBy|) && Expandable(rows, cfg.groupBy)
    requires i < |rows| && rows[i].button == Plus
    ensures var r := Click(cfg, rows, i);
      r.Update? && WellFormed(r.rows, |cfg.groupBy|) && Expandable(r.rows, cfg.groupBy)
  {
    var n := |cfg.groupBy|;
    var L := rows[i].level;
    var co := ConditionsOf(rows[i].fields, cfg.groupBy, L);
    assert co.Some? by {
      assert Covers(rows[i].fields, cfg.groupBy, L);
    }
    var kids := PrepareAll(cfg.subgroups(co.value), L + 1, co.value, n);
    assert L + 1 < n && |co.value| == L + 1 by {
      assert rows[i].button != Blank;
    }
    KidsFit(cfg, co.value, L);
    var e := ExpandAt(rows, i, kids);
    assert Click(cfg, rows, i) == Update(e);
    assert WellFormed(e, n) by {
      ExpandAtWellFormed(rows, i, kids, n);
    }
    assert Expandable(e, cfg.groupBy) by {
      ExpandAtExpandable(rows, i, kids, cfg.groupBy);
    }
  }

  /** A click on a row of a well-formed, expandable list never hits a missing
      column and gives a well-formed, expandable list. */
  lemma ClickPreservesWellFormed<C(!new)>(cfg: Config<C>, rows: seq<Row<C>>, i: nat)
    requires Sound(cfg)
    requires WellFormed(rows, |cfg.groupBy|) && Expandable(rows, cfg.groupBy)
    ensures var r := Click(cfg, rows, i);
      && (r.Crash? <==> i >= |rows|)
      && (r.Update? ==> WellFormed(r.rows, |cfg.groupBy|) && Expandable(r.rows, cfg.groupBy))
  {
    if i < |rows| {
      if rows[i].button == Minus {
        CollapseAtWellFormed(rows, i, |cfg.groupBy|);
        CollapseAtExpandable(rows, i, cfg.groupBy);
      } else if rows[i].button == Plus {
        ExpandClickWellFormed(cfg, rows, i);
      }
    }
  }

  /** Collapse-all and every cell click keep the displayed list well formed
      and expandable, and the only exception they raise is the out-of-range
      row index. Expand-all as written is left out: its list is not well
      formed (`ExpandAllThenClickDuplicates`). */
  lemma HandlePreservesWellFormed<C(!new)>(cfg: Config<C>, trigger: Trigger, rows: seq<Row<C>>)
    requires Sound(cfg)
    requires WellFormed(rows, |cfg.groupBy|) && Expandable(rows, cfg.groupBy)
    requires trigger != ExpandAllClicked
    ensures var r := Handle(cfg, trigger, rows);
      && (r.Crash? <==> trigger.CellChanged? && trigger.cell.Some? && trigger.cell.value.column == ButtonColumn
                        && trigger.cell.value.row >= |rows|)
      && (r.Update? ==> WellFormed(r.rows, |cfg.groupBy|) && Expandable(r.rows, cfg.groupBy))
  {
    match trigger
    case CollapseAllClicked => PreparedTopWellFormed(cfg.top, cfg.groupBy);
    case CellChanged(cell) =>
      if cell.Some? && cell.value.column == ButtonColumn {
        ClickPreservesWellFormed(cfg, rows, cell.value.row);
      }
  }

  /** With the corrected expand-all, every callback outcome keeps the list
      well formed and expandable, and the only exception is the out-of-range
      row index. */
  lemma HandleFixedPreservesWellFormed<C(!new)>(cfg: Config<C>, trigger: Trigger, rows: seq<Row<C>>)
    requires Sound(cfg)
    requires WellFormed(rows, |cfg.groupBy|) && Expandable(rows, cfg.groupBy)
    ensures var r := HandleFixed(cfg, trigger, rows);
      && (r.Crash? <==> trigger.CellChanged? && trigger.cell.Some? && trigger.cell.value.column == ButtonColumn
                        && trigger.cell.value.row >= |rows|)
      && (r.Update? ==> WellFormed(r.rows, |cfg.groupBy|) && Expandable(r.rows, cfg.groupBy))
  {
    if trigger == ExpandAllClicked {
      ExpandAllFixedWellFormed(cfg);
    } else {
      HandlePreservesWellFormed(cfg, trigger, rows);
    }
  }

  /** The list the table starts with is well formed and expandable. */
  lemma InitialWellFormed<C(!new)>(cfg: Config<C>)
    requires Sound(cfg)
    ensures WellFormed(Initial(cfg), |cfg.groupBy|) && Expandable(Initial(cfg), cfg.groupBy)
  {
    PreparedTopWellFormed(cfg.top, cfg.groupBy);
  }

  // ---------------------------------------------------------------------------
  // Expand-all, as written and corrected, with two grouping columns

  /** With two grouping columns, expand-all lists the first top-level row,
      its subgroups prepared as leaves, then the expansion of the other
      top-level rows. */
  lemma TwoLevelExpand<C(!new)>(cfg: Config<C>, conds: Conditions<C>, marked: bool)
    requires |cfg.groupBy| == 2 && Sound(cfg) && |cfg.top| > 0
    requires ConditionsOf(cfg.top[0], cfg.groupBy, 0) == Some(conds)
    ensures var rest := ExpandGroup(cfg, cfg.top[1..], 0, [], marked);
      var head := Prepare(cfg.top[0], 0, [], 2);
      && rest.Some?
      && (|rest.value| > 0 ==> rest.value[0].level == 0)
      && ExpandGroup(cfg, cfg.top, 0, [], marked)
         == Some([if marked then Mark(head) else head] + PrepareAll(cfg.subgroups(conds), 1, conds, 2) + rest.value)
  {
    ExpandGroupTotal(cfg, cfg.top, 0, [], marked);
    LeafGroup(cfg, cfg.subgroups(conds), 1, conds, marked);
    ExpandGroupLevels(cfg, cfg.top[1..], 0, [], marked);
  }

  /** As written, expand-all leaves the first top-level row showing `"+"`
      above its own subgroups, so the list is not well formed; clicking the
      row expands it again and the subgroups are shown twice. */
  lemma ExpandAllThenClickDuplicates<C(!new)>(cfg: Config<C>, conds: Conditions<C>)
    requires |cfg.groupBy| == 2 && Sound(cfg) && |cfg.top| > 0
    requires ConditionsOf(cfg.top[0], cfg.groupBy, 0) == Some(conds)
    requires |cfg.subgroups(conds)| > 0
    ensures var r := ExpandAll(cfg);
      var kids := PrepareAll(cfg.subgroups(conds), 1, conds, 2);
      var m := |kids|;
      && r.Some? && |r.value| > m
      && r.value[0].button == Plus
      && r.value[1..1 + m] == kids
      && !WellFormed(r.value, 2)
      && var c := Click(cfg, r.value, 0);
         && c.Update? && |c.rows| >= 1 + 2 * m
         && c.rows[1..1 + m] == kids && c.rows[1 + m..1 + 2 * m] == kids
  {
    TwoLevelExpand(cfg, conds, false);
    var kids := PrepareAll(cfg.subgroups(conds), 1, conds, 2);
    var head := Prepare(cfg.top[0], 0, [], 2);
    var rest := ExpandGroup(cfg, cfg.top[1..], 0, [], false).value;
    ThreeParts(head, kids, rest);
    var r := ExpandAll(cfg).value;
    assert kids[0].level == 1;
    NotWellFormedAt(r, 2);
    DuplicatedKids(cfg, r, kids, conds);
  }

  /** The pieces of a row, then a run, then the rest. */
  lemma ThreeParts<T>(x: T, mid: seq<T>, rest: seq<T>)
    ensures var r := [x] + mid + rest;
      && r[0] == x && r[1..1 + |mid|] == mid && r[1 + |mid|..] == rest
      && (|mid| > 0 ==> r[1] == mid[0])
  {
  }

  /** A row followed by a deeper row that is not shown as expanded breaks the
      shape. */
  lemma NotWellFormedAt<C>(r: seq<Row<C>>, n: nat)
    requires |r| > 1 && r[1].level > r[0].level && r[0].button != Minus
    ensures !WellFormed(r, n)
  {
    assert !Adjacent(r[0], r[1]);
  }

  lemma DuplicatedKids<C>(cfg: Config<C>, r: seq<Row<C>>, kids: seq<Row<C>>, conds: Conditions<C>)
    requires |kids| > 0 && |r| > |kids| && r[0].button == Plus && r[1..1 + |kids|] == kids
    requires ConditionsOf(r[0].fields, cfg.groupBy, r[0].level) == Some(conds)
    requires kids == PrepareAll(cfg.subgroups(conds), r[0].level + 1, conds, |cfg.groupBy|)
    ensures var c := Click(cfg, r, 0);
      var m := |kids|;
      && c.Update? && |c.rows| >= 1 + 2 * m
      && c.rows[1..1 + m] == kids && c.rows[1 + m..1 + 2 * m] == kids
  {
    var m := |kids|;
    var e := ExpandAt(r, 0, kids);
    SliceAt(r, 1, kids);
  }

  /** Corrected, the first top-level row shows `"-"` above its subgroups; a
      click collapses exactly them and a second click brings them back. */
  lemma ExpandAllFixedClickCollapses<C(!new)>(cfg: Config<C>, conds: Conditions<C>)
    requires |cfg.groupBy| == 2 && Sound(cfg) && |cfg.top| > 0
    requires ConditionsOf(cfg.top[0], cfg.groupBy, 0) == Some(conds)
    requires |cfg.subgroups(conds)| > 0
    ensures var r := ExpandAllFixed(cfg);
      var kids := PrepareAll(cfg.subgroups(conds), 1, conds, 2);
      var m := |kids|;
      && r.Some? && |r.value| > m
      && r.value[0].button == Minus
      && r.value[1..1 + m] == kids
      && var c := Click(cfg, r.value, 0);
         && c == Update([r.value[0].(button := Plus)] + r.value[1 + m..])
         && Click(cfg, c.rows, 0) == Update(r.value)
  {
    TwoLevelExpand(cfg, conds, true);
    var kids := PrepareAll(cfg.subgroups(conds), 1, conds, 2);
    var head := Mark(Prepare(cfg.top[0], 0, [], 2));
    var rest := ExpandGroup(cfg, cfg.top[1..], 0, [], true).value;
    ThreeParts(head, kids, rest);
    CollapseKids(cfg, ExpandAllFixed(cfg).value, kids, conds);
  }

  /** The rows spliced under row 0, all deeper than it and followed by a row
      that is not, are exactly the run a collapse removes. */
  lemma KidsRun<C>(r: seq<Row<C>>, m: nat)
    requires |r| > m
    requires forall k :: 1 <= k < 1 + m ==> r[k].level > r[0].level
    requires 1 + m < |r| ==> r[1 + m].level <= r[0].level
    ensures DeeperRun(r, 1, r[0].level) == m
    ensures CollapseAt(r, 0) == [r[0].(button := Plus)] + r[1 + m..]
  {
    DeeperRunIs(r, 1, r[0].level, m);
    var c, s := CollapseAt(r, 0), [r[0].(button := Plus)] + r[1 + m..];
    forall k | 0 < k < |c| ensures c[k] == s[k] {
      assert c[k] == r[k + m];
    }
  }

  lemma CollapseKids<C>(cfg: Config<C>, r: seq<Row<C>>, kids: seq<Row<C>>, conds: Conditions<C>)
    requires |r| > |kids| && r[0].button == Minus && r[1..1 + |kids|] == kids
    requires ConditionsOf(r[0].fields, cfg.groupBy, r[0].level) == Some(conds)
    requires kids == PrepareAll(cfg.subgroups(conds), r[0].level + 1, conds, |cfg.groupBy|)
    requires 1 + |kids| < |r| ==> r[1 + |kids|].level <= r[0].level
    ensures var c := Click(cfg, r, 0);
      && c == Update([r[0].(button := Plus)] + r[1 + |kids|..])
      && Click(cfg, c.rows, 0) == Update(r)
  {
    var m := |kids|;
    forall k | 1 <= k < 1 + m ensures r[k].level > r[0].level {
      assert r[k] == kids[k - 1];
    }
    KidsRun(r, m);
    ExpandUndoesCollapse(cfg, r, 0, conds);
  }

  /** The table starts grouped by every grouping column, so two top-level
      rows may share their first column's value; expanding either splices in
      the same subgroups, those of that value. */
  lemma SameLeadingValueSameChildren<C>(cfg: Config<C>, rows: seq<Row<C>>, a: nat, b: nat, v: C)
    requires |cfg.groupBy| > 0
    requires a < |rows| && b < |rows|
    requires rows[a].level == 0 && rows[b].level == 0 && rows[a].button == Plus && rows[b].button == Plus
    requires cfg.groupBy[0] in rows[a].fields && rows[a].fields[cfg.groupBy[0]] == v
    requires cfg.groupBy[0] in rows[b].fields && rows[b].fields[cfg.groupBy[0]] == v
    ensures var conds := [(cfg.groupBy[0], v)];
      var kids := PrepareAll(cfg.subgroups(conds), 1, conds, |cfg.groupBy|);
      && Click(cfg, rows, a) == Update(ExpandAt(rows, a, kids))
      && Click(cfg, rows, b) == Update(ExpandAt(rows, b, kids))
  {
    var conds := [(cfg.groupBy[0], v)];
    forall x | x == a || x == b ensures ConditionsOf(rows[x].fields, cfg.groupBy, 0) == Some(conds) {
      assert Covers(rows[x].fields, cfg.groupBy, 0);
      var co := ConditionsOf(rows[x].fields, cfg.groupBy, 0).value;
      assert |co| == 1 && co[0] == conds[0];
      assert co == conds;
    }
  }
}
