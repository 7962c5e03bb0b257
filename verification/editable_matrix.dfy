/**
 * The `handle_cell_click` callback of `editable_matrix`: a one-level drill
 * toggle. Each table row carries its DataFrame index (`row_id`) and a
 * `drill_button` cell; the set of expanded rows is kept, as strings, in a
 * separate store. The detail frames are the `drill_data` map from row index
 * to an abstract table `D`; Python's `str` on an index is a parameter.
 */
module EditableMatrix {
  import opened Wrappers
  import opened MatrixRows
  import DrillMatrix

  datatype TableRow<I, C> = TableRow(rowId: I, button: Button, fields: Fields<C>)

  /** The detail container: emptied, or showing one row's detail table. */
  datatype Detail<I, D> = Hidden | Shown(rowId: I, table: D)

  /** The callback's three outputs, unchanged, or the exception raised by
      `data[row_idx]`. */
  datatype Outcome<I, C, D> =
    | NoChange
    | Changed(detail: Detail<I, D>, expanded: set<string>, rows: seq<TableRow<I, C>>)
    | IndexError

  const DrillColumn := "drill_button"

  /** The rows the table is built with: `"+"` exactly on the rows that have
      detail data. */
  function InitialRows<I, C, D>(data: seq<(I, Fields<C>)>, drill: map<I, D>): (r: seq<TableRow<I, C>>)
    ensures |r| == |data|
    ensures forall j :: 0 <= j < |data| ==> r[j].rowId == data[j].0 && r[j].fields == data[j].1
    ensures forall j :: 0 <= j < |data| ==> (r[j].button == Plus <==> data[j].0 in drill)
    ensures forall j :: 0 <= j < |data| ==> r[j].button != Minus
  {
    seq(|data|, j requires 0 <= j < |data| => TableRow(data[j].0, if data[j].0 in drill then Plus else Blank, data[j].1))
  }

  /** One call of `handle_cell_click`. A missing `expanded_rows` store counts
      as empty. */
  function HandleCellClick<I, C, D>(cell: Option<DrillMatrix.Cell>, rows: seq<TableRow<I, C>>,
                                    expanded: Option<set<string>>, drill: map<I, D>, str: I -> string)
    : (r: Outcome<I, C, D>)
    ensures cell.None? || cell.value.column != DrillColumn ==> r == NoChange
    ensures cell.Some? && cell.value.column == DrillColumn ==>
      && (r == IndexError <==> cell.value.row >= |rows|)
      && (cell.value.row < |rows| ==> (r == NoChange <==> rows[cell.value.row].rowId !in drill))
    ensures r.Changed? ==>
      var i := cell.value.row;
      var id := rows[i].rowId;
      var was := str(id) in expanded.GetOr({});
      && |r.rows| == |rows|
      && (forall j :: 0 <= j < |rows| && j != i ==> r.rows[j] == rows[j])
      && r.rows[i] == rows[i].(button := if was then Plus else Minus)
      && (forall s :: s in r.expanded <==> (s in expanded.GetOr({}) <==> s != str(id)))
      && r.detail == if was then Hidden else Shown(id, drill[id])
  {
    if cell.None? || cell.value.column != DrillColumn then NoChange
    else
      var i := cell.value.row;
      if i >= |rows| then IndexError
      else
        var id := rows[i].rowId;
        if id !in drill then NoChange
        else
          var exp := expanded.GetOr({});
          if str(id) in exp then
            Changed(Hidden, exp - {str(id)}, rows[i := rows[i].(button := Plus)])
          else
            Changed(Shown(id, drill[id]), exp + {str(id)}, rows[i := rows[i].(button := Minus)])
  }

  /** The buttons agree with the expanded set: a row with detail data shows
      `"-"` when its index is expanded and `"+"` otherwise; a row without
      shows `""`. */
  predicate InSync<I, C, D>(rows: seq<TableRow<I, C>>, expanded: set<string>, drill: map<I, D>, str: I -> string) {
    forall j :: 0 <= j < |rows| ==>
      rows[j].button == (if rows[j].rowId !in drill then Blank else if str(rows[j].rowId) in expanded then Minus else Plus)
  }

  /** Different rows have different `str` indices. */
  predicate DistinctIds<I, C>(rows: seq<TableRow<I, C>>, str: I -> string) {
    forall j, k :: 0 <= j < k < |rows| ==> str(rows[j].rowId) != str(rows[k].rowId)
  }

  /** The table starts in sync with an empty expanded set. */
  lemma InitialInSync<I, C, D>(data: seq<(I, Fields<C>)>, drill: map<I, D>, str: I -> string)
    ensures InSync(InitialRows(data, drill), {}, drill, str)
  {
  }

  /** A click on the drill column of a row with detail data flips exactly that
      row's index in the expanded set and that row's button, and keeps the
      rows in sync with the set when their indices are distinct. */
  lemma ClickKeepsSync<I, C, D>(i: nat, rows: seq<TableRow<I, C>>, expanded: set<string>, drill: map<I, D>,
                                str: I -> string)
    requires InSync(rows, expanded, drill, str) && DistinctIds(rows, str)
    requires i < |rows| && rows[i].rowId in drill
    ensures var r := HandleCellClick(Some(DrillMatrix.Cell(i, DrillColumn)), rows, Some(expanded), drill, str);
      && r.Changed?
      && InSync(r.rows, r.expanded, drill, str)
      && DistinctIds(r.rows, str)
  {
    var r := HandleCellClick(Some(DrillMatrix.Cell(i, DrillColumn)), rows, Some(expanded), drill, str);
    var id := rows[i].rowId;
    forall j | 0 <= j < |rows| && j != i ensures (str(rows[j].rowId) in r.expanded <==> str(rows[j].rowId) in expanded) {
      if j < i {
        assert str(rows[j].rowId) != str(id);
      } else {
        assert str(rows[i].rowId) != str(rows[j].rowId);
      }
    }
    assert forall j :: 0 <= j < |rows| ==> r.rows[j].rowId == rows[j].rowId;
  }

  /** Two clicks on the same drill cell give back the expanded set, and the
      rows too when the clicked row's button was in sync. */
  lemma ClickTwiceRestores<I, C, D>(i: nat, rows: seq<TableRow<I, C>>, expanded: set<string>, drill: map<I, D>,
                                    str: I -> string)
    requires i < |rows| && rows[i].rowId in drill
    ensures var cell := Some(DrillMatrix.Cell(i, DrillColumn));
      var r1 := HandleCellClick(cell, rows, Some(expanded), drill, str);
      && r1.Changed?
      && var r2 := HandleCellClick(cell, r1.rows, Some(r1.expanded), drill, str);
      && r2.Changed?
      && r2.expanded == expanded
      && (rows[i].button == (if str(rows[i].rowId) in expanded then Minus else Plus) ==> r2.rows == rows)
  {
  }

  /** Only the most recent expansion is shown: expanding row `a` and then row
      `b` leaves `b`'s detail alone in the container, and collapsing `b`
      empties it although `a` is still expanded. */
  lemma DetailShowsLatestOnly<I, C, D>(a: nat, b: nat, rows: seq<TableRow<I, C>>, drill: map<I, D>, str: I -> string)
    requires a < |rows| && b < |rows| && a != b
    requires rows[a].rowId in drill && rows[b].rowId in drill
    requires str(rows[a].rowId) != str(rows[b].rowId)
    ensures var r1 := HandleCellClick(Some(DrillMatrix.Cell(a, DrillColumn)), rows, None, drill, str);
      && r1.Changed?
      && var r2 := HandleCellClick(Some(DrillMatrix.Cell(b, DrillColumn)), r1.rows, Some(r1.expanded), drill, str);
      && r2.Changed?
      && r2.detail == Shown(rows[b].rowId, drill[rows[b].rowId])
      && r2.expanded == {str(rows[a].rowId), str(rows[b].rowId)}
      && var r3 := HandleCellClick(Some(DrillMatrix.Cell(b, DrillColumn)), r2.rows, Some(r2.expanded), drill, str);
      && r3.Changed?
      && r3.detail == Hidden
      && r3.expanded == {str(rows[a].rowId)}
  {
    var r1 := HandleCellClick(Some(DrillMatrix.Cell(a, DrillColumn)), rows, None, drill, str);
    assert r1.rows[b] == rows[b];
    var r2 := HandleCellClick(Some(DrillMatrix.Cell(b, DrillColumn)), r1.rows, Some(r1.expanded), drill, str);
    assert r2.rows[b].rowId == rows[b].rowId;
  }
}
