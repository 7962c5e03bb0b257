/**
 * The rows of the `powerbi_matrix` table. The table is a flat, pre-order
 * list of group rows; each row carries its aggregated fields, its depth
 * (`level`), its `expand_button` cell and, below the top level, the filter
 * conditions it was grouped under (`parent_conditions`). `n` is always
 * `len(group_by)`.
 */
module MatrixRows {
  import opened Wrappers

  /** The `expand_button` cell: `"+"`, `"-"` or `""`. */
  datatype Button = Plus | Minus | Blank

  /** One row of a grouped, aggregated frame, as a column-to-value map. */
  type Fields<C> = map<string, C>

  /** A `{column: value}` filter, in `group_by` order. */
  type Conditions<C> = seq<(string, C)>

  datatype Row<C> = Row(fields: Fields<C>, button: Button, level: nat, parent: Option<Conditions<C>>)

  /** `prepare_row_data(df_row, level, parent_conditions)`: a row can be
      expanded while there is a deeper grouping column; the parent filter is
      attached only when it is non-empty. */
  function Prepare<C>(fields: Fields<C>, level: nat, parent: Conditions<C>, n: nat): (r: Row<C>)
    ensures r.fields == fields && r.level == level
    ensures r.button == (if level + 1 < n then Plus else Blank)
    ensures r.parent == (if |parent| > 0 then Some(parent) else None)
  {
    Row(fields, if level + 1 < n then Plus else Blank, level, if |parent| > 0 then Some(parent) else None)
  }

  /** `prepare_row_data` over a frame, in frame order. */
  function PrepareAll<C>(data: seq<Fields<C>>, level: nat, parent: Conditions<C>, n: nat): (r: seq<Row<C>>)
    ensures |r| == |data|
    ensures forall j :: 0 <= j < |data| ==> r[j] == Prepare(data[j], level, parent, n)
  {
    seq(|data|, j requires 0 <= j < |data| => Prepare(data[j], level, parent, n))
  }

  /** The row holds every grouping column up to its own depth, so that
      `{col: row[col] for col in group_by[:level + 1]}` succeeds. */
  predicate Covers<C>(fields: Fields<C>, groupBy: seq<string>, level: nat) {
    forall j :: 0 <= j < |groupBy| && j <= level ==> groupBy[j] in fields
  }

  /** `{col: row[col] for col in group_by[:level + 1]}`; `None` stands for the
      `KeyError` raised when a column is missing. */
  function ConditionsOf<C>(fields: Fields<C>, groupBy: seq<string>, level: nat): (r: Option<Conditions<C>>)
    ensures r.Some? <==> Covers(fields, groupBy, level)
    ensures r.Some? ==> |r.value| == if level < |groupBy| then level + 1 else |groupBy|
    ensures r.Some? ==> forall j :: 0 <= j < |r.value| ==> r.value[j] == (groupBy[j], fields[groupBy[j]])
  {
    var m := if level < |groupBy| then level + 1 else |groupBy|;
    if forall j :: 0 <= j < m ==> groupBy[j] in fields then
      Some(seq(m, j requires 0 <= j < m && groupBy[j] in fields => (groupBy[j], fields[groupBy[j]])))
    else None
  }

  // ---------------------------------------------------------------------------
  // The shape every reachable row list has.

  /** The list starts at the top level. */
  predicate StartsAtTop<C>(rows: seq<Row<C>>) {
    |rows| > 0 ==> rows[0].level == 0
  }

  /** No row is deeper than the last grouping column. */
  predicate LevelsBelow<C>(rows: seq<Row<C>>, n: nat) {
    forall k :: 0 <= k < |rows| ==> rows[k].level == 0 || rows[k].level < n
  }

  /** A row has a button exactly when a deeper grouping exists. */
  predicate ButtonsMatchLevels<C>(rows: seq<Row<C>>, n: nat) {
    forall k :: 0 <= k < |rows| ==> (rows[k].button == Blank <==> rows[k].level + 1 >= n)
  }

  /** Going down the list, a row is at most one level deeper than the one before. */
  predicate StepsAtMostOne<C>(rows: seq<Row<C>>) {
    forall k :: 0 <= k < |rows| - 1 ==> rows[k + 1].level <= rows[k].level + 1
  }

  /** A row followed by a deeper row is shown as expanded. */
  predicate MinusBeforeDeeper<C>(rows: seq<Row<C>>) {
    forall k :: 0 <= k < |rows| - 1 && rows[k + 1].level > rows[k].level ==> rows[k].button == Minus
  }

  /** The local shape: every property except where the list starts. */
  predicate Shape<C>(rows: seq<Row<C>>, n: nat) {
    && LevelsBelow(rows, n)
    && ButtonsMatchLevels(rows, n)
    && StepsAtMostOne(rows)
    && MinusBeforeDeeper(rows)
  }

  predicate WellFormed<C>(rows: seq<Row<C>>, n: nat) {
    StartsAtTop(rows) && Shape(rows, n)
  }

  /** Two rows may stand next to each other in a well-formed list. */
  predicate Adjacent<C>(a: Row<C>, b: Row<C>) {
    && b.level <= a.level + 1
    && (b.level > a.level ==> a.button == Minus)
  }

  /** Every row can compute its own filter conditions. */
  predicate Expandable<C>(rows: seq<Row<C>>, groupBy: seq<string>) {
    forall k :: 0 <= k < |rows| ==> Covers(rows[k].fields, groupBy, rows[k].level)
  }

  /** Any contiguous part of a list keeps its shape. */
  lemma ShapeSlice<C>(rows: seq<Row<C>>, lo: nat, hi: nat, n: nat)
    requires Shape(rows, n) && lo <= hi <= |rows|
    ensures Shape(rows[lo..hi], n)
  {
    var s := rows[lo..hi];
    assert forall k :: 0 <= k < |s| ==> s[k] == rows[lo + k];
  }

  /** Joining two lists keeps the shape when the rows at the junction may be adjacent. */
  lemma ShapeConcat<C>(a: seq<Row<C>>, b: seq<Row<C>>, n: nat)
    requires Shape(a, n) && Shape(b, n)
    requires |a| > 0 && |b| > 0 ==> Adjacent(a[|a| - 1], b[0])
    ensures Shape(a + b, n)
  {
    var ab := a + b;
    assert forall k :: 0 <= k < |a| ==> ab[k] == a[k];
    assert forall k :: |a| <= k < |ab| ==> ab[k] == b[k - |a|];
    forall k | 0 <= k < |ab| - 1 ensures Adjacent(ab[k], ab[k + 1]) {
      if k + 1 < |a| {
        assert ab[k] == a[k] && ab[k + 1] == a[k + 1];
      } else if k + 1 > |a| {
        assert ab[k] == b[k - |a|] && ab[k + 1] == b[k - |a| + 1];
      }
    }
  }

  /** Replacing one row by a row `x` followed by `mid` keeps the shape when
      every junction may be adjacent. */
  lemma SpliceShape<C>(front: seq<Row<C>>, x: Row<C>, mid: seq<Row<C>>, back: seq<Row<C>>, n: nat)
    requires Shape(front, n) && Shape([x], n) && Shape(mid, n) && Shape(back, n)
    requires |front| > 0 ==> Adjacent(front[|front| - 1], x)
    requires |mid| > 0 ==> Adjacent(x, mid[0])
    requires |mid| > 0 && |back| > 0 ==> Adjacent(mid[|mid| - 1], back[0])
    requires |mid| == 0 && |back| > 0 ==> Adjacent(x, back[0])
    ensures Shape(front + [x] + mid + back, n)
  {
    ShapeConcat(front, [x], n);
    var a := front + [x];
    assert a[|a| - 1] == x;
    ShapeConcat(a, mid, n);
    var b := a + mid;
    assert |b| > 0 && b[|b| - 1] == if |mid| > 0 then mid[|mid| - 1] else x;
    ShapeConcat(b, back, n);
  }

  lemma ExpandableSplice<C>(front: seq<Row<C>>, x: Row<C>, mid: seq<Row<C>>, back: seq<Row<C>>, groupBy: seq<string>)
    requires Expandable(front, groupBy) && Expandable([x], groupBy)
    requires Expandable(mid, groupBy) && Expandable(back, groupBy)
    ensures Expandable(front + [x] + mid + back, groupBy)
  {
    ExpandableConcat(front, [x], groupBy);
    ExpandableConcat(front + [x], mid, groupBy);
    ExpandableConcat(front + [x] + mid, back, groupBy);
  }

  /** Rows prepared at one level, within the grouping depth, form a shaped list. */
  lemma PreparedShape<C>(data: seq<Fields<C>>, level: nat, parent: Conditions<C>, n: nat)
    requires level == 0 || level < n
    ensures Shape(PrepareAll(data, level, parent, n), n)
  {
  }

  lemma ExpandableSlice<C>(rows: seq<Row<C>>, lo: nat, hi: nat, groupBy: seq<string>)
    requires Expandable(rows, groupBy) && lo <= hi <= |rows|
    ensures Expandable(rows[lo..hi], groupBy)
  {
    var s := rows[lo..hi];
    assert forall k :: 0 <= k < |s| ==> s[k] == rows[lo + k];
  }

  lemma ExpandableConcat<C>(a: seq<Row<C>>, b: seq<Row<C>>, groupBy: seq<string>)
    requires Expandable(a, groupBy) && Expandable(b, groupBy)
    ensures Expandable(a + b, groupBy)
  {
    var ab := a + b;
    assert forall k :: |a| <= k < |ab| ==> ab[k] == b[k - |a|];
  }

  /** Top-level rows freshly prepared are well formed. */
  lemma PreparedTopWellFormed<C>(data: seq<Fields<C>>, groupBy: seq<string>)
    ensures WellFormed(PrepareAll(data, 0, [], |groupBy|), |groupBy|)
    ensures (forall j :: 0 <= j < |data| ==> Covers(data[j], groupBy, 0))
              ==> Expandable(PrepareAll(data, 0, [], |groupBy|), groupBy)
  {
  }
}
