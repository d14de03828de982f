/**
 * The K-table as the spreadsheet reader hands it over, and the shape check
 * the loader applies to it before computing anything.
 *
 * A row is the list of an object's properties in the order Object.entries
 * gives them: the row label under the key "__EMPTY" (the spreadsheet's
 * unnamed first column) and one coefficient per column, keyed by the
 * column's header.
 */
module TableLoader {
  import opened Decimals
  import opened LoadErrors

  /** The number of rows: t runs over 0, 10, ..., 900. */
  const T_LEN: nat := 91
  /** The number of coefficient columns; the data is meant to have sigma headers 0.0001 ... 0.0030, which no check enforces. */
  const SIGMA_LEN: nat := 30
  /** The key under which the spreadsheet reader stores the label column. */
  const LABEL_KEY: string := "__EMPTY"

  /** One property of a row object: a key and the number stored under it. */
  datatype Entry = Entry(key: string, value: Decimal)

  type Row = seq<Entry>

  type Table = seq<Row>

  /** Every key occurs at most once, as in any object. */
  predicate DistinctKeys(row: Row) {
    forall a, b :: 0 <= a < b < |row| ==> row[a].key != row[b].key
  }

  /** The value of row.__EMPTY, None when the row has no such property. */
  function LabelOf(row: Row): (r: Option<Decimal>)
    ensures r.None? <==> forall j :: 0 <= j < |row| ==> row[j].key != LABEL_KEY
    ensures r.Some? ==> exists j :: 0 <= j < |row| && row[j] == Entry(LABEL_KEY, r.value)
  {
    if row == [] then
      None
    else if row[0].key == LABEL_KEY then
      Some(row[0].value)
    else
      var r := LabelOf(row[1..]);
      assert forall j :: 1 <= j < |row| ==> row[j] == row[1..][j - 1];
      r
  }

  /** Row i has 30 coefficients plus its label, and its label is 10 * i. */
  predicate RowShapeOk(row: Row, i: nat) {
    && |row| == SIGMA_LEN + 1
    && LabelOf(row).Some?
    && IsValue(LabelOf(row).value, 10 * i)
  }

  /** The table has the shape of the K-table. */
  predicate ShapeOk(table: Table) {
    && |table| == T_LEN
    && forall i :: 0 <= i < |table| ==> RowShapeOk(table[i], i)
  }

  /** The first of the two checks on row i that fails, if any. */
  function RowError(row: Row, i: nat): (r: Option<LoadError>)
    ensures r.None? <==> RowShapeOk(row, i)
  {
    if |row| != SIGMA_LEN + 1 then
      Some(KeyCountMismatch(i, SIGMA_LEN + 1, |row|))
    else if !(LabelOf(row).Some? && IsValue(LabelOf(row).value, 10 * i)) then
      Some(LabelMismatch(i, 10 * i, LabelOf(row)))
    else
      None
  }

  /** The error of the first ill-shaped row from index `from` on. */
  function FirstRowError(table: Table, from: nat): (r: Option<LoadError>)
    requires from <= |table|
    ensures r.None? <==> forall j :: from <= j < |table| ==> RowShapeOk(table[j], j)
    ensures r.Some? ==>
              && (r.value.KeyCountMismatch? || r.value.LabelMismatch?)
              && from <= r.value.row < |table|
              && r == RowError(table[r.value.row], r.value.row)
              && forall j :: from <= j < r.value.row ==> RowShapeOk(table[j], j)
    decreases |table| - from
  {
    if from == |table| then
      None
    else if RowError(table[from], from).Some? then
      RowError(table[from], from)
    else
      FirstRowError(table, from + 1)
  }

  /** What the shape check reports: the row count first, then the rows in order. */
  function ShapeError(table: Table): (r: Option<LoadError>)
    ensures r.None? <==> ShapeOk(table)
    ensures r.Some? ==> IsShapeError(r.value)
    ensures |table| != T_LEN ==> r == Some(RowCountMismatch(T_LEN, |table|))
  {
    if |table| != T_LEN then Some(RowCountMismatch(T_LEN, |table|)) else FirstRowError(table, 0)
  }

  /** The shape check: the row count, then the key count and the label of each row in turn. */
  method CheckShape(table: Table) returns (o: Outcome)
    ensures o == if ShapeOk(table) then Pass else Fail(ShapeError(table).value)
  {
    if |table| != T_LEN {
      return Fail(RowCountMismatch(T_LEN, |table|));
    }
    for i := 0 to |table|
      invariant FirstRowError(table, 0) == FirstRowError(table, i)
    {
      if |table[i]| != SIGMA_LEN + 1 {
        return Fail(KeyCountMismatch(i, SIGMA_LEN + 1, |table[i]|));
      }
      var rowLabel := LabelOf(table[i]);
      if !(rowLabel.Some? && IsValue(rowLabel.value, 10 * i)) {
        return Fail(LabelMismatch(i, 10 * i, rowLabel));
      }
    }
    return Pass;
  }
}
