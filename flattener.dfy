/**
 * Flattening the checked K-table into the three parallel arrays tIdxs,
 * sigmaIdxs and k0s: row by row and, within a row, property by property in
 * Object.entries order, the label skipped.
 *
 * The work is described in two layers. The first only lays out the
 * coefficients (a Slot per coefficient, row-major); the second converts
 * each slot into a Cell and stops at the first header that is not a
 * decimal, as the loader's loop does when Decimal(key) throws.
 */
module Flattener {
  import opened Decimals
  import opened FixedPoint
  import opened IndexExpander
  import opened LoadErrors
  import opened TableLoader

  /** One coefficient waiting to be converted: the index of its row, that row's tIdx, and the property. */
  datatype Slot = Slot(row: nat, tIdx: nat, entry: Entry)

  /** What a coefficient becomes: its tIdx, its sigma index string and its fixed-point value. */
  datatype Cell = Cell(tIdx: nat, sigmaIdx: string, k0: nat)

  /**
   * Three arrays read side by side: the flattened table, or one batch of it,
   * which is what one setK0InBatch call receives.
   */
  datatype Columns = Columns(tIdxs: seq<nat>, sigmaIdxs: seq<string>, k0s: seq<nat>)

  predicate Parallel(c: Columns) {
    |c.sigmaIdxs| == |c.tIdxs| && |c.k0s| == |c.tIdxs|
  }

  /** The cells laid out as three parallel arrays, position k holding cell k. */
  function ColumnsOf(cells: seq<Cell>): (c: Columns)
    ensures Parallel(c) && |c.tIdxs| == |cells|
  {
    Columns(seq(|cells|, k requires 0 <= k < |cells| => cells[k].tIdx),
            seq(|cells|, k requires 0 <= k < |cells| => cells[k].sigmaIdx),
            seq(|cells|, k requires 0 <= k < |cells| => cells[k].k0))
  }

  /** The arrays of b pushed after those of a. */
  function Append(a: Columns, b: Columns): Columns {
    Columns(a.tIdxs + b.tIdxs, a.sigmaIdxs + b.sigmaIdxs, a.k0s + b.k0s)
  }

  /** The arrays of two runs of cells, one after the other. */
  lemma ColumnsOfAppend(x: seq<Cell>, y: seq<Cell>)
    ensures ColumnsOf(x + y) == Append(ColumnsOf(x), ColumnsOf(y))
  {
    var l, a, b := ColumnsOf(x + y), ColumnsOf(x), ColumnsOf(y);
    forall k | 0 <= k < |x| + |y|
      ensures l.tIdxs[k] == (a.tIdxs + b.tIdxs)[k]
      ensures l.sigmaIdxs[k] == (a.sigmaIdxs + b.sigmaIdxs)[k]
      ensures l.k0s[k] == (a.k0s + b.k0s)[k]
    {
      if k < |x| {
        assert (x + y)[k] == x[k];
      } else {
        assert (x + y)[k] == y[k - |x|];
      }
    }
    assert l.tIdxs == a.tIdxs + b.tIdxs;
    assert l.sigmaIdxs == a.sigmaIdxs + b.sigmaIdxs;
    assert l.k0s == a.k0s + b.k0s;
  }

  /** Pushing one more cell onto the arrays. */
  lemma PushCell(acc: Columns, cells: seq<Cell>, c: Cell)
    ensures var a := Append(acc, ColumnsOf(cells));
            Append(acc, ColumnsOf(cells + [c])) == Columns(a.tIdxs + [c.tIdx], a.sigmaIdxs + [c.sigmaIdx], a.k0s + [c.k0])
  {
    ColumnsOfAppend(cells, [c]);
    var p := ColumnsOf(cells);
    var q := ColumnsOf([c]);
    assert q.tIdxs == [c.tIdx] && q.sigmaIdxs == [c.sigmaIdx] && q.k0s == [c.k0];
    assert (acc.tIdxs + p.tIdxs) + [c.tIdx] == acc.tIdxs + (p.tIdxs + [c.tIdx]);
    assert (acc.sigmaIdxs + p.sigmaIdxs) + [c.sigmaIdx] == acc.sigmaIdxs + (p.sigmaIdxs + [c.sigmaIdx]);
    assert (acc.k0s + p.k0s) + [c.k0] == acc.k0s + (p.k0s + [c.k0]);
  }

  // ---------------------------------------------------------------------
  // Layout

  /** The properties among the first n of a row other than its label, in order. */
  function DataEntries(row: Row, n: nat): (r: seq<Entry>)
    requires n <= |row|
    ensures |r| <= n
    ensures forall j :: 0 <= j < |r| ==> r[j].key != LABEL_KEY
  {
    if n == 0 then [] else DataEntries(row, n - 1) + if row[n - 1].key == LABEL_KEY then [] else [row[n - 1]]
  }

  /** The coefficients of a row: every property but the label. */
  function Coefficients(row: Row): seq<Entry> {
    DataEntries(row, |row|)
  }

  /**
   * tIdx of a row: its label over ten. The shape check that precedes the
   * flattening guarantees a label; a row without one is given 0 here.
   */
  function RowTIndex(row: Row): nat
  {
    match LabelOf(row)
    case Some(l) => TIndex(l)
    case None => 0
  }

  /** The slots of the coefficients among the first n properties of row i, whose tIdx is t. */
  function RowSlots(i: nat, t: nat, row: Row, n: nat): seq<Slot>
    requires n <= |row|
  {
    if n == 0 then [] else RowSlots(i, t, row, n - 1) + if row[n - 1].key == LABEL_KEY then [] else [Slot(i, t, row[n - 1])]
  }

  /** The slots of each row, as a function of the row's index. */
  function RowBlocks(table: Table): nat -> seq<Slot>
  {
    (i: nat) => if i < |table| then RowSlots(i, RowTIndex(table[i]), table[i], |table[i]|) else []
  }

  /** The first n blocks, one after the other. */
  function Stack<T>(blocks: nat -> seq<T>, n: nat): seq<T>
  {
    if n == 0 then [] else Stack(blocks, n - 1) + blocks(n - 1)
  }

  /** The slots of the first n rows, row after row. */
  function Slots(table: Table, n: nat): seq<Slot>
    requires n <= |table|
  {
    Stack(RowBlocks(table), n)
  }

  /** Adding row i adds its slots after those of the rows before it. */
  lemma SlotsSnoc(table: Table, i: nat)
    requires i < |table|
    ensures Slots(table, i + 1) == Slots(table, i) + RowSlots(i, RowTIndex(table[i]), table[i], |table[i]|)
  {
    assert RowBlocks(table)(i) == RowSlots(i, RowTIndex(table[i]), table[i], |table[i]|);
  }

  /** Slot j of a row holds the j-th coefficient. */
  lemma {:induction false} RowSlotsEntries(i: nat, t: nat, row: Row, n: nat)
    requires n <= |row|
    ensures |RowSlots(i, t, row, n)| == |DataEntries(row, n)|
    ensures forall j :: 0 <= j < |RowSlots(i, t, row, n)| ==> RowSlots(i, t, row, n)[j] == Slot(i, t, DataEntries(row, n)[j])
  {
    if n > 0 {
      RowSlotsEntries(i, t, row, n - 1);
    }
  }

  lemma {:induction false} RowSlotsPrefix(i: nat, t: nat, row: Row, j: nat, m: nat)
    requires j <= m <= |row|
    ensures RowSlots(i, t, row, j) <= RowSlots(i, t, row, m)
    decreases m - j
  {
    if j < m {
      RowSlotsPrefix(i, t, row, j, m - 1);
    }
  }

  lemma SlotsPrefix(table: Table, n: nat, m: nat)
    requires n <= m <= |table|
    ensures Slots(table, n) <= Slots(table, m)
  {
    StackPrefix(RowBlocks(table), n, m);
  }

  lemma {:induction false} StackPrefix<T>(blocks: nat -> seq<T>, n: nat, m: nat)
    requires n <= m
    ensures Stack(blocks, n) <= Stack(blocks, m)
    decreases m - n
  {
    if n < m {
      StackPrefix(blocks, n, m - 1);
    }
  }

  /**
   * Row-major layout: when each of the first n rows carries its own index as
   * tIdx and has 30 coefficients, there are n * 30 slots, and slot q * 30 + r
   * is the r-th coefficient of row q.
   */
  lemma {:induction false} SlotsLayout(table: Table, n: nat)
    requires n <= |table|
    requires forall i :: 0 <= i < n ==> RowTIndex(table[i]) == i && |Coefficients(table[i])| == SIGMA_LEN
    ensures |Slots(table, n)| == n * SIGMA_LEN
    ensures forall q, r :: 0 <= q < n && 0 <= r < SIGMA_LEN ==>
              Slots(table, n)[q * SIGMA_LEN + r] == Slot(q, q, Coefficients(table[q])[r])
  {
    var blocks := RowBlocks(table);
    RowBlocksLaidOut(table, n);
    StackLength(blocks, n, SIGMA_LEN);
    forall q, r | 0 <= q < n && 0 <= r < SIGMA_LEN
      ensures Slots(table, n)[q * SIGMA_LEN + r] == Slot(q, q, Coefficients(table[q])[r])
    {
      StackAt(blocks, n, SIGMA_LEN, q, r);
    }
  }

  /** Block i of a row that carries its own index and has 30 coefficients: slot r is coefficient r. */
  lemma RowBlocksLaidOut(table: Table, n: nat)
    requires n <= |table|
    requires forall i :: 0 <= i < n ==> RowTIndex(table[i]) == i && |Coefficients(table[i])| == SIGMA_LEN
    ensures forall i :: 0 <= i < n ==> |RowBlocks(table)(i)| == SIGMA_LEN
    ensures forall i, r :: 0 <= i < n && 0 <= r < SIGMA_LEN ==>
              RowBlocks(table)(i)[r] == Slot(i, i, Coefficients(table[i])[r])
  {
    forall i | 0 <= i < n
      ensures |RowBlocks(table)(i)| == SIGMA_LEN
      ensures forall r :: 0 <= r < SIGMA_LEN ==> RowBlocks(table)(i)[r] == Slot(i, i, Coefficients(table[i])[r])
    {
      RowSlotsEntries(i, i, table[i], |table[i]|);
    }
  }

  /** n blocks of w elements make n * w elements. */
  lemma {:induction false} StackLength<T>(blocks: nat -> seq<T>, n: nat, w: nat)
    requires forall i :: 0 <= i < n ==> |blocks(i)| == w
    ensures |Stack(blocks, n)| == n * w
  {
    if n > 0 {
      StackLength(blocks, n - 1, w);
    }
  }

  /** In blocks of w elements, element q * w + r is element r of block q. */
  lemma {:induction false} StackAt<T>(blocks: nat -> seq<T>, n: nat, w: nat, q: nat, r: nat)
    requires forall i :: 0 <= i < n ==> |blocks(i)| == w
    requires q < n && r < w
    ensures q * w + r < |Stack(blocks, n)|
    ensures Stack(blocks, n)[q * w + r] == blocks(q)[r]
  {
    StackLength(blocks, n - 1, w);
    if q < n - 1 {
      StackAt(blocks, n - 1, w, q, r);
    } else {
      assert q * w + r == |Stack(blocks, n - 1)| + r;
    }
  }

  /** A row with distinct keys and a label has one coefficient fewer than it has properties. */
  lemma CoefficientsCount(row: Row)
    requires DistinctKeys(row) && LabelOf(row).Some?
    ensures |Coefficients(row)| == |row| - 1
  {
    var j :| 0 <= j < |row| && row[j].key == LABEL_KEY;
    DataEntriesCount(row, |row|, j);
  }

  lemma {:induction false} DataEntriesCount(row: Row, n: nat, j: nat)
    requires DistinctKeys(row) && n <= |row| && j < |row| && row[j].key == LABEL_KEY
    ensures |DataEntries(row, n)| == if j < n then n - 1 else n
  {
    if n > 0 {
      DataEntriesCount(row, n - 1, j);
      if n - 1 != j {
        assert row[n - 1].key != LABEL_KEY by {
          if n - 1 < j { assert row[n - 1].key != row[j].key; } else { assert row[j].key != row[n - 1].key; }
        }
      }
    }
  }

  /** A coefficient of a row is one of the row's properties. */
  lemma {:induction false} DataEntriesFromRow(row: Row, n: nat)
    requires n <= |row|
    ensures forall e :: e in DataEntries(row, n) ==> e in row[..n]
  {
    if n > 0 {
      DataEntriesFromRow(row, n - 1);
      assert forall e :: e in row[..n - 1] ==> e in row[..n] by {
        assert row[..n - 1] == row[..n][..n - 1];
      }
      assert row[n - 1] == row[..n][n - 1];
    }
  }

  /** The coefficients of a row with distinct keys are its properties in order, the label taken out. */
  lemma CoefficientsSkipLabel(row: Row, j: nat)
    requires DistinctKeys(row) && j < |row| && row[j].key == LABEL_KEY
    ensures Coefficients(row) == row[..j] + row[j + 1..]
  {
    DataEntriesSkip(row, |row|, j);
  }

  lemma {:induction false} DataEntriesSkip(row: Row, n: nat, j: nat)
    requires DistinctKeys(row) && n <= |row| && j < |row| && row[j].key == LABEL_KEY
    ensures DataEntries(row, n) == if n <= j then row[..n] else row[..j] + row[j + 1..n]
  {
    if n > 0 {
      DataEntriesSkip(row, n - 1, j);
      if n - 1 < j {
        assert row[n - 1].key != row[j].key;
        assert row[..n] == row[..n - 1] + [row[n - 1]];
      } else if n - 1 > j {
        assert row[j].key != row[n - 1].key;
        assert row[j + 1..n] == row[j + 1..n - 1] + [row[n - 1]];
      } else {
        assert row[j + 1..n] == [];
      }
    }
  }

  lemma RowTIndexIsRow(row: Row, i: nat)
    requires RowShapeOk(row, i)
    ensures RowTIndex(row) == i
  {
    TIndexOfLabel(LabelOf(row).value, i);
  }

  /**
   * A checked table whose rows have distinct keys has 91 * 30 = 2730 slots;
   * slot k is the (k % 30)-th coefficient of row k / 30, never the label,
   * and carries tIdx k / 30.
   */
  lemma TableSlots(table: Table)
    requires ShapeOk(table)
    requires forall i :: 0 <= i < |table| ==> DistinctKeys(table[i])
    ensures |Slots(table, |table|)| == T_LEN * SIGMA_LEN
    ensures forall k :: 0 <= k < T_LEN * SIGMA_LEN ==>
              var q, r := k / SIGMA_LEN, k % SIGMA_LEN;
              && r < |Coefficients(table[q])|
              && Coefficients(table[q])[r] in table[q]
              && Coefficients(table[q])[r].key != LABEL_KEY
              && Slots(table, |table|)[k] == Slot(q, q, Coefficients(table[q])[r])
  {
    TableRows(table);
    SlotsLayout(table, |table|);
    forall k | 0 <= k < T_LEN * SIGMA_LEN
      ensures var q, r := k / SIGMA_LEN, k % SIGMA_LEN;
              && r < |Coefficients(table[q])|
              && Coefficients(table[q])[r] in table[q]
              && Coefficients(table[q])[r].key != LABEL_KEY
              && Slots(table, |table|)[k] == Slot(q, q, Coefficients(table[q])[r])
    {
      TableSlotAt(table, k);
    }
  }

  /** Every row of a checked table carries its own index and has 30 coefficients. */
  lemma TableRows(table: Table)
    requires ShapeOk(table)
    requires forall i :: 0 <= i < |table| ==> DistinctKeys(table[i])
    ensures forall i :: 0 <= i < |table| ==> RowTIndex(table[i]) == i && |Coefficients(table[i])| == SIGMA_LEN
  {
    forall i | 0 <= i < |table| ensures RowTIndex(table[i]) == i && |Coefficients(table[i])| == SIGMA_LEN {
      assert RowShapeOk(table[i], i);
      RowTIndexIsRow(table[i], i);
      CoefficientsCount(table[i]);
    }
  }

  /** Slot k of a checked table, the step of TableSlots for one position. */
  lemma TableSlotAt(table: Table, k: nat)
    requires |table| == T_LEN
    requires forall i :: 0 <= i < |table| ==> RowTIndex(table[i]) == i && |Coefficients(table[i])| == SIGMA_LEN
    requires k < T_LEN * SIGMA_LEN
    ensures var q, r := k / SIGMA_LEN, k % SIGMA_LEN;
            && q < |table|
            && r < |Coefficients(table[q])|
            && k < |Slots(table, |table|)|
            && Coefficients(table[q])[r] in table[q]
            && Coefficients(table[q])[r].key != LABEL_KEY
            && Slots(table, |table|)[k] == Slot(q, q, Coefficients(table[q])[r])
  {
    var q, r := k / SIGMA_LEN, k % SIGMA_LEN;
    GridPosition(k);
    SlotsLayout(table, |table|);
    CoefficientAt(table[q], r);
  }

  /** Position k of the grid is row k / 30, column k % 30. */
  lemma GridPosition(k: nat)
    requires k < T_LEN * SIGMA_LEN
    ensures k / SIGMA_LEN < T_LEN && k % SIGMA_LEN < SIGMA_LEN
    ensures k == k / SIGMA_LEN * SIGMA_LEN + k % SIGMA_LEN
  {
  }

  /** Coefficient r of a row is a property of the row and is not its label. */
  lemma CoefficientAt(row: Row, r: nat)
    requires r < |Coefficients(row)|
    ensures Coefficients(row)[r] in row && Coefficients(row)[r].key != LABEL_KEY
  {
    DataEntriesFromRow(row, |row|);
    assert row[..|row|] == row;
  }

  // ---------------------------------------------------------------------
  // Conversion

  /**
   * f applied to each element in order, stopping at the first error: the
   * loader's loop body either pushes a value or throws out of the loop.
   */
  function Collect<A, B>(f: A -> Result<B>, xs: seq<A>): Result<seq<B>>
  {
    if xs == [] then
      Ok([])
    else
      match Collect(f, xs[..|xs| - 1])
      case Err(err) => Err(err)
      case Ok(ys) =>
        match f(xs[|xs| - 1])
        case Err(err) => Err(err)
        case Ok(y) => Ok(ys + [y])
  }

  /** Collect over one more element. */
  lemma CollectSnoc<A, B>(f: A -> Result<B>, xs: seq<A>, x: A)
    ensures Collect(f, xs + [x]) ==
            match Collect(f, xs)
            case Err(err) => Err(err)
            case Ok(ys) => (match f(x) case Err(err) => Err(err) case Ok(y) => Ok(ys + [y]))
  {
    assert (xs + [x])[..|xs|] == xs;
  }

  /** Collect over a concatenation: the first part, then the second. */
  lemma {:induction false} CollectAppend<A, B>(f: A -> Result<B>, xs: seq<A>, ys: seq<A>)
    ensures Collect(f, xs + ys) ==
            match Collect(f, xs)
            case Err(err) => Err(err)
            case Ok(us) => (match Collect(f, ys) case Err(err) => Err(err) case Ok(vs) => Ok(us + vs))
  {
    if ys == [] {
      assert xs + ys == xs;
      assert Collect(f, ys) == Ok([]);
      if Collect(f, xs).Ok? {
        assert Collect(f, xs).value + [] == Collect(f, xs).value;
      }
    } else {
      var p := ys[..|ys| - 1];
      CollectAppend(f, xs, p);
      assert (xs + ys)[..|xs + ys| - 1] == xs + p;
      assert (xs + ys)[|xs + ys| - 1] == ys[|ys| - 1];
      if Collect(f, xs).Ok? && Collect(f, p).Ok? && f(ys[|ys| - 1]).Ok? {
        var us, vs, v := Collect(f, xs).value, Collect(f, p).value, f(ys[|ys| - 1]).value;
        assert (us + vs) + [v] == us + (vs + [v]);
      }
    }
  }

  /** The index of the first element on which f fails, |xs| when there is none. */
  function FirstFailure<A, B>(f: A -> Result<B>, xs: seq<A>): (k: nat)
    ensures k <= |xs|
    ensures forall j :: 0 <= j < k ==> f(xs[j]).Ok?
    ensures k < |xs| ==> f(xs[k]).Err?
  {
    if xs == [] then
      0
    else if FirstFailure(f, xs[..|xs| - 1]) < |xs| - 1 || f(xs[|xs| - 1]).Err? then
      FirstFailure(f, xs[..|xs| - 1])
    else
      |xs|
  }

  /**
   * Collect fails exactly with the error of the first element f rejects;
   * when f accepts them all it gives one result per element, in order.
   */
  lemma {:induction false} CollectSpec<A, B>(f: A -> Result<B>, xs: seq<A>)
    ensures var k := FirstFailure(f, xs);
            if k < |xs| then
              Collect(f, xs) == Err(f(xs[k]).error)
            else
              && Collect(f, xs).Ok?
              && |Collect(f, xs).value| == |xs|
              && forall j :: 0 <= j < |xs| ==> f(xs[j]) == Ok(Collect(f, xs).value[j])
  {
    if xs != [] {
      var p := xs[..|xs| - 1];
      CollectSpec(f, p);
      if FirstFailure(f, p) == |p| && f(xs[|xs| - 1]).Ok? {
        var ys := Collect(f, p).value;
        var y := f(xs[|xs| - 1]).value;
        assert Collect(f, xs).value == ys + [y];
        forall j | 0 <= j < |xs| ensures f(xs[j]) == Ok((ys + [y])[j]) {
          if j < |p| {
            assert xs[j] == p[j];
          }
        }
      } else if FirstFailure(f, p) < |p| {
        assert xs[FirstFailure(f, p)] == p[FirstFailure(f, p)];
      }
    }
  }

  /** Once a prefix fails, the whole of Collect fails with the same error. */
  lemma {:induction false} CollectErrorStays<A, B>(f: A -> Result<B>, xs: seq<A>, all: seq<A>)
    requires xs <= all && Collect(f, xs).Err?
    ensures Collect(f, all) == Collect(f, xs)
    decreases |all|
  {
    if |xs| < |all| {
      assert xs <= all[..|all| - 1];
      CollectErrorStays(f, xs, all[..|all| - 1]);
    } else {
      assert xs == all;
    }
  }

  /** The cell of one coefficient, or the error Decimal.js raises on a header that is not a decimal. */
  function ExpandEntry(s: Slot): (r: Result<Cell>)
    ensures r.Ok? <==> Readable(s)
    ensures r.Err? ==> r.error == HeaderNotDecimal(s.row, s.entry.key)
    ensures r.Ok? ==> r.value.tIdx == s.tIdx && r.value.k0 == Encode(s.entry.value)
    ensures r.Ok? ==> SigmaString(s.entry.key).Some? && r.value.sigmaIdx == SigmaString(s.entry.key).value
  {
    match SigmaString(s.entry.key)
    case None => Err(HeaderNotDecimal(s.row, s.entry.key))
    case Some(sigma) => Ok(Cell(s.tIdx, sigma, Encode(s.entry.value)))
  }

  /** The cells of a table in row-major order, or the error of its first unreadable header. */
  function Cells(table: Table): (r: Result<seq<Cell>>)
    ensures r.Ok? ==> |r.value| == |Slots(table, |table|)|
    ensures r.Err? ==> r.error.HeaderNotDecimal?
  {
    CollectSpec(ExpandEntry, Slots(table, |table|));
    Collect(ExpandEntry, Slots(table, |table|))
  }

  /** The header of the slot can be read as a decimal. */
  predicate Readable(s: Slot) {
    ParseSigned(s.entry.key).Some?
  }

  /**
   * Flattening fails exactly at the first slot, in row-major order, whose
   * header is not a decimal, and reports that row and that header.
   */
  lemma CellsError(table: Table)
    ensures var ss := Slots(table, |table|);
            var k := FirstFailure(ExpandEntry, ss);
            && (Cells(table).Err? <==> k < |ss|)
            && (k < |ss| ==>
                  && !Readable(ss[k])
                  && (forall j :: 0 <= j < k ==> Readable(ss[j]))
                  && Cells(table) == Err(HeaderNotDecimal(ss[k].row, ss[k].entry.key)))
  {
    var ss := Slots(table, |table|);
    CollectSpec(ExpandEntry, ss);
  }

  /**
   * A checked table whose rows have distinct keys and whose headers are all
   * readable gives 2730 cells, cell k holding tIdx k / 30, the sigma index of
   * the (k % 30)-th coefficient header of row k / 30 and the fixed-point value
   * of its coefficient.
   */
  lemma CellsLayout(table: Table)
    requires ShapeOk(table)
    requires forall i :: 0 <= i < |table| ==> DistinctKeys(table[i])
    requires Cells(table).Ok?
    ensures |Cells(table).value| == T_LEN * SIGMA_LEN
    ensures forall k :: 0 <= k < T_LEN * SIGMA_LEN ==>
              && k % SIGMA_LEN < |Coefficients(table[k / SIGMA_LEN])|
              && var e := Coefficients(table[k / SIGMA_LEN])[k % SIGMA_LEN];
                 && e.key != LABEL_KEY
                 && ParseSigned(e.key).Some?
                 && Cells(table).value[k] == Cell(k / SIGMA_LEN, SigmaString(e.key).value, Encode(e.value))
  {
    CellsCount(table);
    forall k | 0 <= k < T_LEN * SIGMA_LEN
      ensures && k % SIGMA_LEN < |Coefficients(table[k / SIGMA_LEN])|
              && var e := Coefficients(table[k / SIGMA_LEN])[k % SIGMA_LEN];
                 && e.key != LABEL_KEY
                 && ParseSigned(e.key).Some?
                 && Cells(table).value[k] == Cell(k / SIGMA_LEN, SigmaString(e.key).value, Encode(e.value))
    {
      CellAt(table, k);
    }
  }

  lemma CellsCount(table: Table)
    requires ShapeOk(table)
    requires forall i :: 0 <= i < |table| ==> DistinctKeys(table[i])
    requires Cells(table).Ok?
    ensures |Cells(table).value| == T_LEN * SIGMA_LEN
  {
    TableSlots(table);
    CollectSpec(ExpandEntry, Slots(table, |table|));
  }

  /** Cell k of a checked table, the step of CellsLayout for one position. */
  lemma CellAt(table: Table, k: nat)
    requires ShapeOk(table)
    requires forall i :: 0 <= i < |table| ==> DistinctKeys(table[i])
    requires Cells(table).Ok?
    requires k < T_LEN * SIGMA_LEN
    ensures k / SIGMA_LEN < |table|
    ensures k % SIGMA_LEN < |Coefficients(table[k / SIGMA_LEN])|
    ensures k < |Cells(table).value|
    ensures var e := Coefficients(table[k / SIGMA_LEN])[k % SIGMA_LEN];
            && e.key != LABEL_KEY
            && ParseSigned(e.key).Some?
            && Cells(table).value[k] == Cell(k / SIGMA_LEN, SigmaString(e.key).value, Encode(e.value))
  {
    var ss := Slots(table, |table|);
    TableSlots(table);
    CollectSpec(ExpandEntry, ss);
    assert ExpandEntry(ss[k]) == Ok(Cells(table).value[k]);
  }

  // ---------------------------------------------------------------------
  // Flattening, as the loader's nested loops do it

  /**
   * The loader's outer loop over the rows: each row's coefficients pushed
   * in turn, the whole loop stopped by the first unreadable header.
   */
  method Flatten(table: Table) returns (r: Result<Columns>)
    ensures r == match Cells(table) case Ok(cells) => Ok(ColumnsOf(cells)) case Err(err) => Err(err)
  {
    var acc := Columns([], [], []);
    ghost var cells: seq<Cell> := [];
    for i := 0 to |table|
      invariant Collect(ExpandEntry, Slots(table, i)) == Ok(cells)
      invariant acc == ColumnsOf(cells)
    {
      var row := table[i];
      var tIdx := RowTIndex(row);
      var next := PushRow(i, tIdx, row, acc);
      RowStep(table, i, cells);
      if next.Err? {
        return Err(next.error);
      }
      ghost var rowCells := Collect(ExpandEntry, RowSlots(i, tIdx, row, |row|)).value;
      ColumnsOfAppend(cells, rowCells);
      acc := next.value;
      cells := cells + rowCells;
    }
    return Ok(acc);
  }

  /**
   * One row of the outer loop: a row that fails is the error of the whole
   * table, a row that converts adds its cells.
   */
  lemma RowStep(table: Table, i: nat, cells: seq<Cell>)
    requires i < |table|
    requires Collect(ExpandEntry, Slots(table, i)) == Ok(cells)
    ensures var rs := Collect(ExpandEntry, RowSlots(i, RowTIndex(table[i]), table[i], |table[i]|));
            && (rs.Err? ==> Cells(table) == Err(rs.error))
            && (rs.Ok? ==> Collect(ExpandEntry, Slots(table, i + 1)) == Ok(cells + rs.value))
  {
    var row := table[i];
    SlotsSnoc(table, i);
    CollectAppend(ExpandEntry, Slots(table, i), RowSlots(i, RowTIndex(row), row, |row|));
    if Collect(ExpandEntry, RowSlots(i, RowTIndex(row), row, |row|)).Err? {
      SlotsPrefix(table, i + 1, |table|);
      CollectErrorStays(ExpandEntry, Slots(table, i + 1), Slots(table, |table|));
    }
  }

  /**
   * The loader's inner loop over the properties of row i, whose tIdx is t:
   * each coefficient pushes its tIdx, its sigma index string and its
   * fixed-point value onto the arrays; the label is skipped; a header that
   * is not a decimal throws.
   */
  method PushRow(i: nat, t: nat, row: Row, acc: Columns) returns (r: Result<Columns>)
    ensures r == match Collect(ExpandEntry, RowSlots(i, t, row, |row|))
                 case Ok(cells) => Ok(Append(acc, ColumnsOf(cells)))
                 case Err(err) => Err(err)
  {
    var tIdxs, sigmaIdxs, k0s := acc.tIdxs, acc.sigmaIdxs, acc.k0s;
    ghost var cells: seq<Cell> := [];
    for j := 0 to |row|
      invariant Collect(ExpandEntry, RowSlots(i, t, row, j)) == Ok(cells)
      invariant Columns(tIdxs, sigmaIdxs, k0s) == Append(acc, ColumnsOf(cells))
    {
      var key, value := row[j].key, row[j].value;
      if key == LABEL_KEY {
        LabelStep(i, t, row, j);
        continue;
      }
      PushStep(i, t, row, j, cells);
      var sigma := SigmaString(key);
      if sigma.None? {
        return Err(HeaderNotDecimal(i, key));
      }
      var c := Cell(t, sigma.value, Encode(value));
      PushCell(acc, cells, c);
      tIdxs := tIdxs + [c.tIdx];
      sigmaIdxs := sigmaIdxs + [c.sigmaIdx];
      k0s := k0s + [c.k0];
      cells := cells + [c];
    }
    return Ok(Columns(tIdxs, sigmaIdxs, k0s));
  }

  /** The label adds no slot. */
  lemma LabelStep(i: nat, t: nat, row: Row, j: nat)
    requires j < |row| && row[j].key == LABEL_KEY
    ensures RowSlots(i, t, row, j + 1) == RowSlots(i, t, row, j)
  {
    assert RowSlots(i, t, row, j) + [] == RowSlots(i, t, row, j);
  }

  /**
   * One coefficient of the inner loop: an unreadable header is the error of
   * the whole row, a readable one adds its cell.
   */
  lemma PushStep(i: nat, t: nat, row: Row, j: nat, cells: seq<Cell>)
    requires j < |row| && row[j].key != LABEL_KEY
    requires Collect(ExpandEntry, RowSlots(i, t, row, j)) == Ok(cells)
    ensures var sigma := SigmaString(row[j].key);
            && (sigma.None? ==> Collect(ExpandEntry, RowSlots(i, t, row, |row|)) == Err(HeaderNotDecimal(i, row[j].key)))
            && (sigma.Some? ==> Collect(ExpandEntry, RowSlots(i, t, row, j + 1)) ==
                                Ok(cells + [Cell(t, sigma.value, Encode(row[j].value))]))
  {
    CollectSnoc(ExpandEntry, RowSlots(i, t, row, j), Slot(i, t, row[j]));
    if SigmaString(row[j].key).None? {
      RowSlotsPrefix(i, t, row, j + 1, |row|);
      CollectErrorStays(ExpandEntry, RowSlots(i, t, row, j + 1), RowSlots(i, t, row, |row|));
    }
  }
}
