/**
 * The loader script end to end: check the shape of the table, flatten it
 * into the three arrays, check their lengths, submit them in batches of
 * 300, and report through the callback either nothing (success) or the
 * first error met.
 */
module KTableLoader {
  import opened Decimals
  import opened FixedPoint
  import opened IndexExpander
  import opened LoadErrors
  import opened TableLoader
  import opened Flattener
  import opened BatchPlanner
  import opened LedgerSubmitter

  /** Entries per setK0InBatch call: ten rows' worth. */
  const STEP: nat := SIGMA_LEN * 10
  /** The length each of the three arrays must have: one entry per coefficient of the grid. */
  const CELL_COUNT: nat := SIGMA_LEN * T_LEN

  /**
   * What a run of the loader does with a table and a ledger: each check in
   * the order the script makes it, the first failure reported with nothing
   * submitted; otherwise the batches are submitted until one fails.
   */
  function LoadSpec(table: Table, ledger: Ledger): (run: Run)
    ensures run.outcome.Pass? ==> ShapeOk(table) && Cells(table).Ok? && |Cells(table).value| == CELL_COUNT
    ensures run.sent != [] ==> ShapeOk(table) && Cells(table).Ok? && |Cells(table).value| == CELL_COUNT
  {
    match ShapeError(table)
    case Some(e) => Run(Fail(e), [])
    case None =>
      match Cells(table)
      case Err(e) => Run(Fail(e), [])
      case Ok(cells) =>
        var cols := ColumnsOf(cells);
        if |cols.tIdxs| != CELL_COUNT then
          Run(Fail(CountMismatch(CELL_COUNT, |cols.tIdxs|)), [])
        else
          Submission(PlanBatches(cols, STEP), ledger)
  }

  /**
   * The script's body. The three length checks are one here: the arrays
   * are parallel, so their lengths agree.
   */
  method Load(table: Table, ledger: Ledger) returns (run: Run)
    ensures run == LoadSpec(table, ledger)
  {
    var o := CheckShape(table);
    if o.Fail? {
      return Run(o, []);
    }
    var r := Flatten(table);
    if r.Err? {
      return Run(Fail(r.error), []);
    }
    var cols := r.value;
    if |cols.tIdxs| != CELL_COUNT {
      return Run(Fail(CountMismatch(CELL_COUNT, |cols.tIdxs|)), []);
    }
    run := SubmitBatches(cols, STEP, ledger);
  }

  /** A table of the wrong shape is reported with its first shape error, and nothing is submitted. */
  lemma LoadRejectsShape(table: Table, ledger: Ledger)
    requires !ShapeOk(table)
    ensures LoadSpec(table, ledger).sent == []
    ensures LoadSpec(table, ledger).outcome == Fail(ShapeError(table).value)
    ensures IsShapeError(LoadSpec(table, ledger).outcome.error)
  {
    assert ShapeError(table).Some?;
  }

  /**
   * A well-shaped table with a header that is not a decimal is reported
   * with the row and the header of the first such coefficient, in row-major
   * order, and nothing is submitted.
   */
  lemma LoadRejectsHeader(table: Table, ledger: Ledger)
    requires ShapeOk(table) && Cells(table).Err?
    ensures var ss := Slots(table, |table|);
            var k := FirstFailure(ExpandEntry, ss);
            && k < |ss|
            && !Readable(ss[k])
            && (forall j :: 0 <= j < k ==> Readable(ss[j]))
            && LoadSpec(table, ledger) == Run(Fail(HeaderNotDecimal(ss[k].row, ss[k].entry.key)), [])
  {
    CellsError(table);
    assert ShapeError(table).None?;
  }

  /**
   * A well-formed table passes every check and is submitted in ten
   * batches, nine of 300 entries and a last one of 30.
   */
  lemma LoadWellFormed(table: Table, ledger: Ledger)
    requires ShapeOk(table)
    requires forall i :: 0 <= i < |table| ==> DistinctKeys(table[i])
    requires Cells(table).Ok?
    ensures var plan := PlanBatches(ColumnsOf(Cells(table).value), STEP);
            && LoadSpec(table, ledger) == Submission(plan, ledger)
            && |plan| == 10
            && (forall b :: 0 <= b < 9 ==> |plan[b].tIdxs| == 300)
            && |plan[9].tIdxs| == 30
  {
    CellsLayout(table);
    assert ShapeError(table).None?;
    CanonicalPlan(ColumnsOf(Cells(table).value));
  }

  /**
   * A run that fails at batch j passed every check before, attempted
   * batches 0 to j of the ten in order, all accepted but the last, and
   * submitted nothing after it.
   */
  lemma LoadFailsAtBatch(table: Table, ledger: Ledger, j: nat)
    requires LoadSpec(table, ledger).outcome == Fail(SubmissionFailure(j))
    ensures ShapeOk(table) && Cells(table).Ok?
    ensures var plan := PlanBatches(ColumnsOf(Cells(table).value), STEP);
            && |plan| == 10
            && j < 10
            && LoadSpec(table, ledger).sent == plan[..j + 1]
            && (forall b :: 0 <= b < j ==> ledger(plan[..b], plan[b]))
            && !ledger(plan[..j], plan[j])
  {
    assert ShapeError(table).None?;
    CellsError(table);
    var cols := ColumnsOf(Cells(table).value);
    assert |cols.tIdxs| == CELL_COUNT;
    var plan := PlanBatches(cols, STEP);
    assert LoadSpec(table, ledger) == Submission(plan, ledger);
    SubmissionStopsAtFailure(plan, ledger, j);
    CanonicalPlan(cols);
  }

  /**
   * A successful run submitted the whole table in ten batches: entry m of
   * batch b is position k = 300 * b + m of the flattened table, which holds
   * tIdx k / 30, the sigma index of the (k % 30)-th coefficient header of row
   * k / 30, and the fixed-point value of that coefficient.
   */
  lemma LoadSucceeds(table: Table, ledger: Ledger)
    requires forall i :: 0 <= i < |table| ==> DistinctKeys(table[i])
    requires LoadSpec(table, ledger).outcome.Pass?
    ensures var sent := LoadSpec(table, ledger).sent;
            && |sent| == 10
            && Join(sent) == ColumnsOf(Cells(table).value)
            && forall b, m :: 0 <= b < |sent| && 0 <= m < |sent[b].tIdxs| ==> Holds(table, sent[b], b, m)
  {
    var sent := LoadSpec(table, ledger).sent;
    var plan := PlanBatches(ColumnsOf(Cells(table).value), STEP);
    assert ShapeError(table).None?;
    assert sent == plan;
    PlanJoin(ColumnsOf(Cells(table).value), STEP);
    LoadWellFormed(table, ledger);
    forall b, m | 0 <= b < |sent| && 0 <= m < |sent[b].tIdxs| ensures Holds(table, sent[b], b, m) {
      SubmittedEntry(table, ledger, b, m);
    }
  }

  /** The position in the flattened arrays of entry m of batch b. */
  function Position(b: nat, m: nat): nat {
    Offset(b, STEP) + m
  }

  /** Entry m of batch b sits at 300 * b + m. */
  lemma PositionValue(b: nat, m: nat)
    ensures Position(b, m) == 300 * b + m
  {
    OffsetIsProduct(b, STEP);
  }

  /** Entry m of batch b is what the table holds at position k = 300 * b + m of the flattened arrays. */
  predicate Holds(table: Table, batch: Columns, b: nat, m: nat) {
    var k := Position(b, m);
    && m < |batch.tIdxs| && m < |batch.sigmaIdxs| && m < |batch.k0s|
    && k < CELL_COUNT
    && k / SIGMA_LEN < |table|
    && k % SIGMA_LEN < |Coefficients(table[k / SIGMA_LEN])|
    && var e := Coefficients(table[k / SIGMA_LEN])[k % SIGMA_LEN];
       && SigmaString(e.key).Some?
       && batch.tIdxs[m] == k / SIGMA_LEN
       && batch.sigmaIdxs[m] == SigmaString(e.key).value
       && batch.k0s[m] == Encode(e.value)
  }

  /** A successful run sent the whole plan of the flattened table. */
  lemma LoadSentPlan(table: Table, ledger: Ledger)
    requires LoadSpec(table, ledger).outcome.Pass?
    ensures ShapeOk(table) && Cells(table).Ok? && |Cells(table).value| == CELL_COUNT
    ensures LoadSpec(table, ledger).sent == PlanBatches(ColumnsOf(Cells(table).value), STEP)
  {
    assert ShapeError(table).None?;
  }

  lemma SubmittedEntry(table: Table, ledger: Ledger, b: nat, m: nat)
    requires forall i :: 0 <= i < |table| ==> DistinctKeys(table[i])
    requires LoadSpec(table, ledger).outcome.Pass?
    requires b < |LoadSpec(table, ledger).sent| && m < |LoadSpec(table, ledger).sent[b].tIdxs|
    ensures Holds(table, LoadSpec(table, ledger).sent[b], b, m)
  {
    LoadSentPlan(table, ledger);
    PlanEntry(table, b, m);
  }

  /** Entry m of batch b of the plan of a checked table holds the table's cell at 300 * b + m. */
  lemma PlanEntry(table: Table, b: nat, m: nat)
    requires forall i :: 0 <= i < |table| ==> DistinctKeys(table[i])
    requires ShapeOk(table) && Cells(table).Ok? && |Cells(table).value| == CELL_COUNT
    requires b < |PlanBatches(ColumnsOf(Cells(table).value), STEP)|
    requires m < |PlanBatches(ColumnsOf(Cells(table).value), STEP)[b].tIdxs|
    ensures Holds(table, PlanBatches(ColumnsOf(Cells(table).value), STEP)[b], b, m)
  {
    var cells := Cells(table).value;
    PlanCell(cells, b, m);
    CellAt(table, Position(b, m));
    HoldsOfCell(table, PlanBatches(ColumnsOf(cells), STEP)[b], cells, b, m, Position(b, m));
  }

  /** Entry m of batch b of the plan of any 2730 cells is the fields of cell 300 * b + m. */
  lemma PlanCell(cells: seq<Cell>, b: nat, m: nat)
    requires |cells| == CELL_COUNT
    requires b < |PlanBatches(ColumnsOf(cells), STEP)|
    requires m < |PlanBatches(ColumnsOf(cells), STEP)[b].tIdxs|
    ensures var batch, k := PlanBatches(ColumnsOf(cells), STEP)[b], Position(b, m);
            && m < |batch.sigmaIdxs| && m < |batch.k0s| && k < |cells|
            && batch.tIdxs[m] == cells[k].tIdx
            && batch.sigmaIdxs[m] == cells[k].sigmaIdx
            && batch.k0s[m] == cells[k].k0
  {
    BatchEntry(ColumnsOf(cells), STEP, b, m);
    PositionValue(b, m);
  }

  lemma HoldsOfCell(table: Table, batch: Columns, cells: seq<Cell>, b: nat, m: nat, k: nat)
    requires k == Position(b, m)
    requires m < |batch.tIdxs| && m < |batch.sigmaIdxs| && m < |batch.k0s|
    requires k < CELL_COUNT && k < |cells|
    requires batch.tIdxs[m] == cells[k].tIdx
    requires batch.sigmaIdxs[m] == cells[k].sigmaIdx
    requires batch.k0s[m] == cells[k].k0
    requires k / SIGMA_LEN < |table| && k % SIGMA_LEN < |Coefficients(table[k / SIGMA_LEN])|
    requires var e := Coefficients(table[k / SIGMA_LEN])[k % SIGMA_LEN];
             && SigmaString(e.key).Some?
             && cells[k] == Cell(k / SIGMA_LEN, SigmaString(e.key).value, Encode(e.value))
    ensures Holds(table, batch, b, m)
  {
  }
}
