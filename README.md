# CoFiX K-table loader, modelled in Dafny

The script `scripts/setKTable.js` loads the K-table of the CoFiX protocol
into the `CoFiXKTable` contract. The table is a spreadsheet with 91 rows,
for t = 0, 10, ..., 900, and 30 coefficient columns. The data is meant to
have the column headers sigma = 0.0001 ... 0.0030, but the script never
checks their values: any 30 headers that Decimal.js can read pass. The
script works in five steps:

1. It checks the shape of the table: 91 rows, 31 properties in each row
   (30 coefficients and the label `__EMPTY`), and row i labelled 10 * i.
2. It flattens the table row by row into three parallel arrays. For each
   coefficient it pushes:
   - the row index `tIdx = label / 10`;
   - the column index `sigma = header / 0.0001 - 1`, in exact decimal
     arithmetic, rendered as a string;
   - the coefficient in 64.64 fixed point, `floor(c * 2^64)`.
3. It checks that each array holds 91 * 30 = 2730 entries.
4. It cuts the arrays into windows of 300 entries and submits them one
   `setK0InBatch` call at a time.
5. It reports success or the first error through its callback.

The model has one module per stage, in one file each:

| module | file | what it holds |
|---|---|---|
| `Decimals` | `decimals.dfy` | exact decimals; reading a numeral as Decimal.js does; Decimal.js's positional `toString` |
| `FixedPoint` | `fixed_point.dfy` | `convert_into_fixed_point` as the exact floor of c * 2^64 |
| `IndexExpander` | `index_expander.dfy` | tIdx from a row label; the sigma index of a column header |
| `LoadErrors` | `load_errors.dfy` | the errors the script can report; `Result` and `Outcome` |
| `TableLoader` | `table_loader.dfy` | the table as the spreadsheet reader gives it; the shape check (`CheckShape`, a method with a loop) |
| `Flattener` | `flattener.dfy` | the nested flatten loops (`Flatten` and `PushRow`, methods that push onto the three arrays) and the row-major layout they produce |
| `BatchPlanner` | `batch_planner.dfy` | the windows of 300 entries and their properties |
| `LedgerSubmitter` | `ledger_submitter.dfy` | the `start`/`end` submission loop (`SubmitBatches`) and a run that stops at the first rejected call |
| `KTableLoader` | `ktable_loader.dfy` | the script end to end (`Load`) and the properties of a whole run |

Each loop of the script is a method. Its `ensures` ties the result to a
specification function: `CheckShape` to `ShapeError`, `Flatten` to `Cells`,
`SubmitBatches` to `Submission(PlanBatches(...))`, and `Load` to
`LoadSpec`. The lemmas then state what the script promises about those
functions.

Inputs the script takes from outside are parameters of the model:

- The parsed spreadsheet is a `Table`. A row is the list of its
  properties in `Object.entries` order.
- The contract is a `Ledger`. This function says whether `setK0InBatch`
  succeeds, given the batches submitted before and the current batch.
- A `Run` is how the load ended (`Pass`, or `Fail(error)` when the
  callback is handed an exception), together with the batches the run
  submitted. A `LoadError` names the check that failed and where the
  script stopped; the exception the script passes on carries less (see
  "## Left out").

## Model

| member | source | states |
|---|---|---|
| TableLoader.LabelOf | scripts/setKTable.js:40 | `row.__EMPTY` is None exactly when no property has that key; otherwise it is the value of a property with that key |
| TableLoader.RowError | scripts/setKTable.js:39-40 | a row passes its two checks exactly when it has 31 properties and its label is 10 * i |
| TableLoader.FirstRowError | scripts/setKTable.js:38-41 | the checks stop at the first bad row: it is reported, and every earlier row passed |
| TableLoader.ShapeError | scripts/setKTable.js:37-41 | no error exactly when there are 91 rows, each with 31 keys, and row i is labelled 10 * i; a wrong row count is reported before any row |
| TableLoader.CheckShape | scripts/setKTable.js:37-41 | the checking loop passes exactly for well-shaped tables and otherwise reports the first violation in the script's order |
| FixedPoint.Encode | scripts/setKTable.js:14-16 | the fixed-point value r satisfies r <= c * 2^64 < r + 1 |
| FixedPoint.EncodeIsFloor | scripts/setKTable.js:14-16 | only one integer satisfies that bracket, so the encoding is exactly floor(c * 2^64) |
| FixedPoint.EncodeOne | scripts/setKTable.js:14-16 | 1 (also written 1.0) encodes to 2^64 |
| FixedPoint.EncodeHalf | scripts/setKTable.js:14-16 | 0.5 encodes to 2^63 |
| FixedPoint.EncodeRescale | scripts/setKTable.js:14-16 | two spellings of one decimal (0.5 and 0.50) encode alike |
| FixedPoint.EncodeMonotone | scripts/setKTable.js:14-16 | a larger coefficient never encodes to a smaller integer |
| FixedPoint.EncodeFixedToDecimal | scripts/setKTable.js:14-16 | encoding the exact decimal r / 2^64 gives r back |
| IndexExpander.TIndex | scripts/setKTable.js:47 | tIdx is the whole part of label / 10: t <= label / 10 < t + 1 |
| Flattener.RowTIndexIsRow | scripts/setKTable.js:47 | `RowTIndex`, the tIdx a row is flattened with, is i for row i of a table that passed the shape check |
| IndexExpander.TIndexOfLabel | scripts/setKTable.js:47 | a row labelled 10 * i gets tIdx i |
| IndexExpander.SigmaIndex | scripts/setKTable.js:54 | the result equals header * 10^4 - 1 as a rational number |
| IndexExpander.SigmaString | scripts/setKTable.js:54-55 | a sigma string exists exactly when Decimal.js can read the header |
| IndexExpander.SigmaOfLargeHeader | scripts/setKTable.js:54 | the header 99999999999999999 gets sigma 999999999999999989999 exactly, 21 digits, where Decimal.js would round to 20 |
| IndexExpander.SigmaOfExample | scripts/setKTable.js:54-55 | the header "0.0003" gives the sigma string "2" |
| IndexExpander.GridSigma | scripts/setKTable.js:54-55 | column k of the grid, header k / 10^4, gets sigma k - 1, rendered as the digits of k - 1 |
| IndexExpander.SigmaOfGridHeader | scripts/setKTable.js:54-55 | the header string of column k gives the sigma string of k - 1 |
| IndexExpander.SigmaStringExact | scripts/setKTable.js:54-55 | nothing is lost on the way: reading the pushed string back gives a number equal to header * 10^4 - 1 |
| Decimals.ParseUnsigned | scripts/setKTable.js:54 | the scale of the number read is the count of characters after the (first) point, and 0 without a point, so it is below the numeral's length; ParseUnsignedAccepts and ParseRenderUnsigned give its accepted syntax and its round trip |
| Decimals.ParseSigned | scripts/setKTable.js:54 | `Decimal(key)` reads the header exactly when what follows an optional leading '-' or '+' is a plain numeral; a negative number needs the '-' |
| Decimals.ParseUnsignedAccepts | scripts/setKTable.js:54 | an unsigned numeral is read exactly when it is digits with at most one point and at least one digit |
| Decimals.Normalize | scripts/setKTable.js:55 | the normal form has the same value and no trailing fractional zero |
| Decimals.RenderSigned | scripts/setKTable.js:55 | `toString` gives a non-empty string that starts with '-' exactly when the number is negative; ParseRenderSigned reads it back to the number's normal form |
| Decimals.ParseRenderUnsigned | scripts/setKTable.js:55 | reading a rendered unsigned decimal gives back its mantissa and scale |
| Decimals.ParseRenderSigned | scripts/setKTable.js:55 | reading a rendered number gives back its normal form |
| Flattener.DataEntries | scripts/setKTable.js:48-52 | the kept properties are never the label, and there are no more of them than properties; CoefficientsSkipLabel says which they are |
| Flattener.CoefficientsSkipLabel | scripts/setKTable.js:48-52 | in a row with distinct keys whose label is property j, the coefficients are every other property, in `Object.entries` order: row[..j] + row[j + 1..] |
| Flattener.CoefficientsCount | scripts/setKTable.js:48-52 | a row with distinct keys and a label yields one coefficient fewer than it has properties |
| Flattener.TableSlots | scripts/setKTable.js:46-53 | a checked table has 2730 coefficients; slot k is the (k % 30)-th coefficient of row k / 30 (the label skipped), is a property of that row, is not the label, and carries tIdx k / 30 |
| Flattener.SlotsLayout | scripts/setKTable.js:46-53 | rows of 30 coefficients that carry their own index lay out row-major: slot q * 30 + r is coefficient r of row q |
| Flattener.CollectSpec | scripts/setKTable.js:48-58 | the conversion stops at the first element that fails and reports it; before that, every element converted |
| Flattener.ExpandEntry | scripts/setKTable.js:53-57 | one coefficient converts exactly when its header can be read; the cell carries the row's tIdx, the header's sigma string and the coefficient's fixed-point value, and the error names the row and the header |
| Flattener.Cells | scripts/setKTable.js:43-59 | the flattened table has one cell per coefficient slot, or fails with an unreadable header; CellsLayout and CellsError give its layout and its error |
| Flattener.CellsError | scripts/setKTable.js:54 | flattening fails exactly at the first coefficient, in row-major order, whose header Decimal.js cannot read, and reports that row and header |
| Flattener.CellsLayout | scripts/setKTable.js:43-68 | a checked table whose headers read gives 2730 cells; cell k holds tIdx k / 30, the sigma string of the (k % 30)-th coefficient header of row k / 30, and that coefficient's fixed-point value |
| Flattener.PushRow | scripts/setKTable.js:48-58 | the inner loop appends the cells of one row to the three arrays, and skips the label, in order; it stops at an unreadable header |
| Flattener.Flatten | scripts/setKTable.js:43-59 | the outer loop gives the three arrays of all cells in row-major order, or the error of the first unreadable header |
| BatchPlanner.PiecesIsCeiling | scripts/setKTable.js:74 | the number of windows is the ceiling of n / step |
| BatchPlanner.PiecesBound | scripts/setKTable.js:74 | window i exists exactly when it starts inside the arrays, which is the loop's guard i < n / step |
| BatchPlanner.Chunks | scripts/setKTable.js:70-85 | the windows are not empty and hold at most step entries each |
| BatchPlanner.ChunksConcat | scripts/setKTable.js:70-85 | joined in order, the windows give the array back |
| BatchPlanner.ChunkAt | scripts/setKTable.js:75-84 | window i is positions [i * step, min((i + 1) * step, n)) |
| BatchPlanner.PlanBatches | scripts/setKTable.js:70-85 | every batch is non-empty, has at most step entries, and its three slices have equal length |
| BatchPlanner.PlanCount | scripts/setKTable.js:74 | there are ceil(n / step) batches |
| BatchPlanner.PlanJoin | scripts/setKTable.js:70-85 | in order, the batches partition the three arrays, with no gap and no overlap |
| BatchPlanner.BatchAt | scripts/setKTable.js:75-77 | batch i holds the same window of each of the three arrays |
| BatchPlanner.BatchEntry | scripts/setKTable.js:75-77 | entry m of batch i is entry i * step + m of the arrays |
| BatchPlanner.CanonicalPlan | scripts/setKTable.js:70-85 | 2730 entries in windows of 300 make ten batches: nine of 300 and a last one of 30 |
| LedgerSubmitter.JsSlice | scripts/setKTable.js:75-77 | `slice(start, end)` with both ends clamped to the length |
| LedgerSubmitter.FirstRejected | scripts/setKTable.js:79 | the first rejected batch: all before it are accepted |
| LedgerSubmitter.Submission | scripts/setKTable.js:79-89 | a run passes exactly when every batch is accepted, and then it has sent every batch; otherwise it fails naming some batch j and has sent batches 0 to j, a prefix of the plan |
| LedgerSubmitter.SubmissionStopsAtFailure | scripts/setKTable.js:79-89 | a run that fails at batch j sent batches 0 to j in order, every batch before j was accepted, j was rejected, and nothing after j was sent |
| LedgerSubmitter.SubmitBatches | scripts/setKTable.js:70-85 | the `start`/`end` loop, with `end` clamped after each call, submits exactly the planned batches in order and stops at the first failure |
| KTableLoader.LoadSpec | scripts/setKTable.js:37-89 | a run that passes, or that sent anything, got through the shape check, the flattening and the length check |
| KTableLoader.Load | scripts/setKTable.js:37-89 | the script's body runs the checks in its order and then the submission loop, as LoadSpec says |
| KTableLoader.LoadRejectsShape | scripts/setKTable.js:37-41 | a badly shaped table is reported with its first shape error, and nothing is submitted |
| KTableLoader.LoadRejectsHeader | scripts/setKTable.js:54 | a well-shaped table with an unreadable header is reported with the first such row and header, and nothing is submitted |
| KTableLoader.LoadWellFormed | scripts/setKTable.js:66-85 | a well-formed table passes every check and goes out in ten batches, nine of 300 and one of 30 |
| KTableLoader.LoadFailsAtBatch | scripts/setKTable.js:79-89 | a run that fails at batch j passed every check, attempted batches 0 to j of the ten, all accepted but j, and sent nothing after j |
| KTableLoader.LoadSucceeds | scripts/setKTable.js:43-87 | a successful run sent ten batches that join into the flattened table; entry m of batch b holds row k / 30, the sigma of column k % 30 and that coefficient's fixed-point value, where k = 300 * b + m |
| KTableLoader.PositionValue | scripts/setKTable.js:75-81 | entry m of batch b sits at position 300 * b + m |

## Left out

- Contract lookup and deployment selection, through `yargs` and
  `CoFiXKTable.deployed()` / `at()` (lines 20-28), are not modelled. They
  are network calls. The contract is the `Ledger` parameter.
- Reading the spreadsheet (lines 33-35) is file I/O in a library the model
  cannot see. The parsed table is the `Table` input.
- `console.log` and the chai machinery are not modelled. A failed `expect`
  is the `LoadError` it stands for.
- `setK0InBatch` itself and the `await` timing are not modelled. A `Ledger`
  decides the outcome of each call from the calls made before.
- `scripts/setThetaToController.js` is not part of this model. It only
  forwards values to contract calls.
- FixedPoint.Encode: does not model the IEEE double product `coeff * 2 ** 64`
  or its hexadecimal rendering at line 15. Above 2^53 a double keeps only 53
  significant bits, so the script actually pushes a rounded value. The model
  gives the exact truncation the script intends. The coefficients are
  non-negative decimals: the values the spreadsheet hands over are taken as
  exact decimals, not binary floats.
- Every `Entry` value is a non-negative decimal, labels included. A negative or non-numeric `__EMPTY` label cannot be given to
  the model; the script would reject it at line 40, as the model rejects
  any label other than 10 * i.
- A `LoadError` records where the script stopped: the row of a
  failed shape check or unreadable header, the index of a rejected batch.
  The script's callback receives only the exception itself: chai's
  "expected 30 to equal 31", Decimal.js's "Invalid argument: <key>", or the
  contract call's own rejection. The row or batch index appears at most in
  its console log.
- Decimals.ParseSigned: reads only positional numerals, with an optional
  leading '-' or '+' (the unsigned part is Decimals.ParseUnsigned). Decimal.js also accepts exponents, hexadecimal, binary and octal
  prefixes, `NaN` and `Infinity`. The model does not accept those; here they
  become "not a decimal".
- IndexExpander.SigmaIndex: is exact. Decimal.js rounds the results of
  `div` and `sub` to 20 significant digits, so the two differ as soon as the
  header or header * 10^4 - 1 has more than 20 significant digits: for the
  header 99999999999999999, Decimal.js gives 999999999999999990000 and the
  model gives 999999999999999989999. `toString` switches to exponential notation for very small or
  very large numbers; the model always renders positional notation.
- Flattener.RowTIndex: gives tIdx 0 to a row without a label, where
  JavaScript would compute `undefined / 10`, which is NaN. For a label that
  is not a multiple of 10 it rounds down (`IndexExpander.TIndex`: label 15
  gives 1), where JavaScript would push 1.5. Flattening only runs after the
  shape check, which rules both kinds of row out.
- Flattener.PushRow: the inner loop of the script is a method of its own.
  The arrays it extends are passed in and returned, instead of being
  updated in place.
- KTableLoader.Load: the script checks the lengths of the three arrays one
  after the other (lines 66-68). The model checks once, because the arrays
  are built together and always have the same length
  (`Flattener.ColumnsOf`).
- The model does not require a row's keys to be distinct, but JavaScript
  objects always have distinct keys. The lemmas about the layout of a
  checked table (`TableSlots`, `CellsLayout`, `LoadWellFormed`,
  `LoadSucceeds`) assume `DistinctKeys`.
