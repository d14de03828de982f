/**
 * Submitting the batches to the K-table contract, one setK0InBatch call
 * after the other, each awaited before the next; a call that fails ends the
 * run and its error is what the loader reports.
 *
 * What the contract does with a batch is outside the model: a Ledger says,
 * given the batches submitted so far and the next one, whether that call
 * succeeds.
 */
module LedgerSubmitter {
  import opened LoadErrors
  import opened Flattener
  import opened BatchPlanner

  /** Whether setK0InBatch, after the given earlier calls, accepts the next batch. */
  type Ledger = (seq<Columns>, Columns) -> bool

  /** What a run reports through the callback, and the batches it submitted, the failing one included. */
  datatype Run = Run(outcome: Outcome, sent: seq<Columns>)

  /** Array.prototype.slice(start, end) for indices that are not negative: both ends are clamped to the length. */
  function JsSlice<T>(s: seq<T>, start: nat, end: nat): (r: seq<T>)
    ensures start <= end <= |s| ==> r == s[start..end]
    ensures start <= |s| <= end ==> r == s[start..]
    ensures |s| <= start ==> r == []
    ensures end <= start ==> r == []
  {
    var lo := Min(start, |s|);
    var hi := Min(end, |s|);
    if hi <= lo then [] else s[lo..hi]
  }

  /** The first batch from `from` on that the ledger rejects, or |plan| when it accepts them all. */
  function FirstRejected(plan: seq<Columns>, ledger: Ledger, from: nat): (j: nat)
    requires from <= |plan|
    ensures from <= j <= |plan|
    ensures forall b :: from <= b < j ==> ledger(plan[..b], plan[b])
    ensures j < |plan| ==> !ledger(plan[..j], plan[j])
    decreases |plan| - from
  {
    if from == |plan| then from
    else if !ledger(plan[..from], plan[from]) then from
    else FirstRejected(plan, ledger, from + 1)
  }

  /**
   * The batches submitted in order until one fails: every batch when the
   * ledger accepts them all, otherwise batches 0 to j, where j is the first
   * rejected, and the run fails naming batch j.
   */
  function Submission(plan: seq<Columns>, ledger: Ledger): (run: Run)
    ensures run.sent <= plan
    ensures run.outcome.Pass? <==> forall b :: 0 <= b < |plan| ==> ledger(plan[..b], plan[b])
    ensures run.outcome.Pass? ==> run.sent == plan
    ensures run.outcome.Fail? ==>
              exists j :: 0 <= j < |plan| && run == Run(Fail(SubmissionFailure(j)), plan[..j + 1])
  {
    var j := FirstRejected(plan, ledger, 0);
    if j == |plan| then
      assert plan[..|plan|] == plan;
      Run(Pass, plan)
    else
      Run(Fail(SubmissionFailure(j)), plan[..j + 1])
  }

  /** A failing run names the first rejected batch: every batch before it was accepted, none after it was sent. */
  lemma SubmissionStopsAtFailure(plan: seq<Columns>, ledger: Ledger, j: nat)
    requires Submission(plan, ledger).outcome == Fail(SubmissionFailure(j))
    ensures j < |plan|
    ensures Submission(plan, ledger).sent == plan[..j + 1]
    ensures forall b :: 0 <= b < j ==> ledger(plan[..b], plan[b])
    ensures !ledger(plan[..j], plan[j])
  {
    var f := FirstRejected(plan, ledger, 0);
    assert f < |plan| && Submission(plan, ledger) == Run(Fail(SubmissionFailure(f)), plan[..f + 1]);
  }

  /**
   * The submission loop: windows [start, end) of step entries while
   * i < n / step, end moved on by step and clamped to n after each call.
   */
  method SubmitBatches(cols: Columns, step: nat, ledger: Ledger) returns (run: Run)
    requires step > 0 && Parallel(cols)
    ensures run == Submission(PlanBatches(cols, step), ledger)
  {
    ghost var plan := PlanBatches(cols, step);
    var n := |cols.tIdxs|;
    var start: nat := 0;
    var end: nat := start + step;
    var sent: seq<Columns> := [];
    var i := 0;
    assert Offset(1, step) == step;
    while i * step < n
      invariant i <= |plan|
      invariant Min(start, n) == Min(Offset(i, step), n)
      invariant Min(end, n) == Min(Offset(i + 1, step), n)
      invariant sent == plan[..i]
      invariant FirstRejected(plan, ledger, 0) == FirstRejected(plan, ledger, i)
      decreases |plan| - i
    {
      NextBatch(cols, step, i, start, end);
      var batch := Columns(JsSlice(cols.tIdxs, start, end), JsSlice(cols.sigmaIdxs, start, end), JsSlice(cols.k0s, start, end));
      var accepted := ledger(sent, batch);
      SubmitStep(plan, ledger, i);
      sent := sent + [batch];
      if !accepted {
        return Run(Fail(SubmissionFailure(i)), sent);
      }
      Advance(n, step, i, end);
      start := end;
      end := start + step;
      if end > n {
        end := n;
      }
      i := i + 1;
    }
    OffsetIsProduct(i, step);
    PiecesBound(n, step, i);
    SubmitDone(plan, ledger, i);
    return Run(Pass, sent);
  }

  /** One more batch: accepted, the search for the first rejection moves on; rejected, the run ends here. */
  lemma SubmitStep(plan: seq<Columns>, ledger: Ledger, i: nat)
    requires i < |plan|
    requires FirstRejected(plan, ledger, 0) == FirstRejected(plan, ledger, i)
    ensures plan[..i + 1] == plan[..i] + [plan[i]]
    ensures ledger(plan[..i], plan[i]) ==> FirstRejected(plan, ledger, 0) == FirstRejected(plan, ledger, i + 1)
    ensures !ledger(plan[..i], plan[i]) ==> Submission(plan, ledger) == Run(Fail(SubmissionFailure(i)), plan[..i + 1])
  {
  }

  /** Past the last batch with none rejected, the run has passed and sent the whole plan. */
  lemma SubmitDone(plan: seq<Columns>, ledger: Ledger, i: nat)
    requires i == |plan|
    requires FirstRejected(plan, ledger, 0) == FirstRejected(plan, ledger, i)
    ensures plan[..i] == plan
    ensures Submission(plan, ledger) == Run(Pass, plan)
  {
  }

  /** At the head of the loop body, the three slices are batch i of the plan. */
  lemma NextBatch(cols: Columns, step: nat, i: nat, start: nat, end: nat)
    requires step > 0 && Parallel(cols)
    requires i * step < |cols.tIdxs|
    requires Min(start, |cols.tIdxs|) == Min(Offset(i, step), |cols.tIdxs|)
    requires Min(end, |cols.tIdxs|) == Min(Offset(i + 1, step), |cols.tIdxs|)
    ensures i < |PlanBatches(cols, step)|
    ensures Columns(JsSlice(cols.tIdxs, start, end), JsSlice(cols.sigmaIdxs, start, end), JsSlice(cols.k0s, start, end))
            == PlanBatches(cols, step)[i]
  {
    OffsetIsProduct(i, step);
    PiecesBound(|cols.tIdxs|, step, i);
    BatchAt(cols, step, i);
    Window(cols.tIdxs, step, i, start, end);
    Window(cols.sigmaIdxs, step, i, start, end);
    Window(cols.k0s, step, i, start, end);
  }

  /** Inside the loop, the clamped slice [start, end) is window i. */
  lemma Window<T>(s: seq<T>, step: nat, i: nat, start: nat, end: nat)
    requires Offset(i, step) < |s|
    requires Min(start, |s|) == Min(Offset(i, step), |s|) && Min(end, |s|) == Min(Offset(i + 1, step), |s|)
    ensures JsSlice(s, start, end) == s[Offset(i, step)..Min(Offset(i + 1, step), |s|)]
  {
    assert Offset(i + 1, step) == Offset(i, step) + step;
  }

  /** Moving the window on: the old end becomes the start, and the new end, clamped, is that of window i + 1. */
  lemma Advance(n: nat, step: nat, i: nat, end: nat)
    requires Min(end, n) == Min(Offset(i + 1, step), n)
    ensures var e := if end + step > n then n else end + step;
            Min(e, n) == Min(Offset(i + 2, step), n)
  {
    assert Offset(i + 2, step) == Offset(i + 1, step) + step;
  }
}
