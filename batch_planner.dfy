/**
 * Cutting the flattened arrays into the batches the loader submits: step
 * entries at a time, the last batch possibly shorter.
 */
module BatchPlanner {
  import opened Decimals
  import opened TableLoader
  import opened Flattener

  function Min(a: nat, b: nat): nat {
    if a <= b then a else b
  }

  /** The concatenation of a sequence of sequences, in order. */
  function Concat<T>(ss: seq<seq<T>>): seq<T>
  {
    if ss == [] then [] else ss[0] + Concat(ss[1..])
  }

  /**
   * Where batch i starts: i * step, written as repeated addition so that
   * reasoning about consecutive windows stays linear.
   */
  function Offset(i: nat, step: nat): nat
  {
    if i == 0 then 0 else Offset(i - 1, step) + step
  }

  lemma {:induction false} OffsetIsProduct(i: nat, step: nat)
    ensures Offset(i, step) == i * step
  {
    if i > 0 {
      OffsetIsProduct(i - 1, step);
      assert (i - 1) * step + step == i * step;
    }
  }

  /** The number of pieces of at most `step` elements that cover n elements. */
  function Pieces(n: nat, step: nat): nat
    requires step > 0
    decreases n
  {
    if n == 0 then 0 else if n <= step then 1 else 1 + Pieces(n - step, step)
  }

  /** The number of batches the loop runs is the ceiling of n / step. */
  function BatchCount(n: nat, step: nat): nat
    requires step > 0
  {
    FloorDiv(n + step - 1, step)
  }

  /** There are ceil(n / step) pieces. */
  lemma {:induction false} PiecesIsCeiling(n: nat, step: nat)
    requires step > 0
    ensures Pieces(n, step) == BatchCount(n, step)
    decreases n
  {
    if n == 0 {
      FloorUnique(step - 1, step, 0);
    } else if n <= step {
      FloorUnique(n + step - 1, step, 1);
    } else {
      PiecesIsCeiling(n - step, step);
      var q := BatchCount(n - step, step);
      assert q * step <= n - 1 < (q + 1) * step;
      assert (q + 1) * step <= n + step - 1 < (q + 2) * step;
      FloorUnique(n + step - 1, step, q + 1);
    }
  }

  /** Batch i exists exactly when its window starts inside the array. */
  lemma {:induction false} PiecesBound(n: nat, step: nat, i: nat)
    requires step > 0
    ensures i < Pieces(n, step) <==> Offset(i, step) < n
    decreases n
  {
    if i > 0 {
      if n <= step {
        OffsetAtLeastStep(i, step);
      } else {
        PiecesBound(n - step, step, i - 1);
      }
    }
  }

  lemma OffsetAtLeastStep(i: nat, step: nat)
    requires i > 0
    ensures Offset(i, step) >= step
  {
  }

  /**
   * The array cut into consecutive pieces of `step` elements, the last one
   * possibly shorter: none empty and none longer than step.
   */
  function Chunks<T>(s: seq<T>, step: nat): (r: seq<seq<T>>)
    requires step > 0
    ensures |r| == Pieces(|s|, step)
    ensures forall j :: 0 <= j < |r| ==> 0 < |r[j]| <= step
    decreases |s|
  {
    if |s| == 0 then
      []
    else if |s| <= step then
      [s]
    else
      var rest := Chunks(s[step..], step);
      var r := [s[..step]] + rest;
      assert forall j :: 1 <= j < |r| ==> r[j] == rest[j - 1];
      r
  }

  /** Put back together, in order, the pieces give the array. */
  lemma {:induction false} ChunksConcat<T>(s: seq<T>, step: nat)
    requires step > 0
    ensures Concat(Chunks(s, step)) == s
    decreases |s|
  {
    if 0 < |s| <= step {
      assert Concat([s]) == s + Concat<T>([]);
    } else if |s| > step {
      ChunksTail(s, step);
      ChunksConcat(s[step..], step);
      var r := Chunks(s, step);
      assert r[1..] == Chunks(s[step..], step);
      assert s[..step] + s[step..] == s;
    }
  }

  /** Piece i of Chunks is the window [i * step, min((i + 1) * step, n)) of the array. */
  lemma {:induction false} ChunkAt<T>(s: seq<T>, step: nat, i: nat)
    requires step > 0 && i < |Chunks(s, step)|
    ensures Offset(i, step) < |s|
    ensures Chunks(s, step)[i] == s[Offset(i, step)..Min(Offset(i + 1, step), |s|)]
    decreases |s|
  {
    if i == 0 {
      ChunkFirst(s, step);
    } else {
      assert step < |s|;
      ChunksTail(s, step);
      ChunkAt(s[step..], step, i - 1);
      ChunkNext(s, step, i);
    }
  }

  lemma ChunkFirst<T>(s: seq<T>, step: nat)
    requires step > 0 && 0 < |Chunks(s, step)|
    ensures 0 < |s|
    ensures Chunks(s, step)[0] == s[0..Min(Offset(1, step), |s|)]
  {
    assert Offset(1, step) == step;
  }

  /** The step of ChunkAt: window i - 1 of the rest of the array is window i of the array. */
  lemma ChunkNext<T>(s: seq<T>, step: nat, i: nat)
    requires 0 < step < |s| && 0 < i
    requires Chunks(s, step) == [s[..step]] + Chunks(s[step..], step)
    requires i < |Chunks(s, step)|
    requires Offset(i - 1, step) < |s| - step
    requires Chunks(s[step..], step)[i - 1] == s[step..][Offset(i - 1, step)..Min(Offset(i, step), |s| - step)]
    ensures Offset(i, step) < |s|
    ensures Chunks(s, step)[i] == s[Offset(i, step)..Min(Offset(i + 1, step), |s|)]
  {
    var lo, hi := Offset(i - 1, step), Min(Offset(i, step), |s| - step);
    assert lo + step == Offset(i, step);
    assert hi + step == Min(Offset(i + 1, step), |s|);
    DropSlice(s, step, lo, hi);
  }

  /** Past the first piece, the pieces are those of the rest of the array. */
  lemma ChunksTail<T>(s: seq<T>, step: nat)
    requires step > 0 && step < |s|
    ensures Chunks(s, step) == [s[..step]] + Chunks(s[step..], step)
  {
  }

  lemma DropSlice<T>(s: seq<T>, d: nat, lo: nat, hi: nat)
    requires d <= |s| && lo <= hi <= |s| - d
    ensures s[d..][lo..hi] == s[lo + d..hi + d]
  {
  }

  /**
   * The batches the loader submits, in order: batch i holds positions
   * [i * step, min((i + 1) * step, n)) of the three arrays; none is empty,
   * none holds more than step entries, and together, in order, they are the
   * arrays.
   */
  function PlanBatches(cols: Columns, step: nat): (plan: seq<Columns>)
    requires step > 0 && Parallel(cols)
    ensures |plan| == Pieces(|cols.tIdxs|, step)
    ensures forall i :: 0 <= i < |plan| ==> Parallel(plan[i]) && 0 < |plan[i].tIdxs| <= step
  {
    var ts, ss, ks := Chunks(cols.tIdxs, step), Chunks(cols.sigmaIdxs, step), Chunks(cols.k0s, step);
    var plan := seq(|ts|, i requires 0 <= i < |ts| => Columns(ts[i], ss[i], ks[i]));
    forall i | 0 <= i < |plan| ensures Parallel(plan[i]) {
      ChunkAt(cols.tIdxs, step, i);
      ChunkAt(cols.sigmaIdxs, step, i);
      ChunkAt(cols.k0s, step, i);
    }
    plan
  }

  /** In order, the batches partition the arrays: joined back together they are the arrays. */
  lemma PlanJoin(cols: Columns, step: nat)
    requires step > 0 && Parallel(cols)
    ensures Join(PlanBatches(cols, step)) == cols
  {
    var ts, ss, ks := Chunks(cols.tIdxs, step), Chunks(cols.sigmaIdxs, step), Chunks(cols.k0s, step);
    JoinZip(PlanBatches(cols, step), ts, ss, ks);
    ChunksConcat(cols.tIdxs, step);
    ChunksConcat(cols.sigmaIdxs, step);
    ChunksConcat(cols.k0s, step);
  }

  /** There are ceil(n / step) batches. */
  lemma PlanCount(cols: Columns, step: nat)
    requires step > 0 && Parallel(cols)
    ensures |PlanBatches(cols, step)| == BatchCount(|cols.tIdxs|, step)
  {
    PiecesIsCeiling(|cols.tIdxs|, step);
  }

  /** Batch i of the plan is the window [i * step, min((i + 1) * step, n)) of each of the three arrays. */
  lemma BatchAt(cols: Columns, step: nat, i: nat)
    requires step > 0 && Parallel(cols) && i < |PlanBatches(cols, step)|
    ensures Offset(i, step) < |cols.tIdxs|
    ensures var lo, hi := Offset(i, step), Min(Offset(i + 1, step), |cols.tIdxs|);
            PlanBatches(cols, step)[i] == Columns(cols.tIdxs[lo..hi], cols.sigmaIdxs[lo..hi], cols.k0s[lo..hi])
  {
    ChunkAt(cols.tIdxs, step, i);
    ChunkAt(cols.sigmaIdxs, step, i);
    ChunkAt(cols.k0s, step, i);
  }

  /** Entry m of batch i is entry i * step + m of the arrays. */
  lemma BatchEntry(cols: Columns, step: nat, i: nat, m: nat)
    requires step > 0 && Parallel(cols) && i < |PlanBatches(cols, step)|
    requires m < |PlanBatches(cols, step)[i].tIdxs|
    ensures var batch, k := PlanBatches(cols, step)[i], Offset(i, step) + m;
            && k < |cols.tIdxs|
            && batch.tIdxs[m] == cols.tIdxs[k]
            && batch.sigmaIdxs[m] == cols.sigmaIdxs[k]
            && batch.k0s[m] == cols.k0s[k]
  {
    BatchAt(cols, step, i);
  }

  /** The three arrays of a list of batches, each concatenated in order. */
  function Join(plan: seq<Columns>): Columns
  {
    Columns(Concat(seq(|plan|, i requires 0 <= i < |plan| => plan[i].tIdxs)),
            Concat(seq(|plan|, i requires 0 <= i < |plan| => plan[i].sigmaIdxs)),
            Concat(seq(|plan|, i requires 0 <= i < |plan| => plan[i].k0s)))
  }

  lemma JoinZip(plan: seq<Columns>, ts: seq<seq<nat>>, ss: seq<seq<string>>, ks: seq<seq<nat>>)
    requires |ts| == |ss| == |ks| == |plan|
    requires forall i :: 0 <= i < |plan| ==> plan[i] == Columns(ts[i], ss[i], ks[i])
    ensures Join(plan) == Columns(Concat(ts), Concat(ss), Concat(ks))
  {
    assert seq(|plan|, i requires 0 <= i < |plan| => plan[i].tIdxs) == ts;
    assert seq(|plan|, i requires 0 <= i < |plan| => plan[i].sigmaIdxs) == ss;
    assert seq(|plan|, i requires 0 <= i < |plan| => plan[i].k0s) == ks;
  }

  /** The K-table's 2730 entries in batches of 300: ten batches, nine of 300 and a last one of 30. */
  lemma CanonicalPlan(cols: Columns)
    requires Parallel(cols) && |cols.tIdxs| == T_LEN * SIGMA_LEN
    ensures var plan := PlanBatches(cols, SIGMA_LEN * 10);
            && |plan| == 10
            && (forall i :: 0 <= i < 9 ==> |plan[i].tIdxs| == 300)
            && |plan[9].tIdxs| == 30
  {
    var step := SIGMA_LEN * 10;
    var plan := PlanBatches(cols, step);
    PiecesIsCeiling(2730, 300);
    FloorUnique(2730 + 299, 300, 10);
    assert |plan| == 10;
    forall i | 0 <= i < 9 ensures |plan[i].tIdxs| == 300 {
      ChunkAt(cols.tIdxs, step, i);
      OffsetIsProduct(i, step);
      OffsetIsProduct(i + 1, step);
    }
    ChunkAt(cols.tIdxs, step, 9);
    OffsetIsProduct(9, step);
    OffsetIsProduct(10, step);
  }
}
