/** Completeness of one sweep. Every cascade step settles each line it
    moves, so after a single pass over the indices from 0 no line can
    still be recovered. Hence the result of `Recover` past the fast reject
    is a fixpoint on both of its paths, and the outer loop never recovers
    anything in a second sweep: `Recover` is one sweep followed by the
    recovered test. */
module Completeness {
  import opened Grid
  import opened Progress
  import opened Recovery

  /** Every line with index below `i` is recovered or has fewer than k
      known cells. */
  ghost predicate StuckBefore(ds: DataSquare, i: int)
    requires Shaped(ds)
  {
    forall j :: 0 <= j < Dim(ds) && j < i ==>
      (j in ds.recoveredRows || ds.rowCounts[j] < ds.size) &&
      (j in ds.recoveredCols || ds.colCounts[j] < ds.size)
  }

  /** A recovery step that settles what it moves keeps every line that was
      recovered or short of k in that state. */
  lemma SettledKeeps(a: DataSquare, b: DataSquare, i: int)
    requires Shaped(a) && Progresses(a, b) && Settled(a, b)
    ensures Shaped(b) && b.size == a.size
    ensures StuckBefore(a, i) ==> StuckBefore(b, i)
    ensures forall j :: 0 <= j < Dim(a) && (j in a.recoveredRows || a.rowCounts[j] < a.size) ==>
      j in b.recoveredRows || b.rowCounts[j] < b.size
    ensures forall j :: 0 <= j < Dim(a) && (j in a.recoveredCols || a.colCounts[j] < a.size) ==>
      j in b.recoveredCols || b.colCounts[j] < b.size
  {
    assert Grows(a, b);
  }

  /** Two settling steps, the first leaving row `i` settled and the second
      column `i`, extend `StuckBefore` from `i` to `i + 1`. */
  lemma TwoStepsStuck(ds: DataSquare, a: DataSquare, b: DataSquare, i: int)
    requires Shaped(ds) && 0 <= i < Dim(ds) && StuckBefore(ds, i)
    requires Progresses(ds, a) && Settled(ds, a)
    requires i in a.recoveredRows || a.rowCounts[i] < a.size
    requires Progresses(a, b) && Settled(a, b)
    requires i in b.recoveredCols || b.colCounts[i] < b.size
    ensures Shaped(b) && b.size == ds.size && StuckBefore(b, i + 1)
  {
    SettledKeeps(ds, a, i);
    SettledKeeps(a, b, i);
  }

  /** The row attempt and the column attempt at index `i` settle row `i`
      and column `i`, and keep the lines below `i` settled. */
  lemma SweepStepStuck(ds: DataSquare, i: int) returns (next: DataSquare)
    requires Shaped(ds) && 0 <= i < Dim(ds) && StuckBefore(ds, i)
    ensures Shaped(next) && next.size == ds.size && StuckBefore(next, i + 1)
    ensures Sweep(ds, i).sq == Sweep(next, i + 1).sq
  {
    var a := TryRecoverRow(ds, i);
    var b := TryRecoverCol(a.sq, i);
    TwoStepsStuck(ds, a.sq, b.sq, i);
    next := b.sq;
    SweepUnfold(ds, i);
  }

  /** One pass over all indices from 0 leaves a fixpoint. */
  lemma SweepStuck(ds: DataSquare)
    requires Shaped(ds)
    ensures Stuck(Sweep(ds, 0).sq)
  {
    var cur, j := ds, 0;
    while j < Dim(ds)
      invariant Shaped(cur) && cur.size == ds.size && 0 <= j <= Dim(ds)
      invariant StuckBefore(cur, j)
      invariant Sweep(ds, 0).sq == Sweep(cur, j).sq
      decreases Dim(ds) - j
    {
      cur := SweepStepStuck(cur, j);
      j := j + 1;
    }
  }

  /** A pass over a square with no recoverable line from `i` on recovers
      nothing and changes nothing. */
  lemma SweepIdle(ds: DataSquare, i: int)
    requires Shaped(ds) && 0 <= i <= Dim(ds) && StuckFrom(ds, i)
    ensures Sweep(ds, i) == Step(ds, false)
  {
    var j := i;
    while j < Dim(ds)
      invariant i <= j <= Dim(ds)
      invariant Sweep(ds, i) == Sweep(ds, j)
      decreases Dim(ds) - j
    {
      assert TryRecoverRow(ds, j) == Step(ds, false);
      assert TryRecoverCol(ds, j) == Step(ds, false);
      j := j + 1;
    }
  }

  /** The outer loop is one sweep followed by the recovered test: when the
      first sweep recovers a line but not enough of them, the second sweep
      finds nothing to do. */
  lemma FixpointIsOneSweep(ds: DataSquare)
    requires Shaped(ds)
    ensures Fixpoint(ds) == Step(Sweep(ds, 0).sq, IsRecovered(Sweep(ds, 0).sq))
    ensures Stuck(Fixpoint(ds).sq)
  {
    var s := Sweep(ds, 0);
    SweepStuck(ds);
    if !IsRecovered(s.sq) && s.ok {
      SweepIdle(s.sq, 0);
    }
  }

  /** Past the fast reject, `Recover` is one sweep followed by the
      recovered test, and on both paths it leaves a fixpoint. */
  lemma RecoverIsOneSweep(ds: DataSquare)
    requires Shaped(ds) && ds.totalCount >= ds.size * ds.size
    ensures Recover(ds) == Step(Sweep(ds, 0).sq, IsRecovered(Sweep(ds, 0).sq))
    ensures Stuck(Recover(ds).sq)
  {
    FixpointIsOneSweep(ds);
  }
}
