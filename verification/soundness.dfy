/** Soundness of the cascade: it recovers no line it does not have to.
    Call a square closed when it is valid and no line in it can be
    recovered. Every step of the reconstruction, started from a consistent
    square that lies below a closed square `t`, ends below `t` again.
    Together with the completeness of one sweep, past the fast reject
    `Recover` computes the least closed square above a valid input, and it
    succeeds exactly when every closed square above the input counts as
    recovered. */
module Soundness {
  import opened Counting
  import opened Completeness
  import opened Grid
  import opened Progress
  import opened Recovery
  import opened RecoveryFacts

  /** `a` lies below `t`: same shape, every cell known in `a` is known in
      `t`, and every line recovered in `a` is recovered in `t`. */
  ghost predicate Below(a: DataSquare, t: DataSquare) {
    && Shaped(a) && Shaped(t) && a.size == t.size
    && (forall i, j :: 0 <= i < Dim(a) && 0 <= j < Dim(a) && a.matrix[i][j] ==> t.matrix[i][j])
    && a.recoveredRows <= t.recoveredRows
    && a.recoveredCols <= t.recoveredCols
  }

  /** A valid square in which neither `TryRecoverRow` nor `TryRecoverCol`
      would succeed on any line. */
  ghost predicate Closed(t: DataSquare) {
    Valid(t) && Stuck(t)
  }

  /** A row that has k known cells below a closed square is recovered, and
      so full, in that square. */
  lemma ReadyRowInTarget(ds: DataSquare, row: int, t: DataSquare)
    requires Below(ds, t) && Consistent(ds) && Closed(t)
    requires 0 <= row < Dim(ds) && ds.rowCounts[row] >= ds.size
    ensures row in t.recoveredRows && RowFull(t, row)
  {
    CountMono(ds.matrix[row], t.matrix[row]);
  }

  /** A column that has k known cells below a closed square is recovered,
      and so full, in that square. */
  lemma ReadyColInTarget(ds: DataSquare, col: int, t: DataSquare)
    requires Below(ds, t) && Consistent(ds) && Closed(t)
    requires 0 <= col < Dim(ds) && ds.colCounts[col] >= ds.size
    ensures col in t.recoveredCols && ColFull(t, col)
  {
    CountMono(Column(ds.matrix, col), Column(t.matrix, col));
  }

  /** Adding a cell that `t` knows keeps the square below `t`. */
  lemma AddSampleBelow(ds: DataSquare, row: int, col: int, t: DataSquare)
    requires Below(ds, t) && 0 <= row < Dim(ds) && 0 <= col < Dim(ds)
    requires t.matrix[row][col]
    ensures Below(AddSample(ds, row, col).sq, t)
  {
  }

  /** The cascade stays below `t`, one lemma per function of the mutual
      recursion in `Recovery`, each following that function's branches and
      decreasing on the same measure. A line is only ever marked recovered
      once it passes the k-cell guard, so `t` has recovered it too. */
  lemma TryRecoverRowBelow(ds: DataSquare, row: int, t: DataSquare)
    requires Below(ds, t) && Consistent(ds) && Closed(t) && 0 <= row < Dim(ds)
    ensures Below(TryRecoverRow(ds, row).sq, t)
    decreases Unrecovered(ds), 0, 0, 1
  {
    if row !in ds.recoveredRows && ds.rowCounts[row] >= ds.size {
      ReadyRowInTarget(ds, row, t);
      RecoverRowNowBelow(ds, row, t);
    }
  }

  lemma RecoverRowNowBelow(ds: DataSquare, row: int, t: DataSquare)
    requires Below(ds, t) && Consistent(ds) && Closed(t)
    requires 0 <= row < Dim(ds) && row !in ds.recoveredRows && row in t.recoveredRows
    ensures Below(RecoverRowNow(ds, row), t)
    decreases Unrecovered(ds), 0, 0, 0
  {
    MarkRowShrinks(ds, row);
    FillRowBelow(ds.(recoveredRows := ds.recoveredRows + {row}), row, 0, t);
  }

  lemma FillRowBelow(ds: DataSquare, row: int, col: int, t: DataSquare)
    requires Below(ds, t) && Consistent(ds) && Closed(t)
    requires 0 <= row < Dim(ds) && 0 <= col <= Dim(ds) && row in t.recoveredRows
    ensures Below(FillRow(ds, row, col), t)
    decreases Unrecovered(ds), 1, Dim(ds) - col, 1
  {
    if col < Dim(ds) {
      var b := CascadeCol(ds, row, col);
      CascadeColBelow(ds, row, col, t);
      UnrecoveredShrinks(ds, b);
      FillRowBelow(b, row, col + 1, t);
    }
  }

  lemma CascadeColBelow(ds: DataSquare, row: int, col: int, t: DataSquare)
    requires Below(ds, t) && Consistent(ds) && Closed(t)
    requires 0 <= row < Dim(ds) && 0 <= col < Dim(ds) && row in t.recoveredRows
    ensures Below(CascadeCol(ds, row, col), t)
    decreases Unrecovered(ds), 1, Dim(ds) - col, 0
  {
    var a := AddSample(ds, row, col);
    AddSampleBelow(ds, row, col, t);
    if a.ok {
      UnrecoveredShrinks(ds, a.sq);
      TryRecoverColBelow(a.sq, col, t);
    }
  }

  lemma TryRecoverColBelow(ds: DataSquare, col: int, t: DataSquare)
    requires Below(ds, t) && Consistent(ds) && Closed(t) && 0 <= col < Dim(ds)
    ensures Below(TryRecoverCol(ds, col).sq, t)
    decreases Unrecovered(ds), 0, 0, 1
  {
    if col !in ds.recoveredCols && ds.colCounts[col] >= ds.size {
      ReadyColInTarget(ds, col, t);
      RecoverColNowBelow(ds, col, t);
    }
  }

  lemma RecoverColNowBelow(ds: DataSquare, col: int, t: DataSquare)
    requires Below(ds, t) && Consistent(ds) && Closed(t)
    requires 0 <= col < Dim(ds) && col !in ds.recoveredCols && col in t.recoveredCols
    ensures Below(RecoverColNow(ds, col), t)
    decreases Unrecovered(ds), 0, 0, 0
  {
    MarkColShrinks(ds, col);
    FillColBelow(ds.(recoveredCols := ds.recoveredCols + {col}), col, 0, t);
  }

  lemma FillColBelow(ds: DataSquare, col: int, row: int, t: DataSquare)
    requires Below(ds, t) && Consistent(ds) && Closed(t)
    requires 0 <= col < Dim(ds) && 0 <= row <= Dim(ds) && col in t.recoveredCols
    ensures Below(FillCol(ds, col, row), t)
    decreases Unrecovered(ds), 1, Dim(ds) - row, 1
  {
    if row < Dim(ds) {
      var b := CascadeRow(ds, col, row);
      CascadeRowBelow(ds, col, row, t);
      UnrecoveredShrinks(ds, b);
      FillColBelow(b, col, row + 1, t);
    }
  }

  lemma CascadeRowBelow(ds: DataSquare, col: int, row: int, t: DataSquare)
    requires Below(ds, t) && Consistent(ds) && Closed(t)
    requires 0 <= row < Dim(ds) && 0 <= col < Dim(ds) && col in t.recoveredCols
    ensures Below(CascadeRow(ds, col, row), t)
    decreases Unrecovered(ds), 1, Dim(ds) - row, 0
  {
    var a := AddSample(ds, row, col);
    AddSampleBelow(ds, row, col, t);
    if a.ok {
      UnrecoveredShrinks(ds, a.sq);
      TryRecoverRowBelow(a.sq, row, t);
    }
  }

  /** One step of a sweep, the row attempt and then the column attempt at
      index `i`, stays below `t` and keeps the counters consistent; the
      pass from `i` ends where the pass from `next` does. */
  lemma SweepStepBelow(ds: DataSquare, i: int, t: DataSquare) returns (next: DataSquare)
    requires Below(ds, t) && Consistent(ds) && Closed(t) && 0 <= i < Dim(ds)
    ensures Below(next, t) && Consistent(next)
    ensures Sweep(ds, i).sq == Sweep(next, i + 1).sq
  {
    var a := TryRecoverRow(ds, i);
    TryRecoverRowBelow(ds, i, t);
    TryRecoverColBelow(a.sq, i, t);
    next := TryRecoverCol(a.sq, i).sq;
    SweepUnfold(ds, i);
  }

  /** A whole pass of a sweep stays below `t`. */
  lemma SweepBelow(ds: DataSquare, i: int, t: DataSquare)
    requires Below(ds, t) && Consistent(ds) && Closed(t) && 0 <= i <= Dim(ds)
    ensures Below(Sweep(ds, i).sq, t)
  {
    var cur, j := ds, i;
    while j < Dim(ds)
      invariant Below(cur, t) && Consistent(cur) && i <= j <= Dim(ds)
      invariant Sweep(ds, i).sq == Sweep(cur, j).sq
      decreases Dim(ds) - j
    {
      cur := SweepStepBelow(cur, j, t);
      j := j + 1;
    }
  }

  lemma {:induction false} FixpointBelow(ds: DataSquare, t: DataSquare)
    requires Below(ds, t) && Consistent(ds) && Closed(t)
    ensures Below(Fixpoint(ds).sq, t)
    decreases Unrecovered(ds)
  {
    var s := Sweep(ds, 0);
    SweepBelow(ds, 0, t);
    if !IsRecovered(s.sq) && s.ok {
      ProgressGrows(ds, s.sq);
      UnrecoveredShrinks(ds, s.sq);
      FixpointBelow(s.sq, t);
    }
  }

  /** `Recover` never goes past any closed square above its input. */
  lemma RecoverBelow(ds: DataSquare, t: DataSquare)
    requires Below(ds, t) && Consistent(ds) && Closed(t)
    ensures Below(Recover(ds).sq, t)
  {
    if ds.totalCount >= ds.size * ds.size {
      FixpointBelow(ds, t);
    }
  }

  /** Past the fast reject, `Recover` succeeds exactly when every closed
      square above the input counts as recovered. */
  lemma RecoverIsLeast(ds: DataSquare)
    requires Valid(ds) && ds.totalCount >= ds.size * ds.size
    ensures Recover(ds).ok <==> forall t :: Closed(t) && Below(ds, t) ==> IsRecovered(t)
  {
    var r := Recover(ds);
    if r.ok {
      forall t | Closed(t) && Below(ds, t) ensures IsRecovered(t) {
        RecoverBelow(ds, t);
        SubsetCard(r.sq.recoveredRows, t.recoveredRows);
        SubsetCard(r.sq.recoveredCols, t.recoveredCols);
      }
    } else {
      RecoverKeepsValid(ds);
      ProgressGrows(ds, r.sq);
      assert Closed(r.sq) && Below(ds, r.sq) && !IsRecovered(r.sq);
    }
  }

  /** Past the fast reject, the result of `Recover` on a valid square is
      the least closed square above it: it is closed, it lies above the
      input, and it lies below every closed square above the input. */
  lemma RecoverIsLeastClosed(ds: DataSquare)
    requires Valid(ds) && ds.totalCount >= ds.size * ds.size
    ensures Closed(Recover(ds).sq) && Below(ds, Recover(ds).sq)
    ensures forall t :: Closed(t) && Below(ds, t) ==> Below(Recover(ds).sq, t)
  {
    var r := Recover(ds);
    RecoverKeepsValid(ds);
    RecoverIsOneSweep(ds);
    ProgressGrows(ds, r.sq);
    forall t | Closed(t) && Below(ds, t) ensures Below(r.sq, t) {
      RecoverBelow(ds, t);
    }
  }

  /** k = 2 with only the diagonal of the 4 x 4 square known: k^2 cells,
      yet no line reaches 2 known cells, so `Recover` fails and changes
      nothing. */
  lemma DiagonalOfFour(ds: DataSquare)
    requires Shaped(ds) && Consistent(ds) && ds.size == 2
    requires ds.recoveredRows == {} && ds.recoveredCols == {}
    requires forall i, j :: 0 <= i < 4 && 0 <= j < 4 ==> (ds.matrix[i][j] <==> i == j)
    ensures Recover(ds) == Step(ds, false)
  {
    DiagonalClosed(ds);
    var s := Sweep(ds, 0);
    SweepBelow(ds, 0, ds);
    assert s.sq.recoveredRows == {} && s.sq.recoveredCols == {};
  }

  /** The diagonal square is closed: every line has exactly one known cell. */
  lemma DiagonalClosed(ds: DataSquare)
    requires Shaped(ds) && Consistent(ds) && ds.size == 2
    requires ds.recoveredRows == {} && ds.recoveredCols == {}
    requires forall i, j :: 0 <= i < 4 && 0 <= j < 4 ==> (ds.matrix[i][j] <==> i == j)
    ensures Closed(ds)
  {
    forall i | 0 <= i < 4 ensures ds.rowCounts[i] == 1 && ds.colCounts[i] == 1 {
      CountSingle(ds.matrix[i], i);
      CountSingle(Column(ds.matrix, i), i);
    }
  }
}
