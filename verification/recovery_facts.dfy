/** Properties relating several operations of the data square: the
    invariant every operation keeps, when reconstruction is certain to
    succeed, and what a reported success certifies. */
module RecoveryFacts {
  import opened Counting
  import opened Grid
  import opened Progress
  import opened Recovery

  /** Any recovery step from a well-formed square yields a well-formed one. */
  lemma ProgressKeepsValid(a: DataSquare, b: DataSquare)
    requires Valid(a) && Progresses(a, b)
    ensures Valid(b)
  {
    forall i | i in b.recoveredRows ensures RowFull(b, i) {
      if i in a.recoveredRows {
        assert RowFull(a, i);
      }
    }
    forall j | j in b.recoveredCols ensures ColFull(b, j) {
      if j in a.recoveredCols {
        assert ColFull(a, j);
      }
    }
  }

  lemma TryRecoverRowKeepsValid(ds: DataSquare, row: int)
    requires Valid(ds) && 0 <= row < Dim(ds)
    ensures Valid(TryRecoverRow(ds, row).sq)
  {
    ProgressKeepsValid(ds, TryRecoverRow(ds, row).sq);
  }

  lemma TryRecoverColKeepsValid(ds: DataSquare, col: int)
    requires Valid(ds) && 0 <= col < Dim(ds)
    ensures Valid(TryRecoverCol(ds, col).sq)
  {
    ProgressKeepsValid(ds, TryRecoverCol(ds, col).sq);
  }

  lemma RecoverKeepsValid(ds: DataSquare)
    requires Valid(ds)
    ensures Valid(Recover(ds).sq)
  {
    ProgressKeepsValid(ds, Recover(ds).sq);
  }

  /** Past the k^2 threshold, if every column has k known cells then
      `Recover` succeeds, within its first sweep. */
  lemma ColumnsReadyRecover(ds: DataSquare)
    requires Shaped(ds) && ds.totalCount >= ds.size * ds.size
    requires forall c :: 0 <= c < Dim(ds) ==> ds.colCounts[c] >= ds.size
    ensures Recover(ds).ok
  {
    var s := Sweep(ds, 0);
    LinesCard(Dim(ds), s.sq.recoveredCols);
    assert IsRecovered(s.sq);
  }

  /** Past the k^2 threshold, if every row has k known cells then
      `Recover` succeeds, within its first sweep. */
  lemma RowsReadyRecover(ds: DataSquare)
    requires Shaped(ds) && ds.totalCount >= ds.size * ds.size
    requires forall r :: 0 <= r < Dim(ds) ==> ds.rowCounts[r] >= ds.size
    ensures Recover(ds).ok
  {
    var s := Sweep(ds, 0);
    LinesCard(Dim(ds), s.sq.recoveredRows);
    assert IsRecovered(s.sq);
  }

  lemma MulMono(a: nat, b: nat, c: nat)
    requires a <= b
    ensures a * c <= b * c
  {
  }

  /** With k fully known rows, every column has k known cells and the
      square holds at least k^2 of them, so `Recover` succeeds. */
  lemma FullRowsRecover(ds: DataSquare, rows: set<int>)
    requires Shaped(ds) && Consistent(ds)
    requires forall i :: i in rows ==> 0 <= i < Dim(ds) && RowFull(ds, i)
    requires |rows| >= ds.size
    ensures Recover(ds).ok
  {
    forall c | 0 <= c < Dim(ds) ensures ds.colCounts[c] >= ds.size {
      CountAtLeast(Column(ds.matrix, c), rows);
    }
    forall i | i in rows ensures Count(ds.matrix[i]) >= Dim(ds) {
      CountAll(ds.matrix[i]);
    }
    TotalAtLeastSome(ds.matrix, rows, Dim(ds));
    MulMono(ds.size, |rows|, Dim(ds));
    MulMono(ds.size, Dim(ds), ds.size);
    ColumnsReadyRecover(ds);
  }

  /** With k fully known columns, `Recover` succeeds. */
  lemma FullColsRecover(ds: DataSquare, cols: set<int>)
    requires Shaped(ds) && Consistent(ds)
    requires forall j :: j in cols ==> 0 <= j < Dim(ds) && ColFull(ds, j)
    requires |cols| >= ds.size
    ensures Recover(ds).ok
  {
    forall r | 0 <= r < Dim(ds) ensures ds.rowCounts[r] >= ds.size && Count(ds.matrix[r]) >= |cols| {
      CountAtLeast(ds.matrix[r], cols);
    }
    TotalAtLeastEvery(ds.matrix, |cols|);
    MulMono(ds.size, |cols|, Dim(ds));
    MulMono(ds.size, Dim(ds), ds.size);
    RowsReadyRecover(ds);
  }

  /** A fully known square is always reconstructed. */
  lemma FullSquareRecovers(ds: DataSquare)
    requires Shaped(ds) && Consistent(ds)
    requires forall i, j :: 0 <= i < Dim(ds) && 0 <= j < Dim(ds) ==> ds.matrix[i][j]
    ensures Recover(ds).ok
  {
    LinesSize(Dim(ds));
    FullRowsRecover(ds, Lines(Dim(ds)));
  }

  /** Once a square counts as recovered it stays so: `IsRecovered` only
      looks at the sizes of the recovered sets, and every step only grows
      them. */
  lemma IsRecoveredMono(a: DataSquare, b: DataSquare)
    requires a.size == b.size
    requires a.recoveredRows <= b.recoveredRows && a.recoveredCols <= b.recoveredCols
    ensures IsRecovered(a) ==> IsRecovered(b)
  {
    SubsetCard(a.recoveredRows, b.recoveredRows);
    SubsetCard(a.recoveredCols, b.recoveredCols);
  }

  /** On a well-formed square, k recovered rows or columns mean at least
      k^2 known cells: `IsRecovered` never holds below the threshold that
      `Recover` rejects at once. */
  lemma RecoveredHasEnoughCells(ds: DataSquare)
    requires Valid(ds) && IsRecovered(ds)
    ensures ds.totalCount >= ds.size * ds.size
  {
    if |ds.recoveredRows| >= ds.size {
      forall i | i in ds.recoveredRows ensures Count(ds.matrix[i]) >= Dim(ds) {
        assert RowFull(ds, i);
        CountAll(ds.matrix[i]);
      }
      TotalAtLeastSome(ds.matrix, ds.recoveredRows, Dim(ds));
      MulMono(ds.size, |ds.recoveredRows|, Dim(ds));
    } else {
      var cols := ds.recoveredCols;
      forall r | 0 <= r < Dim(ds) ensures Count(ds.matrix[r]) >= |cols| {
        forall j | j in cols ensures ds.matrix[r][j] {
          assert ColFull(ds, j);
        }
        CountAtLeast(ds.matrix[r], cols);
      }
      TotalAtLeastEvery(ds.matrix, |cols|);
      MulMono(ds.size, |cols|, Dim(ds));
    }
    MulMono(ds.size, Dim(ds), ds.size);
  }

  /** On a well-formed square `Recover` reports success exactly when the
      square it leaves counts as recovered, on the fast-reject path too. */
  lemma RecoverReportsIsRecovered(ds: DataSquare)
    requires Valid(ds)
    ensures Recover(ds).ok <==> IsRecovered(Recover(ds).sq)
  {
    if ds.totalCount < ds.size * ds.size && IsRecovered(ds) {
      RecoveredHasEnoughCells(ds);
    }
  }

  /** `Reset` leaves the same state whatever was done to the square before. */
  lemma ResetForgetsHistory(a: DataSquare, b: DataSquare)
    requires MatrixShaped(a) && MatrixShaped(b) && a.size == b.size
    ensures Reset(a) == Reset(b)
  {
    ClearedSameShape(a.matrix, b.matrix);
  }

  lemma ClearedSameShape(m1: seq<seq<bool>>, m2: seq<seq<bool>>)
    requires |m1| == |m2| && forall i :: 0 <= i < |m1| ==> |m1[i]| == |m2[i]|
    ensures Cleared(m1) == Cleared(m2)
  {
    var c1 := Cleared(m1);
    var c2 := Cleared(m2);
    forall i | 0 <= i < |m1| ensures c1[i] == c2[i] {
    }
  }

  /** Adding a cell twice has the effect of adding it once. */
  lemma AddSampleIdempotent(ds: DataSquare, row: int, col: int)
    requires Shaped(ds) && 0 <= row < Dim(ds) && 0 <= col < Dim(ds)
    ensures AddSample(AddSample(ds, row, col).sq, row, col) == Step(AddSample(ds, row, col).sq, false)
  {
  }

  /** Adding two cells in either order gives the same square. */
  lemma AddSampleCommutes(ds: DataSquare, r1: int, c1: int, r2: int, c2: int)
    requires Shaped(ds)
    requires 0 <= r1 < Dim(ds) && 0 <= c1 < Dim(ds) && 0 <= r2 < Dim(ds) && 0 <= c2 < Dim(ds)
    ensures AddSample(AddSample(ds, r1, c1).sq, r2, c2).sq == AddSample(AddSample(ds, r2, c2).sq, r1, c1).sq
  {
    var p := AddSample(ds, r1, c1);
    var q := AddSample(ds, r2, c2);
    var x := AddSample(p.sq, r2, c2).sq;
    var y := AddSample(q.sq, r1, c1).sq;
    if r1 != r2 || c1 != c2 {
      var d := Dim(ds);
      forall i, j | 0 <= i < d && 0 <= j < d
        ensures x.matrix[i][j] == (ds.matrix[i][j] || (i == r1 && j == c1) || (i == r2 && j == c2))
        ensures y.matrix[i][j] == (ds.matrix[i][j] || (i == r1 && j == c1) || (i == r2 && j == c2))
      {
      }
      forall i | 0 <= i < d ensures x.matrix[i] == y.matrix[i] {
        assert |x.matrix[i]| == |y.matrix[i]| == d;
      }
      assert x.matrix == y.matrix;
      forall i | 0 <= i < d ensures x.rowCounts[i] == y.rowCounts[i] {
      }
      forall j | 0 <= j < d ensures x.colCounts[j] == y.colCounts[j] {
      }
      assert x.rowCounts == y.rowCounts && x.colCounts == y.colCounts;
    }
  }

  /** Worked case for k = 2 (a 4 x 4 coded square): rows 0 and 1 fully
      known and nothing else, 8 = k^2 known cells; reconstruction succeeds. */
  lemma TwoFullRowsOfFour(ds: DataSquare)
    requires Shaped(ds) && Consistent(ds) && ds.size == 2
    requires RowFull(ds, 0) && RowFull(ds, 1)
    ensures Recover(ds).ok
  {
    FullRowsRecover(ds, {0, 1});
  }

  /** Worked case for k = 2: only three known cells, below k^2 = 4; the
      fast reject reports failure and leaves the square as it was. */
  lemma ThreeCellsOfFour(ds: DataSquare)
    requires Shaped(ds) && Consistent(ds) && ds.size == 2
    requires Total(ds.matrix) == 3
    ensures Recover(ds) == Step(ds, false)
  {
  }
}
