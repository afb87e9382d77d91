/** Cascading reconstruction. A row or column with at least k known cells
    is marked recovered and all of its cells are filled; every cell that
    this newly fills may push the crossing line over its own threshold.
    `Recover` sweeps all lines until the square is recovered or a sweep
    makes no progress. */
module Recovery {
  import opened Grid
  import opened Progress

  /** Marking a line recovered and then filling it, with every cell the
      fill adds lying on that line or on lines recovered during the fill,
      is a recovery step. Stated as an implication rather than with
      `requires`, so that a caller does not have to establish each conjunct
      of `Extends` as a separate proof obligation. */
  lemma MarkRowThenFill(ds: DataSquare, row: int, filled: DataSquare)
    ensures && Shaped(ds) && 0 <= row < Dim(ds) && row !in ds.recoveredRows
            && Extends(ds.(recoveredRows := ds.recoveredRows + {row}), filled, {row}, {})
            && (forall j :: 0 <= j < Dim(ds) ==> filled.matrix[row][j])
            ==> Progresses(ds, filled) && row in filled.recoveredRows && RowFull(filled, row)
  {
  }

  /** The column counterpart of `MarkRowThenFill`, in the same
      implication form. */
  lemma MarkColThenFill(ds: DataSquare, col: int, filled: DataSquare)
    ensures && Shaped(ds) && 0 <= col < Dim(ds) && col !in ds.recoveredCols
            && Extends(ds.(recoveredCols := ds.recoveredCols + {col}), filled, {}, {col})
            && (forall i :: 0 <= i < Dim(ds) ==> filled.matrix[i][col])
            ==> Progresses(ds, filled) && col in filled.recoveredCols && ColFull(filled, col)
  {
  }

  /** Recovers row `row` if it is not recovered yet and has at least k
      known cells; reports whether it did. */
  function TryRecoverRow(ds: DataSquare, row: int): (r: Step)
    requires Shaped(ds) && 0 <= row < Dim(ds)
    ensures Progresses(ds, r.sq)
    ensures r.ok <==> row !in ds.recoveredRows && ds.rowCounts[row] >= ds.size
    ensures !r.ok ==> r.sq == ds
    ensures r.ok ==> row in r.sq.recoveredRows && RowFull(r.sq, row)
    ensures Settled(ds, r.sq)
    decreases Unrecovered(ds), 0, 0, 1
  {
    if row in ds.recoveredRows || ds.rowCounts[row] < ds.size then
      ExtendsRefl(ds);
      Step(ds, false)
    else
      var filled := RecoverRowNow(ds, row);
      MarkRowThenFill(ds, row, filled);
      Step(filled, true)
  }

  /** The successful branch of `TryRecoverRow`: mark the row recovered,
      then fill all of its cells. */
  function RecoverRowNow(ds: DataSquare, row: int): (r: DataSquare)
    requires Shaped(ds) && 0 <= row < Dim(ds) && row !in ds.recoveredRows
    ensures Extends(ds.(recoveredRows := ds.recoveredRows + {row}), r, {row}, {})
    ensures forall j :: 0 <= j < Dim(ds) ==> r.matrix[row][j]
    ensures Settled(ds, r)
    decreases Unrecovered(ds), 0, 0, 0
  {
    MarkRowShrinks(ds, row);
    var m := ds.(recoveredRows := ds.recoveredRows + {row});
    var r := FillRow(m, row, 0);
    SettledSameCounters(ds, m, r);
    r
  }

  /** Fills cells `col`.. of row `row`; each cell that was unknown cascades
      into an attempt to recover its column. */
  function FillRow(ds: DataSquare, row: int, col: int): (r: DataSquare)
    requires Shaped(ds) && 0 <= row < Dim(ds) && 0 <= col <= Dim(ds)
    ensures Extends(ds, r, {row}, {})
    ensures forall j :: col <= j < Dim(ds) ==> r.matrix[row][j]
    ensures row in ds.recoveredRows ==> Settled(ds, r)
    decreases Unrecovered(ds), 1, Dim(ds) - col, 1
  {
    if col == Dim(ds) then ds
    else
      var b := CascadeCol(ds, row, col);
      UnrecoveredShrinks(ds, b);
      var c := FillRow(b, row, col + 1);
      FillRowStep(ds, b, c, row, col);
      SettledTrans(ds, b, c);
      c
  }

  /** Recovers column `col` if it is not recovered yet and has at least k
      known cells; reports whether it did. */
  function TryRecoverCol(ds: DataSquare, col: int): (r: Step)
    requires Shaped(ds) && 0 <= col < Dim(ds)
    ensures Progresses(ds, r.sq)
    ensures r.ok <==> col !in ds.recoveredCols && ds.colCounts[col] >= ds.size
    ensures !r.ok ==> r.sq == ds
    ensures r.ok ==> col in r.sq.recoveredCols && ColFull(r.sq, col)
    ensures Settled(ds, r.sq)
    decreases Unrecovered(ds), 0, 0, 1
  {
    if col in ds.recoveredCols || ds.colCounts[col] < ds.size then
      ExtendsRefl(ds);
      Step(ds, false)
    else
      var filled := RecoverColNow(ds, col);
      MarkColThenFill(ds, col, filled);
      Step(filled, true)
  }

  /** The successful branch of `TryRecoverCol`: mark the column recovered,
      then fill all of its cells. */
  function RecoverColNow(ds: DataSquare, col: int): (r: DataSquare)
    requires Shaped(ds) && 0 <= col < Dim(ds) && col !in ds.recoveredCols
    ensures Extends(ds.(recoveredCols := ds.recoveredCols + {col}), r, {}, {col})
    ensures forall i :: 0 <= i < Dim(ds) ==> r.matrix[i][col]
    ensures Settled(ds, r)
    decreases Unrecovered(ds), 0, 0, 0
  {
    MarkColShrinks(ds, col);
    var m := ds.(recoveredCols := ds.recoveredCols + {col});
    var r := FillCol(m, col, 0);
    SettledSameCounters(ds, m, r);
    r
  }

  /** Fills cells `row`.. of column `col`; each cell that was unknown
      cascades into an attempt to recover its row. */
  function FillCol(ds: DataSquare, col: int, row: int): (r: DataSquare)
    requires Shaped(ds) && 0 <= col < Dim(ds) && 0 <= row <= Dim(ds)
    ensures Extends(ds, r, {}, {col})
    ensures forall i :: row <= i < Dim(ds) ==> r.matrix[i][col]
    ensures col in ds.recoveredCols ==> Settled(ds, r)
    decreases Unrecovered(ds), 1, Dim(ds) - row, 1
  {
    if row == Dim(ds) then ds
    else
      var b := CascadeRow(ds, col, row);
      UnrecoveredShrinks(ds, b);
      var c := FillCol(b, col, row + 1);
      FillColStep(ds, b, c, col, row);
      SettledTrans(ds, b, c);
      c
  }

  /** One step of filling row `row`: add cell (row, col) and, when it was
      unknown, cascade into column `col`. */
  function CascadeCol(ds: DataSquare, row: int, col: int): (r: DataSquare)
    requires Shaped(ds) && 0 <= row < Dim(ds) && 0 <= col < Dim(ds)
    ensures Extends(ds, r, {row}, {})
    ensures r.matrix[row][col]
    ensures ds.matrix[row][col] ==> r == ds
    ensures !ds.matrix[row][col] && col !in ds.recoveredCols && ds.colCounts[col] + 1 >= ds.size ==>
      col in r.recoveredCols && ColFull(r, col)
    ensures !ds.matrix[row][col] && (col in ds.recoveredCols || ds.colCounts[col] + 1 < ds.size) ==>
      r == AddSample(ds, row, col).sq
    ensures row in ds.recoveredRows ==> Settled(ds, r)
    decreases Unrecovered(ds), 1, Dim(ds) - col, 0
  {
    var a := AddSample(ds, row, col);
    AddSampleExtends(ds, row, col);
    if a.ok then
      var b := TryRecoverCol(a.sq, col).sq;
      ExtendsTrans(ds, a.sq, b, {row}, {}, {}, {});
      CascadeSettled(ds, a.sq, b, row, col);
      assert {row} + {} == {row};
      b
    else a.sq
  }

  /** One step of filling column `col`: add cell (row, col) and, when it
      was unknown, cascade into row `row`. */
  function CascadeRow(ds: DataSquare, col: int, row: int): (r: DataSquare)
    requires Shaped(ds) && 0 <= row < Dim(ds) && 0 <= col < Dim(ds)
    ensures Extends(ds, r, {}, {col})
    ensures r.matrix[row][col]
    ensures ds.matrix[row][col] ==> r == ds
    ensures !ds.matrix[row][col] && row !in ds.recoveredRows && ds.rowCounts[row] + 1 >= ds.size ==>
      row in r.recoveredRows && RowFull(r, row)
    ensures !ds.matrix[row][col] && (row in ds.recoveredRows || ds.rowCounts[row] + 1 < ds.size) ==>
      r == AddSample(ds, row, col).sq
    ensures col in ds.recoveredCols ==> Settled(ds, r)
    decreases Unrecovered(ds), 1, Dim(ds) - row, 0
  {
    var a := AddSample(ds, row, col);
    AddSampleExtends(ds, row, col);
    if a.ok then
      var b := TryRecoverRow(a.sq, row).sq;
      ExtendsTrans(ds, a.sq, b, {}, {col}, {}, {});
      CascadeSettled(ds, a.sq, b, row, col);
      assert {col} + {} == {col};
      b
    else a.sq
  }

  /** A newly added cell (row, col) moves only the counters of its row and
      its column. If both lines are settled after the attempt that follows,
      and the attempt settles what it moved, the whole step is settled. */
  lemma CascadeSettled(ds: DataSquare, a: DataSquare, b: DataSquare, row: int, col: int)
    requires Shaped(ds) && Shaped(a) && Shaped(b) && ds.size == a.size == b.size
    requires 0 <= row < Dim(ds) && 0 <= col < Dim(ds)
    requires forall i :: 0 <= i < Dim(ds) && i != row ==> a.rowCounts[i] == ds.rowCounts[i]
    requires forall j :: 0 <= j < Dim(ds) && j != col ==> a.colCounts[j] == ds.colCounts[j]
    requires Settled(a, b)
    ensures ((row in b.recoveredRows || b.rowCounts[row] < b.size) &&
             (col in b.recoveredCols || b.colCounts[col] < b.size)) ==> Settled(ds, b)
  {
  }

  lemma FillRowStep(ds: DataSquare, b: DataSquare, c: DataSquare, row: int, col: int)
    requires Shaped(ds) && 0 <= row < Dim(ds) && 0 <= col < Dim(ds)
    requires Extends(ds, b, {row}, {}) && b.matrix[row][col]
    requires Extends(b, c, {row}, {})
    requires forall j :: col + 1 <= j < Dim(ds) ==> c.matrix[row][j]
    ensures Extends(ds, c, {row}, {})
    ensures forall j :: col <= j < Dim(ds) ==> c.matrix[row][j]
  {
    var none: set<int> := {};
    ExtendsTrans(ds, b, c, {row}, none, {row}, none);
    assert {row} + {row} == {row} && none + none == none;
  }

  lemma FillColStep(ds: DataSquare, b: DataSquare, c: DataSquare, col: int, row: int)
    requires Shaped(ds) && 0 <= row < Dim(ds) && 0 <= col < Dim(ds)
    requires Extends(ds, b, {}, {col}) && b.matrix[row][col]
    requires Extends(b, c, {}, {col})
    requires forall i :: row + 1 <= i < Dim(ds) ==> c.matrix[i][col]
    ensures Extends(ds, c, {}, {col})
    ensures forall i :: row <= i < Dim(ds) ==> c.matrix[i][col]
  {
    var none: set<int> := {};
    ExtendsTrans(ds, b, c, none, {col}, none, {col});
    assert {col} + {col} == {col} && none + none == none;
  }

  /** The square counts as recovered once k rows or k columns are. */
  predicate IsRecovered(ds: DataSquare) {
    |ds.recoveredRows| >= ds.size || |ds.recoveredCols| >= ds.size
  }

  /** No line with index `i` or above can be recovered: each is already
      recovered or has fewer than k known cells. */
  ghost predicate StuckFrom(ds: DataSquare, i: int)
    requires Shaped(ds)
  {
    forall j :: 0 <= j < Dim(ds) && i <= j ==>
      (j in ds.recoveredRows || ds.rowCounts[j] < ds.size) &&
      (j in ds.recoveredCols || ds.colCounts[j] < ds.size)
  }

  /** A fixpoint: no `TryRecoverRow` or `TryRecoverCol` call would succeed. */
  ghost predicate Stuck(ds: DataSquare)
    requires Shaped(ds)
  {
    StuckFrom(ds, 0)
  }

  /** One pass over the indices `i`.. of a sweep: try row `i`, then column
      `i`. Reports whether any line was recovered. */
  function Sweep(ds: DataSquare, i: int): (r: Step)
    requires Shaped(ds) && 0 <= i <= Dim(ds)
    ensures Progresses(ds, r.sq)
    ensures r.ok <==> r.sq.recoveredRows != ds.recoveredRows || r.sq.recoveredCols != ds.recoveredCols
    ensures !r.ok ==> r.sq == ds && StuckFrom(ds, i)
    ensures forall j :: 0 <= j < Dim(ds) && i <= j && ds.rowCounts[j] >= ds.size ==> j in r.sq.recoveredRows
    ensures forall j :: 0 <= j < Dim(ds) && i <= j && ds.colCounts[j] >= ds.size ==> j in r.sq.recoveredCols
    decreases Dim(ds) - i
  {
    if i == Dim(ds) then
      ExtendsRefl(ds);
      Step(ds, false)
    else
      var a := TryRecoverRow(ds, i);
      var b := TryRecoverCol(a.sq, i);
      var c := Sweep(b.sq, i + 1);
      SweepCombine(ds, i, a, b, c);
      Step(c.sq, a.ok || b.ok || c.ok)
  }

  /** A pass from `i` ends where the pass from `i + 1` does, started on the
      square left by the two attempts at `i`. */
  lemma SweepUnfold(ds: DataSquare, i: int)
    requires Shaped(ds) && 0 <= i < Dim(ds)
    ensures Sweep(ds, i).sq == Sweep(TryRecoverCol(TryRecoverRow(ds, i).sq, i).sq, i + 1).sq
  {
  }

  /** Joins the row attempt, the column attempt and the rest of the pass
      into the guarantees of one sweep step. */
  lemma SweepCombine(ds: DataSquare, i: int, a: Step, b: Step, c: Step)
    requires Shaped(ds) && 0 <= i < Dim(ds)
    requires a == TryRecoverRow(ds, i) && b == TryRecoverCol(a.sq, i)
    requires Progresses(b.sq, c.sq)
    requires c.ok <==> c.sq.recoveredRows != b.sq.recoveredRows || c.sq.recoveredCols != b.sq.recoveredCols
    requires !c.ok ==> c.sq == b.sq && StuckFrom(b.sq, i + 1)
    requires forall j :: 0 <= j < Dim(ds) && i + 1 <= j && b.sq.rowCounts[j] >= ds.size ==> j in c.sq.recoveredRows
    requires forall j :: 0 <= j < Dim(ds) && i + 1 <= j && b.sq.colCounts[j] >= ds.size ==> j in c.sq.recoveredCols
    ensures Progresses(ds, c.sq)
    ensures (a.ok || b.ok || c.ok) <==> c.sq.recoveredRows != ds.recoveredRows || c.sq.recoveredCols != ds.recoveredCols
    ensures !(a.ok || b.ok || c.ok) ==> c.sq == ds && StuckFrom(ds, i)
    ensures forall j :: 0 <= j < Dim(ds) && i <= j && ds.rowCounts[j] >= ds.size ==> j in c.sq.recoveredRows
    ensures forall j :: 0 <= j < Dim(ds) && i <= j && ds.colCounts[j] >= ds.size ==> j in c.sq.recoveredCols
  {
    SweepStep(ds, i, a, b, c);
    ProgressGrows(ds, a.sq);
    ProgressGrows(a.sq, b.sq);
    ProgressGrows(b.sq, c.sq);
    SweepReady(ds, i, a.sq, b.sq, c.sq);
  }

  lemma SweepStep(ds: DataSquare, i: int, a: Step, b: Step, c: Step)
    requires Shaped(ds) && 0 <= i < Dim(ds)
    requires a == TryRecoverRow(ds, i) && b == TryRecoverCol(a.sq, i)
    requires Progresses(b.sq, c.sq)
    requires c.ok <==> c.sq.recoveredRows != b.sq.recoveredRows || c.sq.recoveredCols != b.sq.recoveredCols
    requires !c.ok ==> c.sq == b.sq && StuckFrom(b.sq, i + 1)
    ensures Progresses(ds, c.sq)
    ensures (a.ok || b.ok || c.ok) <==> c.sq.recoveredRows != ds.recoveredRows || c.sq.recoveredCols != ds.recoveredCols
    ensures !(a.ok || b.ok || c.ok) ==> c.sq == ds && StuckFrom(ds, i)
  {
    var none: set<int> := {};
    ExtendsTrans(ds, a.sq, b.sq, none, none, none, none);
    ExtendsTrans(ds, b.sq, c.sq, none + none, none + none, none, none);
    assert none + none + none == none;
    SweepStepFlag(ds, i, a, b, c);
  }

  /** What a recovery step guarantees about counters and recovered sets,
      spelled out. */
  lemma ProgressGrows(a: DataSquare, b: DataSquare)
    requires Shaped(a) && Progresses(a, b)
    ensures Shaped(b) && b.size == a.size
    ensures forall c :: 0 <= c < Dim(a) ==> a.colCounts[c] <= b.colCounts[c]
    ensures forall r :: 0 <= r < Dim(a) ==> a.rowCounts[r] <= b.rowCounts[r]
    ensures a.recoveredRows <= b.recoveredRows && a.recoveredCols <= b.recoveredCols
  {
    assert Grows(a, b);
  }

  /** Lines ready at the start of a sweep step are recovered by its end:
      row `i` by the row attempt, column `i` by the column attempt, the
      rest by the remainder of the sweep. */
  lemma SweepReady(ds: DataSquare, i: int, a: DataSquare, b: DataSquare, c: DataSquare)
    requires Shaped(ds) && Shaped(a) && Shaped(b) && Shaped(c)
    requires 0 <= i < Dim(ds) && a.size == ds.size && b.size == ds.size
    requires forall j :: 0 <= j < Dim(ds) ==> ds.rowCounts[j] <= a.rowCounts[j] <= b.rowCounts[j]
    requires forall j :: 0 <= j < Dim(ds) ==> ds.colCounts[j] <= a.colCounts[j] <= b.colCounts[j]
    requires ds.rowCounts[i] >= ds.size ==> i in a.recoveredRows
    requires a.colCounts[i] >= ds.size ==> i in b.recoveredCols
    requires a.recoveredRows <= b.recoveredRows <= c.recoveredRows
    requires b.recoveredCols <= c.recoveredCols
    requires forall j :: 0 <= j < Dim(ds) && i + 1 <= j && b.rowCounts[j] >= ds.size ==> j in c.recoveredRows
    requires forall j :: 0 <= j < Dim(ds) && i + 1 <= j && b.colCounts[j] >= ds.size ==> j in c.recoveredCols
    ensures forall j :: 0 <= j < Dim(ds) && i <= j && ds.rowCounts[j] >= ds.size ==> j in c.recoveredRows
    ensures forall j :: 0 <= j < Dim(ds) && i <= j && ds.colCounts[j] >= ds.size ==> j in c.recoveredCols
  {
  }

  lemma SweepStepFlag(ds: DataSquare, i: int, a: Step, b: Step, c: Step)
    requires Shaped(ds) && 0 <= i < Dim(ds)
    requires a == TryRecoverRow(ds, i) && b == TryRecoverCol(a.sq, i)
    requires Shaped(c.sq)
    requires b.sq.recoveredRows <= c.sq.recoveredRows && b.sq.recoveredCols <= c.sq.recoveredCols
    requires c.ok <==> c.sq.recoveredRows != b.sq.recoveredRows || c.sq.recoveredCols != b.sq.recoveredCols
    requires !c.ok ==> c.sq == b.sq && StuckFrom(b.sq, i + 1)
    ensures (a.ok || b.ok || c.ok) <==> c.sq.recoveredRows != ds.recoveredRows || c.sq.recoveredCols != ds.recoveredCols
    ensures !(a.ok || b.ok || c.ok) ==> c.sq == ds && StuckFrom(ds, i)
  {
    if a.ok {
      assert i in c.sq.recoveredRows && i !in ds.recoveredRows;
    } else if b.ok {
      assert i in c.sq.recoveredCols && i !in ds.recoveredCols;
    } else if c.ok {
    } else {
      assert c.sq == ds;
      assert StuckFrom(ds, i + 1);
    }
  }

  /** The outer loop: sweep until the square is recovered or a sweep
      recovers nothing. Each sweep that goes round again recovered a line,
      so `Unrecovered` falls. */
  function Fixpoint(ds: DataSquare): (r: Step)
    requires Shaped(ds)
    ensures Progresses(ds, r.sq)
    ensures r.ok <==> IsRecovered(r.sq)
    ensures !r.ok ==> Stuck(r.sq)
    decreases Unrecovered(ds)
  {
    var s := Sweep(ds, 0);
    if IsRecovered(s.sq) then Step(s.sq, true)
    else if !s.ok then Step(s.sq, false)
    else
      UnrecoveredShrinks(ds, s.sq);
      var r := Fixpoint(s.sq);
      var none: set<int> := {};
      ExtendsTrans(ds, s.sq, r.sq, none, none, none, none);
      assert none + none == none;
      r
  }

  /** Top-level reconstruction. With fewer than k^2 known cells it reports
      failure at once and changes nothing; otherwise it runs the sweeps to
      a fixpoint, and reports success exactly when the final square counts
      as recovered. */
  function Recover(ds: DataSquare): (r: Step)
    requires Shaped(ds)
    ensures Progresses(ds, r.sq)
    ensures ds.totalCount < ds.size * ds.size ==> r == Step(ds, false)
    ensures r.ok ==> IsRecovered(r.sq)
    ensures ds.totalCount >= ds.size * ds.size ==> (r.ok <==> IsRecovered(r.sq))
    ensures ds.totalCount >= ds.size * ds.size && !r.ok ==> Stuck(r.sq)
  {
    if ds.totalCount < ds.size * ds.size then
      ExtendsRefl(ds);
      Step(ds, false)
    else Fixpoint(ds)
  }
}
