/** How a recovery step may change a data square: the termination measure
    of the cascade and the "extends" relation every step keeps. */
module Progress {
  import opened Counting
  import opened Grid

  /** Lines not yet recovered, rows plus columns: at most 4k. Every call
      that passes the guards of `TryRecoverRow`/`TryRecoverCol` lowers it. */
  ghost function Unrecovered(ds: DataSquare): nat {
    |Lines(Dim(ds)) - ds.recoveredRows| + |Lines(Dim(ds)) - ds.recoveredCols|
  }

  /** Growing the recovered sets never raises `Unrecovered`, and growing
      them strictly lowers it. */
  lemma UnrecoveredShrinks(a: DataSquare, b: DataSquare)
    requires Shaped(b) && a.size == b.size
    requires a.recoveredRows <= b.recoveredRows && a.recoveredCols <= b.recoveredCols
    ensures Unrecovered(b) <= Unrecovered(a)
    ensures a.recoveredRows != b.recoveredRows || a.recoveredCols != b.recoveredCols ==>
      Unrecovered(b) < Unrecovered(a)
  {
    var all := Lines(Dim(a));
    SubsetCard(all - b.recoveredRows, all - a.recoveredRows);
    SubsetCard(all - b.recoveredCols, all - a.recoveredCols);
    if a.recoveredRows != b.recoveredRows {
      var x :| x in b.recoveredRows && x !in a.recoveredRows;
      assert x in all - a.recoveredRows && x !in all - b.recoveredRows;
    }
    if a.recoveredCols != b.recoveredCols {
      var x :| x in b.recoveredCols && x !in a.recoveredCols;
      assert x in all - a.recoveredCols && x !in all - b.recoveredCols;
    }
  }

  /** Marking one more row recovered lowers `Unrecovered`. */
  lemma MarkRowShrinks(ds: DataSquare, row: int)
    requires 0 <= row < Dim(ds) && row !in ds.recoveredRows
    ensures Unrecovered(ds.(recoveredRows := ds.recoveredRows + {row})) < Unrecovered(ds)
  {
    var all := Lines(Dim(ds));
    assert all - (ds.recoveredRows + {row}) == (all - ds.recoveredRows) - {row};
    assert row in all - ds.recoveredRows;
  }

  /** Marking one more column recovered lowers `Unrecovered`. */
  lemma MarkColShrinks(ds: DataSquare, col: int)
    requires 0 <= col < Dim(ds) && col !in ds.recoveredCols
    ensures Unrecovered(ds.(recoveredCols := ds.recoveredCols + {col})) < Unrecovered(ds)
  {
    var all := Lines(Dim(ds));
    assert all - (ds.recoveredCols + {col}) == (all - ds.recoveredCols) - {col};
    assert col in all - ds.recoveredCols;
  }

  /** Every row or column recovered on the way from `a` to `b` is fully
      known in `b`. */
  ghost predicate NewLinesFull(a: DataSquare, b: DataSquare)
    requires Shaped(b)
  {
    && (forall i :: i in b.recoveredRows && i !in a.recoveredRows ==> RowFull(b, i))
    && (forall j :: j in b.recoveredCols && j !in a.recoveredCols ==> ColFull(b, j))
  }

  /** `b` extends `a`: the shape is kept, the state only grows, each line
      recovered on the way is full in `b`, every newly known cell lies on a
      newly recovered line or on one of `rows`/`cols`, and the counters keep
      agreeing with the matrix. */
  ghost predicate Extends(a: DataSquare, b: DataSquare, rows: set<int>, cols: set<int>) {
    && Shaped(a) && Shaped(b) && b.size == a.size
    && Grows(a, b)
    && NewLinesFull(a, b)
    && FilledWithin(a, b, (b.recoveredRows - a.recoveredRows) + rows, (b.recoveredCols - a.recoveredCols) + cols)
    && (Consistent(a) ==> Consistent(b))
  }

  /** What every recovery step promises about the state it returns. */
  ghost predicate Progresses(a: DataSquare, b: DataSquare) {
    Extends(a, b, {}, {})
  }

  /** Every line whose counter moved on the way from `a` to `b` is settled
      in `b`: it is recovered, or still short of k known cells. No line a
      step touched is left ready to recover. */
  ghost predicate Settled(a: DataSquare, b: DataSquare)
    requires Shaped(a) && Shaped(b) && a.size == b.size
  {
    && (forall i :: 0 <= i < Dim(a) && a.rowCounts[i] != b.rowCounts[i] ==>
          i in b.recoveredRows || b.rowCounts[i] < b.size)
    && (forall j :: 0 <= j < Dim(a) && a.colCounts[j] != b.colCounts[j] ==>
          j in b.recoveredCols || b.colCounts[j] < b.size)
  }

  /** Settling composes along a growing chain: a line moved from `a` to `c`
      either moved last from `b` to `c`, or was settled in `b` and kept its
      counter since. Stated as an implication so that a caller can use it
      where settling is known only under a condition. */
  lemma SettledTrans(a: DataSquare, b: DataSquare, c: DataSquare)
    requires Shaped(a) && Shaped(b) && Shaped(c) && a.size == b.size == c.size
    requires Grows(b, c)
    ensures Settled(a, b) && Settled(b, c) ==> Settled(a, c)
  {
  }

  /** Settling depends on the start square only through its counters, so
      marking a line recovered first does not change it. */
  lemma SettledSameCounters(a: DataSquare, m: DataSquare, b: DataSquare)
    requires Shaped(a) && Shaped(m) && Shaped(b) && a.size == m.size == b.size
    requires a.rowCounts == m.rowCounts && a.colCounts == m.colCounts
    requires Settled(m, b)
    ensures Settled(a, b)
  {
  }

  lemma ExtendsRefl(a: DataSquare)
    requires Shaped(a)
    ensures Progresses(a, a)
  {
  }

  lemma ExtendsTrans(a: DataSquare, b: DataSquare, c: DataSquare,
                     rows1: set<int>, cols1: set<int>, rows2: set<int>, cols2: set<int>)
    requires Shaped(a) && Extends(a, b, rows1, cols1) && Extends(b, c, rows2, cols2)
    ensures Extends(a, c, rows1 + rows2, cols1 + cols2)
  {
    assert Grows(a, c);
    var rows := (c.recoveredRows - a.recoveredRows) + (rows1 + rows2);
    var cols := (c.recoveredCols - a.recoveredCols) + (cols1 + cols2);
    forall i, j | 0 <= i < Dim(a) && 0 <= j < Dim(a) && c.matrix[i][j]
      ensures a.matrix[i][j] || i in rows || j in cols
    {
      if !b.matrix[i][j] {
        assert i in c.recoveredRows - b.recoveredRows + rows2 || j in c.recoveredCols - b.recoveredCols + cols2;
      } else {
        assert a.matrix[i][j] || i in b.recoveredRows - a.recoveredRows + rows1 || j in b.recoveredCols - a.recoveredCols + cols1;
      }
    }
    forall i | i in c.recoveredRows && i !in a.recoveredRows ensures RowFull(c, i) {
      if i in b.recoveredRows {
        assert RowFull(b, i);
      }
    }
    forall j | j in c.recoveredCols && j !in a.recoveredCols ensures ColFull(c, j) {
      if j in b.recoveredCols {
        assert ColFull(b, j);
      }
    }
  }

  /** Adding cell (row, col) extends the square within row `row`, and
      within column `col`. */
  lemma AddSampleExtends(ds: DataSquare, row: int, col: int)
    requires Shaped(ds) && 0 <= row < Dim(ds) && 0 <= col < Dim(ds)
    ensures Extends(ds, AddSample(ds, row, col).sq, {row}, {})
    ensures Extends(ds, AddSample(ds, row, col).sq, {}, {col})
  {
  }
}
