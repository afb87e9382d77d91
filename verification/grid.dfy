/** The coded data square: a 2k x 2k presence matrix together with the
    per-row and per-column counters, the running total and the sets of
    recovered rows and columns. Only `Reset` and `AddSample` write cells. */
module Grid {
  import opened Counting
  import opened Sampling

  /** State of one data square of logical size `size` (k). A cell is
      `true` once it is known, sampled or reconstructed. */
  datatype DataSquare = DataSquare(
    size: nat,
    matrix: seq<seq<bool>>,
    rowCounts: seq<int>,
    colCounts: seq<int>,
    recoveredRows: set<int>,
    recoveredCols: set<int>,
    totalCount: int)

  /** A new state paired with the boolean an operation reports. */
  datatype Step = Step(sq: DataSquare, ok: bool)

  /** Side of the coded square, 2k. */
  function Dim(ds: DataSquare): nat {
    2 * ds.size
  }

  /** The matrix is 2k x 2k. */
  ghost predicate MatrixShaped(ds: DataSquare) {
    && |ds.matrix| == Dim(ds)
    && (forall i :: 0 <= i < Dim(ds) ==> |ds.matrix[i]| == Dim(ds))
  }

  /** Every index the operations use is in range: the matrix is 2k x 2k,
      there is one counter per line and recovered indices are lines. */
  ghost predicate Shaped(ds: DataSquare) {
    && MatrixShaped(ds)
    && |ds.rowCounts| == Dim(ds)
    && |ds.colCounts| == Dim(ds)
    && (forall i :: i in ds.recoveredRows ==> 0 <= i < Dim(ds))
    && (forall j :: j in ds.recoveredCols ==> 0 <= j < Dim(ds))
  }

  /** The counters agree with the matrix. */
  ghost predicate Consistent(ds: DataSquare)
    requires Shaped(ds)
  {
    && (forall i :: 0 <= i < Dim(ds) ==> ds.rowCounts[i] == Count(ds.matrix[i]))
    && (forall j :: 0 <= j < Dim(ds) ==> ds.colCounts[j] == Count(Column(ds.matrix, j)))
    && ds.totalCount == Total(ds.matrix)
  }

  ghost predicate RowFull(ds: DataSquare, i: int)
    requires MatrixShaped(ds) && 0 <= i < Dim(ds)
  {
    forall j :: 0 <= j < Dim(ds) ==> ds.matrix[i][j]
  }

  ghost predicate ColFull(ds: DataSquare, j: int)
    requires MatrixShaped(ds) && 0 <= j < Dim(ds)
  {
    forall i :: 0 <= i < Dim(ds) ==> ds.matrix[i][j]
  }

  /** Every recovered row and column is fully known. */
  ghost predicate LinesFull(ds: DataSquare)
    requires Shaped(ds)
  {
    && (forall i :: i in ds.recoveredRows ==> RowFull(ds, i))
    && (forall j :: j in ds.recoveredCols ==> ColFull(ds, j))
  }

  /** The invariant every reachable data square keeps. */
  ghost predicate Valid(ds: DataSquare) {
    Shaped(ds) && Consistent(ds) && LinesFull(ds)
  }

  /** `b` is a later state than `a`: known cells stay known, counters do
      not fall and the recovered sets do not shrink. */
  ghost predicate Grows(a: DataSquare, b: DataSquare)
    requires Shaped(a) && Shaped(b) && a.size == b.size
  {
    && (forall i, j :: 0 <= i < Dim(a) && 0 <= j < Dim(a) && a.matrix[i][j] ==> b.matrix[i][j])
    && (forall i :: 0 <= i < Dim(a) ==> a.rowCounts[i] <= b.rowCounts[i])
    && (forall j :: 0 <= j < Dim(a) ==> a.colCounts[j] <= b.colCounts[j])
    && a.totalCount <= b.totalCount
    && a.recoveredRows <= b.recoveredRows
    && a.recoveredCols <= b.recoveredCols
  }

  /** Every cell known in `b` but not in `a` lies on one of the given rows
      or columns. */
  ghost predicate FilledWithin(a: DataSquare, b: DataSquare, rows: set<int>, cols: set<int>)
    requires Shaped(a) && Shaped(b) && a.size == b.size
  {
    forall i, j :: 0 <= i < Dim(a) && 0 <= j < Dim(a) && b.matrix[i][j] ==>
      a.matrix[i][j] || i in rows || j in cols
  }

  /** A fresh square: the matrix is allocated and empty, but the counters
      are not allocated until the first `Reset`. */
  function NewDataSquare(size: nat): (r: DataSquare)
    ensures r.size == size && MatrixShaped(r)
    ensures forall i, j :: 0 <= i < Dim(r) && 0 <= j < Dim(r) ==> !r.matrix[i][j]
    ensures r.rowCounts == [] && r.colCounts == []
    ensures r.recoveredRows == {} && r.recoveredCols == {} && r.totalCount == 0
    ensures Valid(Reset(r))
  {
    var d := 2 * size;
    DataSquare(size, seq(d, _ => seq(d, _ => false)), [], [], {}, {}, 0)
  }

  /** The matrix with every cell cleared and its shape kept. */
  function Cleared(m: seq<seq<bool>>): (r: seq<seq<bool>>)
    ensures |r| == |m|
    ensures forall i :: 0 <= i < |m| ==> |r[i]| == |m[i]|
    ensures forall i, j :: 0 <= i < |m| && 0 <= j < |m[i]| ==> !r[i][j]
  {
    seq(|m|, i requires 0 <= i < |m| => seq(|m[i]|, _ => false))
  }

  /** Clears all cells, counters and recovered sets; keeps the size and
      the matrix's shape. */
  function Reset(ds: DataSquare): (r: DataSquare)
    ensures r.size == ds.size
    ensures |r.matrix| == |ds.matrix|
    ensures forall i :: 0 <= i < |ds.matrix| ==> |r.matrix[i]| == |ds.matrix[i]|
    ensures forall i, j :: 0 <= i < |r.matrix| && 0 <= j < |r.matrix[i]| ==> !r.matrix[i][j]
    ensures |r.rowCounts| == Dim(ds) && |r.colCounts| == Dim(ds)
    ensures forall i :: 0 <= i < Dim(ds) ==> r.rowCounts[i] == 0 && r.colCounts[i] == 0
    ensures r.recoveredRows == {} && r.recoveredCols == {} && r.totalCount == 0
    ensures MatrixShaped(ds) ==> Valid(r)
  {
    var m := Cleared(ds.matrix);
    var r := DataSquare(ds.size, m, seq(Dim(ds), _ => 0), seq(Dim(ds), _ => 0), {}, {}, 0);
    ClearedCounts(ds, r);
    r
  }

  lemma ClearedCounts(ds: DataSquare, r: DataSquare)
    requires r == DataSquare(ds.size, Cleared(ds.matrix), seq(Dim(ds), _ => 0), seq(Dim(ds), _ => 0), {}, {}, 0)
    ensures MatrixShaped(ds) ==> Valid(r)
  {
    if MatrixShaped(ds) {
      forall i | 0 <= i < Dim(r) ensures Count(r.matrix[i]) == 0 {
        CountNone(r.matrix[i]);
      }
      forall j | 0 <= j < Dim(r) ensures Count(Column(r.matrix, j)) == 0 {
        CountNone(Column(r.matrix, j));
      }
      TotalNone(r.matrix);
    }
  }

  /** Marks cell (row, col) known. Reports false and changes nothing when
      the cell was already known; otherwise marks only that cell and raises
      its row counter, its column counter and the total by one. */
  function AddSample(ds: DataSquare, row: int, col: int): (r: Step)
    requires Shaped(ds) && 0 <= row < Dim(ds) && 0 <= col < Dim(ds)
    ensures Shaped(r.sq) && r.sq.size == ds.size
    ensures r.ok <==> !ds.matrix[row][col]
    ensures !r.ok ==> r.sq == ds
    ensures r.ok ==> r.sq.matrix[row][col]
    ensures forall i, j :: 0 <= i < Dim(ds) && 0 <= j < Dim(ds) && (i != row || j != col) ==>
      r.sq.matrix[i][j] == ds.matrix[i][j]
    ensures r.ok ==> r.sq.rowCounts[row] == ds.rowCounts[row] + 1
    ensures forall i :: 0 <= i < Dim(ds) && i != row ==> r.sq.rowCounts[i] == ds.rowCounts[i]
    ensures r.ok ==> r.sq.colCounts[col] == ds.colCounts[col] + 1
    ensures forall j :: 0 <= j < Dim(ds) && j != col ==> r.sq.colCounts[j] == ds.colCounts[j]
    ensures r.ok ==> r.sq.totalCount == ds.totalCount + 1
    ensures r.sq.recoveredRows == ds.recoveredRows && r.sq.recoveredCols == ds.recoveredCols
    ensures Grows(ds, r.sq)
    ensures Consistent(ds) ==> Consistent(r.sq)
    ensures Valid(ds) ==> Valid(r.sq)
  {
    if ds.matrix[row][col] then Step(ds, false)
    else
      var m := ds.matrix[row := ds.matrix[row][col := true]];
      var r := ds.(matrix := m,
                   rowCounts := ds.rowCounts[row := ds.rowCounts[row] + 1],
                   colCounts := ds.colCounts[col := ds.colCounts[col] + 1],
                   totalCount := ds.totalCount + 1);
      MarkKeepsConsistent(ds, row, col, r);
      Step(r, true)
  }

  lemma MarkKeepsConsistent(ds: DataSquare, row: int, col: int, r: DataSquare)
    requires Shaped(ds)
    requires 0 <= row < Dim(ds) && 0 <= col < Dim(ds) && !ds.matrix[row][col]
    requires r == ds.(matrix := ds.matrix[row := ds.matrix[row][col := true]],
                      rowCounts := ds.rowCounts[row := ds.rowCounts[row] + 1],
                      colCounts := ds.colCounts[col := ds.colCounts[col] + 1],
                      totalCount := ds.totalCount + 1)
    ensures Shaped(r) && (Consistent(ds) ==> Consistent(r))
  {
    if !Consistent(ds) {
      return;
    }
    var m := ds.matrix;
    var m' := r.matrix;
    CountMark(m[row], col);
    forall j | 0 <= j < Dim(ds) ensures r.colCounts[j] == Count(Column(m', j)) {
      if j == col {
        assert Column(m', j) == Column(m, j)[row := true];
        CountMark(Column(m, j), row);
      } else {
        assert Column(m', j) == Column(m, j);
      }
    }
    TotalReplace(m, row, m'[row]);
  }

  /** Merges a batch of samples: afterwards exactly the cells that were
      known before or are in the batch are known. The batch is a set, so
      the order it is applied in is left open. */
  method AddSamples(ds: DataSquare, samples: set<Sample>) returns (r: DataSquare)
    requires Shaped(ds)
    requires forall s :: s in samples ==> InSquare(s, ds.size)
    ensures Shaped(r) && r.size == ds.size
    ensures forall i, j :: 0 <= i < Dim(ds) && 0 <= j < Dim(ds) ==>
      (r.matrix[i][j] <==> ds.matrix[i][j] || Sample(i, j) in samples)
    ensures r.recoveredRows == ds.recoveredRows && r.recoveredCols == ds.recoveredCols
    ensures Grows(ds, r)
    ensures Consistent(ds) ==> Consistent(r)
    ensures Valid(ds) ==> Valid(r)
  {
    r := ds;
    var rest := samples;
    while rest != {}
      invariant rest <= samples
      invariant Shaped(r) && r.size == ds.size
      invariant forall i, j :: 0 <= i < Dim(ds) && 0 <= j < Dim(ds) ==>
        (r.matrix[i][j] <==> ds.matrix[i][j] || (Sample(i, j) in samples && Sample(i, j) !in rest))
      invariant r.recoveredRows == ds.recoveredRows && r.recoveredCols == ds.recoveredCols
      invariant Grows(ds, r)
      invariant Consistent(ds) ==> Consistent(r)
      invariant Valid(ds) ==> Valid(r)
      decreases rest
    {
      var s :| s in rest;
      assert InSquare(s, ds.size);
      if !r.matrix[s.row][s.col] {
        r := AddSample(r, s.row, s.col).sq;
      }
      rest := rest - {s};
    }
  }
}
