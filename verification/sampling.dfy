/** Coordinates of the coded square and the batch generator that draws them.
    The random source is injected: `FillUnique` consumes a finite stream of
    draws instead of calling a global generator. */
module Sampling {
  import opened Counting

  /** One cell of the 2k x 2k coded square. Equality is by value. */
  datatype Sample = Sample(row: int, col: int)

  /** True when `s` lies inside the coded square of logical size `size`. */
  predicate InSquare(s: Sample, size: nat) {
    0 <= s.row < 2 * size && 0 <= s.col < 2 * size
  }

  /** Outcome of a fill: the grown sample set and how many unique samples
      were still owed when the stream of draws ran out (0 when the target
      was reached). */
  datatype Fill = Fill(samples: set<Sample>, missing: nat)

  /** Rejection sampling: take draws one by one, keep a draw that is not yet
      in the set, and stop once `n` new samples were kept. A finite `draws`
      stands in for the random generator; where the Go generator would keep
      drawing forever, the model stops with `missing > 0`. */
  function FillUnique(s: set<Sample>, n: int, draws: seq<Sample>): (r: Fill)
    ensures s <= r.samples
    ensures forall x :: x in r.samples && x !in s ==> x in draws
    ensures n <= 0 ==> r == Fill(s, 0)
    ensures n > 0 ==> |r.samples| + r.missing == |s| + n
    ensures r.missing > 0 ==> forall i :: 0 <= i < |draws| ==> draws[i] in r.samples
    decreases |draws|
  {
    if n <= 0 then Fill(s, 0)
    else if draws == [] then Fill(s, n)
    else if draws[0] in s then FillUnique(s, n, draws[1..])
    else FillUnique(s + {draws[0]}, n - 1, draws[1..])
  }

  /** All coordinates of the first `rows` rows of a square whose side is `side`. */
  ghost function Block(rows: nat, side: nat): set<Sample> {
    if rows == 0 then {} else Block(rows - 1, side) + RowCells(rows - 1, side)
  }

  /** All coordinates of row `i` among the first `cols` columns. */
  ghost function RowCells(i: int, cols: nat): set<Sample> {
    if cols == 0 then {} else RowCells(i, cols - 1) + {Sample(i, cols - 1)}
  }

  lemma {:induction false} RowCellsMem(i: int, cols: nat, x: Sample)
    ensures x in RowCells(i, cols) <==> x.row == i && 0 <= x.col < cols
    decreases cols
  {
    if cols > 0 {
      RowCellsMem(i, cols - 1, x);
    }
  }

  lemma {:induction false} BlockMem(rows: nat, side: nat, x: Sample)
    ensures x in Block(rows, side) <==> 0 <= x.row < rows && 0 <= x.col < side
    decreases rows
  {
    if rows > 0 {
      BlockMem(rows - 1, side, x);
      RowCellsMem(rows - 1, side, x);
    }
  }

  lemma {:induction false} RowCellsCard(i: int, cols: nat)
    ensures |RowCells(i, cols)| == cols
    decreases cols
  {
    if cols > 0 {
      RowCellsCard(i, cols - 1);
      RowCellsMem(i, cols - 1, Sample(i, cols - 1));
    }
  }

  /** A disjoint union's size is the sum of the parts' sizes. */
  lemma CardOfUnion<T>(c: set<T>, a: set<T>, b: set<T>, n: nat, m: nat)
    requires c == a + b && a * b == {} && |a| == n && |b| == m
    ensures |c| == n + m
  {
  }

  lemma BlockUnfold(rows: nat, side: nat)
    requires rows > 0
    ensures Block(rows, side) == Block(rows - 1, side) + RowCells(rows - 1, side)
  {
  }

  lemma BlockRowDisjoint(rows: nat, side: nat)
    ensures Block(rows, side) * RowCells(rows, side) == {}
  {
    forall x | x in RowCells(rows, side) ensures x !in Block(rows, side) {
      RowCellsMem(rows, side, x);
      BlockMem(rows, side, x);
    }
  }

  /** Number of cells in `rows` rows of `side` cells each. */
  function Area(rows: nat, side: nat): nat {
    if rows == 0 then 0 else Area(rows - 1, side) + side
  }

  lemma {:induction false} AreaMul(rows: nat, side: nat)
    ensures Area(rows, side) == rows * side
    decreases rows
  {
    if rows > 0 {
      AreaMul(rows - 1, side);
      MulPred(rows, side);
    }
  }

  lemma {:induction false} BlockCard(rows: nat, side: nat)
    ensures |Block(rows, side)| == Area(rows, side)
    decreases rows
  {
    if rows > 0 {
      BlockCard(rows - 1, side);
      BlockCardStep(rows, side);
    }
  }

  /** Adding row `rows - 1` adds `side` cells to the block. */
  lemma BlockCardStep(rows: nat, side: nat)
    requires rows > 0 && |Block(rows - 1, side)| == Area(rows - 1, side)
    ensures |Block(rows, side)| == Area(rows, side)
  {
    RowCellsCard(rows - 1, side);
    BlockRowDisjoint(rows - 1, side);
    BlockUnfold(rows, side);
    CardOfUnion(Block(rows, side), Block(rows - 1, side), RowCells(rows - 1, side), Area(rows - 1, side), side);
  }

  /** A set of in-square samples has at most (2 * size)^2 elements. */
  lemma SquareCapacity(s: set<Sample>, size: nat)
    requires forall x :: x in s ==> InSquare(x, size)
    ensures |s| <= (2 * size) * (2 * size)
  {
    var d := 2 * size;
    BlockCard(d, d);
    AreaMul(d, d);
    forall x | x in s ensures x in Block(d, d) {
      BlockMem(d, d, x);
    }
    SubsetCard(s, Block(d, d));
  }

  /** Asking for more unique samples than the square has free cells can
      never complete: every stream of in-square draws runs out first. This
      is the case in which the Go generator loops forever. */
  lemma FillUniqueOverCapacity(s: set<Sample>, n: int, size: nat, draws: seq<Sample>)
    requires forall x :: x in s ==> InSquare(x, size)
    requires forall i :: 0 <= i < |draws| ==> InSquare(draws[i], size)
    requires n > (2 * size) * (2 * size) - |s|
    ensures FillUnique(s, n, draws).missing > 0
  {
    var r := FillUnique(s, n, draws);
    forall x | x in r.samples ensures InSquare(x, size) {
      if x !in s {
        var i :| 0 <= i < |draws| && draws[i] == x;
      }
    }
    SquareCapacity(r.samples, size);
  }
}
