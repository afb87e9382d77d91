/** Counting known cells: in a line, in a column of a matrix, in a whole
    matrix. These are the reference definitions the grid's counters are
    checked against. */
module Counting {

  /** Number of known cells in a line. */
  function Count(s: seq<bool>): (r: nat)
    ensures r <= |s|
  {
    if s == [] then 0 else Count(s[..|s| - 1]) + (if s[|s| - 1] then 1 else 0)
  }

  /** Column `c` of a matrix, read top to bottom. */
  function Column(m: seq<seq<bool>>, c: int): (r: seq<bool>)
    requires 0 <= c
    requires forall i :: 0 <= i < |m| ==> c < |m[i]|
    ensures |r| == |m|
    ensures forall i :: 0 <= i < |m| ==> r[i] == m[i][c]
  {
    seq(|m|, i requires 0 <= i < |m| => m[i][c])
  }

  /** Number of known cells in a whole matrix. */
  function Total(m: seq<seq<bool>>): nat {
    if m == [] then 0 else Total(m[..|m| - 1]) + Count(m[|m| - 1])
  }

  /** The index set [0, n). */
  function Lines(n: nat): (r: set<int>)
    ensures forall i :: i in r <==> 0 <= i < n
  {
    if n == 0 then {} else Lines(n - 1) + {n - 1}
  }

  /** Marking one unknown cell known raises the line's count by one. */
  lemma {:induction false} CountMark(s: seq<bool>, j: int)
    requires 0 <= j < |s| && !s[j]
    ensures Count(s[j := true]) == Count(s) + 1
    decreases |s|
  {
    var n := |s| - 1;
    if j == n {
      assert s[j := true][..n] == s[..n];
    } else {
      assert s[j := true][..n] == s[..n][j := true];
      CountMark(s[..n], j);
    }
  }

  /** A line with no known cell counts 0. */
  lemma {:induction false} CountNone(s: seq<bool>)
    requires forall j :: 0 <= j < |s| ==> !s[j]
    ensures Count(s) == 0
    decreases |s|
  {
    if s != [] {
      CountNone(s[..|s| - 1]);
    }
  }

  /** A fully known line counts its length. */
  lemma {:induction false} CountAll(s: seq<bool>)
    requires forall j :: 0 <= j < |s| ==> s[j]
    ensures Count(s) == |s|
    decreases |s|
  {
    if s != [] {
      CountAll(s[..|s| - 1]);
    }
  }

  /** A line counts at least as many cells as any set of its known positions. */
  lemma {:induction false} CountAtLeast(s: seq<bool>, known: set<int>)
    requires forall j :: j in known ==> 0 <= j < |s| && s[j]
    ensures Count(s) >= |known|
    decreases |s|
  {
    if s == [] {
      assert known == {} by {
        forall j | j in known ensures false {
        }
      }
    } else {
      var n := |s| - 1;
      var rest := known - {n};
      forall j | j in rest ensures 0 <= j < |s[..n]| && s[..n][j] {
      }
      CountAtLeast(s[..n], rest);
      if n in known {
        assert |rest| == |known| - 1;
      }
    }
  }

  /** A line that knows every cell another line of the same length knows
      counts at least as much. */
  lemma {:induction false} CountMono(s: seq<bool>, u: seq<bool>)
    requires |s| == |u|
    requires forall j :: 0 <= j < |s| && s[j] ==> u[j]
    ensures Count(s) <= Count(u)
    decreases |s|
  {
    if s != [] {
      var n := |s| - 1;
      CountMono(s[..n], u[..n]);
    }
  }

  /** A line whose only known cell is `j` counts 1. */
  lemma {:induction false} CountSingle(s: seq<bool>, j: int)
    requires 0 <= j < |s|
    requires forall i :: 0 <= i < |s| ==> (s[i] <==> i == j)
    ensures Count(s) == 1
    decreases |s|
  {
    var n := |s| - 1;
    if j == n {
      CountNone(s[..n]);
    } else {
      CountSingle(s[..n], j);
    }
  }

  /** Replacing one row changes the total by the difference of the two rows' counts. */
  lemma {:induction false} TotalReplace(m: seq<seq<bool>>, i: int, x: seq<bool>)
    requires 0 <= i < |m|
    ensures Total(m[i := x]) == Total(m) - Count(m[i]) + Count(x)
    decreases |m|
  {
    var n := |m| - 1;
    if i == n {
      assert m[i := x][..n] == m[..n];
    } else {
      assert m[i := x][..n] == m[..n][i := x];
      TotalReplace(m[..n], i, x);
    }
  }

  /** A matrix whose rows all count 0 has total 0. */
  lemma {:induction false} TotalNone(m: seq<seq<bool>>)
    requires forall i :: 0 <= i < |m| ==> Count(m[i]) == 0
    ensures Total(m) == 0
    decreases |m|
  {
    if m != [] {
      TotalNone(m[..|m| - 1]);
    }
  }

  /** If every row counts at least `n`, the total is at least |m| * n. */
  lemma {:induction false} TotalAtLeastEvery(m: seq<seq<bool>>, n: nat)
    requires forall i :: 0 <= i < |m| ==> Count(m[i]) >= n
    ensures Total(m) >= |m| * n
    decreases |m|
  {
    if m != [] {
      var k := |m| - 1;
      TotalAtLeastEvery(m[..k], n);
      MulPred(|m|, n);
    }
  }

  /** If every row indexed by `rows` counts at least `n`, the total is at
      least |rows| * n. */
  lemma {:induction false} TotalAtLeastSome(m: seq<seq<bool>>, rows: set<int>, n: nat)
    requires forall i :: i in rows ==> 0 <= i < |m| && Count(m[i]) >= n
    ensures Total(m) >= |rows| * n
    decreases |m|
  {
    if m == [] {
      assert rows == {} by {
        forall i | i in rows ensures false {
        }
      }
    } else {
      var k := |m| - 1;
      var rest := rows - {k};
      forall i | i in rest ensures 0 <= i < |m[..k]| && Count(m[..k][i]) >= n {
      }
      TotalAtLeastSome(m[..k], rest, n);
      if k in rows {
        assert |rest| == |rows| - 1;
        MulPred(|rows|, n);
      } else {
        assert rest == rows;
      }
    }
  }

  lemma MulPred(a: nat, b: nat)
    requires a >= 1
    ensures a * b == (a - 1) * b + b
  {
  }

  lemma SubsetCard<T>(s: set<T>, t: set<T>)
    requires s <= t
    ensures |s| <= |t|
    ensures s != t ==> |s| < |t|
  {
    assert t == s + (t - s);
    assert s * (t - s) == {};
    if s != t {
      var x :| x in t && x !in s;
      assert x in t - s;
    }
  }

  /** A set containing every index in [0, n) has at least n elements. */
  lemma LinesCard(n: nat, s: set<int>)
    requires forall i :: 0 <= i < n ==> i in s
    ensures |s| >= n
  {
    LinesSize(n);
    SubsetCard(Lines(n), s);
  }

  lemma {:induction false} LinesSize(n: nat)
    ensures |Lines(n)| == n
    decreases n
  {
    if n > 0 {
      LinesSize(n - 1);
    }
  }
}
