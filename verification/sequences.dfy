/** Sequence helpers for the brick list: order-preserving selection by a
    mask, and the subsequence relation it establishes. */
module Sequences {

  /** `a` can be obtained from `b` by deleting elements (greedy matching). */
  predicate IsSubsequence<T(==)>(a: seq<T>, b: seq<T>)
    decreases |b|
  {
    if a == [] then true
    else if b == [] then false
    else if a[0] == b[0] then IsSubsequence(a[1..], b[1..])
    else IsSubsequence(a, b[1..])
  }

  lemma {:induction false} SubsequenceExtend<T>(a: seq<T>, b: seq<T>, x: T)
    requires IsSubsequence(a, b)
    ensures IsSubsequence(a, [x] + b)
    decreases |b|, 1
  {
    assert ([x] + b)[1..] == b;
    if a != [] && a[0] == x {
      SubsequenceDropHead(a, b);
    }
  }

  lemma {:induction false} SubsequenceDropHead<T>(a: seq<T>, b: seq<T>)
    requires a != [] && IsSubsequence(a, b)
    ensures IsSubsequence(a[1..], b)
    decreases |b|, 0
  {
    assert [b[0]] + b[1..] == b;
    if a[0] == b[0] {
      SubsequenceExtend(a[1..], b[1..], b[0]);
    } else {
      SubsequenceDropHead(a, b[1..]);
      SubsequenceExtend(a[1..], b[1..], b[0]);
    }
  }

  /** The elements of `s` whose mask bit equals `which`, in their original order. */
  function Select<T>(s: seq<T>, mask: seq<bool>, which: bool): (r: seq<T>)
    requires |mask| == |s|
    ensures |r| <= |s|
    ensures |r| == |s| <==> forall i :: 0 <= i < |s| ==> mask[i] == which
    decreases |s|
  {
    if s == [] then []
    else (if mask[0] == which then [s[0]] else []) + Select(s[1..], mask[1..], which)
  }

  /** Selecting by a mask keeps order: the result is a subsequence of the input. */
  lemma {:induction false} SelectIsSubsequence<T>(s: seq<T>, mask: seq<bool>, which: bool)
    requires |mask| == |s|
    ensures IsSubsequence(Select(s, mask, which), s)
    decreases |s|
  {
    if s != [] {
      var rest := Select(s[1..], mask[1..], which);
      SelectIsSubsequence(s[1..], mask[1..], which);
      if mask[0] == which {
        assert ([s[0]] + rest)[1..] == rest;
      } else {
        assert Select(s, mask, which) == rest;
        SubsequenceExtend(rest, s[1..], s[0]);
        assert [s[0]] + s[1..] == s;
      }
    }
  }

  /** The two selections of a mask split the sequence: nothing is lost or duplicated. */
  lemma {:induction false} SelectPartition<T>(s: seq<T>, mask: seq<bool>)
    requires |mask| == |s|
    ensures multiset(s) == multiset(Select(s, mask, false)) + multiset(Select(s, mask, true))
    ensures |Select(s, mask, false)| + |Select(s, mask, true)| == |s|
    decreases |s|
  {
    if s != [] {
      SelectPartition(s[1..], mask[1..]);
      assert s == [s[0]] + s[1..];
    }
  }

  /** Every element chosen by the mask satisfies a property the masked positions have. */
  lemma {:induction false} SelectedSatisfy<T>(s: seq<T>, mask: seq<bool>, p: T -> bool)
    requires |mask| == |s|
    requires forall i :: 0 <= i < |s| && mask[i] ==> p(s[i])
    ensures forall x :: x in Select(s, mask, true) ==> p(x)
    decreases |s|
  {
    if s != [] {
      SelectedSatisfy(s[1..], mask[1..], p);
    }
  }

  /** The first `n` cells of row `row`, left to right. */
  function GridRow<T>(row: nat, n: nat, cell: (nat, nat) -> T): (r: seq<T>)
    ensures |r| == n
    ensures forall col :: 0 <= col < n ==> r[col] == cell(row, col)
  {
    if n == 0 then [] else GridRow(row, n - 1, cell) + [cell(row, n - 1)]
  }

  lemma MulSucc(a: nat, n: nat)
    ensures (a + 1) * n == a * n + n
  {
  }

  lemma MulMonotone(a: nat, b: nat, n: nat)
    requires a <= b
    ensures a * n <= b * n
    decreases b - a
  {
    if a < b {
      MulMonotone(a, b - 1, n);
      MulSucc(b - 1, n);
    }
  }

  lemma RowStartBelow(row: nat, col: nat, rows: nat, n: nat)
    requires row < rows && col < n
    ensures row * n + col < rows * n
  {
    MulSucc(row, n);
    MulMonotone(row + 1, rows, n);
  }

  /** A row-major grid: `rows` rows of `cols` cells each, flattened row after row. */
  function Grid<T>(rows: nat, cols: nat, cell: (nat, nat) -> T): (g: seq<T>)
    ensures |g| == rows * cols
  {
    if rows == 0 then []
    else
      MulSucc(rows - 1, cols);
      Grid(rows - 1, cols, cell) + GridRow(rows - 1, cols, cell)
  }

  /** Cell (row, col) of a row-major grid sits at position row * cols + col. */
  lemma {:induction false} GridCell<T>(rows: nat, cols: nat, cell: (nat, nat) -> T, row: nat, col: nat)
    requires row < rows && col < cols
    ensures row * cols + col < |Grid(rows, cols, cell)|
    ensures Grid(rows, cols, cell)[row * cols + col] == cell(row, col)
  {
    var prev := Grid(rows - 1, cols, cell);
    var last := GridRow(rows - 1, cols, cell);
    assert Grid(rows, cols, cell) == prev + last;
    if row < rows - 1 {
      GridCell(rows - 1, cols, cell, row, col);
      RowStartBelow(row, col, rows - 1, cols);
    } else {
      assert row * cols + col == |prev| + col;
      assert last[col] == cell(row, col);
    }
  }
}
