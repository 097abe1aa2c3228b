/** Minimum path sum over a grid by dynamic programming (dynamic.c).

    `dynamic` rewrites the grid in place, row by row and left to right, so
    that every cell ends up holding the cheapest cost of a path from the
    top-left cell to it that only moves right or down, counting both end
    cells; it then returns the bottom-right cell. */
module Dynamic {

  /** ROWS and COLS. */
  const Rows: nat := 3
  const Cols: nat := 4

  /** MIN(a, b): the second argument on a tie. */
  function Min(a: int, b: int): (m: int)
    ensures m <= a && m <= b
    ensures m == a || m == b
  {
    if a < b then a else b
  }

  /** A rectangular grid of integers with at least one cell, one sequence per row. */
  predicate IsGrid(g: seq<seq<int>>) {
    |g| > 0 && |g[0]| > 0 && forall i :: 0 <= i < |g| ==> |g[i]| == |g[0]|
  }

  /** The value each cell receives, by the recurrence the loops apply: the
      first tile is kept, the first row looks only left, the first column
      only up, and every other cell adds the smaller of its upper and left
      results. */
  function Best(g: seq<seq<int>>, i: nat, j: nat): int
    requires IsGrid(g) && i < |g| && j < |g[0]|
    decreases i + j
  {
    if i == 0 && j == 0 then g[0][0]
    else if i == 0 then g[0][j] + Best(g, 0, j - 1)
    else if j == 0 then g[i][0] + Best(g, i - 1, 0)
    else g[i][j] + Min(Best(g, i - 1, j), Best(g, i, j - 1))
  }

  // ---------------------------------------------------------------------
  // The independent reference: explicit right/down paths and their cost.

  datatype Move = Right | Down

  /** Where a path that starts at the top-left cell ends. */
  function EndRow(p: seq<Move>): nat
    decreases |p|
  {
    if p == [] then 0 else EndRow(p[..|p| - 1]) + (if p[|p| - 1] == Down then 1 else 0)
  }

  function EndCol(p: seq<Move>): nat
    decreases |p|
  {
    if p == [] then 0 else EndCol(p[..|p| - 1]) + (if p[|p| - 1] == Right then 1 else 0)
  }

  /** The path stays on the grid (its cells only grow, so checking its end suffices). */
  predicate Fits(g: seq<seq<int>>, p: seq<Move>) {
    IsGrid(g) && EndRow(p) < |g| && EndCol(p) < |g[0]|
  }

  /** The sum of the cells a path visits, the first and last included. */
  function Cost(g: seq<seq<int>>, p: seq<Move>): int
    requires Fits(g, p)
    decreases |p|
  {
    if p == [] then g[0][0] else Cost(g, p[..|p| - 1]) + g[EndRow(p)][EndCol(p)]
  }

  /** No path to a cell is cheaper than the value the recurrence gives it. */
  lemma {:induction false} BestIsLowerBound(g: seq<seq<int>>, p: seq<Move>)
    requires Fits(g, p)
    ensures Best(g, EndRow(p), EndCol(p)) <= Cost(g, p)
    decreases |p|
  {
    if p != [] {
      BestIsLowerBound(g, p[..|p| - 1]);
    }
  }

  /** Extending a path by one move: its end moves by one cell, whose value
      is added to the cost. */
  lemma Extend(g: seq<seq<int>>, p: seq<Move>, m: Move)
    ensures EndRow(p + [m]) == EndRow(p) + (if m == Down then 1 else 0)
    ensures EndCol(p + [m]) == EndCol(p) + (if m == Right then 1 else 0)
    ensures Fits(g, p + [m]) ==> Cost(g, p + [m]) == Cost(g, p) + g[EndRow(p + [m])][EndCol(p + [m])]
  {
    assert (p + [m])[..|p|] == p;
  }

  /** A path that attains the recurrence's value, so that value is the minimum. */
  function BestPath(g: seq<seq<int>>, i: nat, j: nat): (p: seq<Move>)
    requires IsGrid(g) && i < |g| && j < |g[0]|
    ensures EndRow(p) == i && EndCol(p) == j
    ensures Fits(g, p) && Cost(g, p) == Best(g, i, j)
    decreases i + j
  {
    if i == 0 && j == 0 then []
    else if j > 0 && (i == 0 || Best(g, i - 1, j) >= Best(g, i, j - 1)) then
      var q := BestPath(g, i, j - 1);
      Extend(g, q, Right);
      FromLeft(g, i, j);
      q + [Right]
    else
      var q := BestPath(g, i - 1, j);
      Extend(g, q, Down);
      FromAbove(g, i, j);
      q + [Down]
  }

  /** The recurrence when the cell to the left is the cheaper (or only) way in. */
  lemma FromLeft(g: seq<seq<int>>, i: nat, j: nat)
    requires IsGrid(g) && i < |g| && 0 < j < |g[0]|
    requires i == 0 || Best(g, i - 1, j) >= Best(g, i, j - 1)
    ensures Best(g, i, j) == g[i][j] + Best(g, i, j - 1)
  {
  }

  /** The recurrence when the cell above is the cheaper (or only) way in. */
  lemma FromAbove(g: seq<seq<int>>, i: nat, j: nat)
    requires IsGrid(g) && 0 < i < |g| && j < |g[0]|
    requires j == 0 || Best(g, i - 1, j) < Best(g, i, j - 1)
    ensures Best(g, i, j) == g[i][j] + Best(g, i - 1, j)
  {
  }

  /** Sum of the first n entries of a row. */
  function Sum(s: seq<int>, n: nat): int
    requires n <= |s|
  {
    if n == 0 then 0 else Sum(s, n - 1) + s[n - 1]
  }

  /** The first row holds running sums from the left. */
  lemma {:induction false} FirstRowSums(g: seq<seq<int>>, j: nat)
    requires IsGrid(g) && j < |g[0]|
    ensures Best(g, 0, j) == Sum(g[0], j + 1)
  {
    if j > 0 {
      FirstRowSums(g, j - 1);
    }
  }

  /** The column sum of the first n rows' column-j entries. */
  function ColumnSum(g: seq<seq<int>>, j: nat, n: nat): int
    requires IsGrid(g) && j < |g[0]| && n <= |g|
  {
    if n == 0 then 0 else ColumnSum(g, j, n - 1) + g[n - 1][j]
  }

  /** The first column holds running sums from the top. */
  lemma {:induction false} FirstColumnSums(g: seq<seq<int>>, i: nat)
    requires IsGrid(g) && i < |g|
    ensures Best(g, i, 0) == ColumnSum(g, 0, i + 1)
  {
    if i > 0 {
      FirstColumnSums(g, i - 1);
    }
  }

  // ---------------------------------------------------------------------
  // The in-place computation.

  ghost function Snapshot(a: array2<int>): (g: seq<seq<int>>)
    reads a
    ensures |g| == a.Length0
    ensures forall i :: 0 <= i < a.Length0 ==> |g[i]| == a.Length1
    ensures forall i, j :: 0 <= i < a.Length0 && 0 <= j < a.Length1 ==> g[i][j] == a[i, j]
  {
    seq(a.Length0, i requires 0 <= i < a.Length0 reads a =>
      seq(a.Length1, j requires 0 <= j < a.Length1 reads a => a[i, j]))
  }

  /** Row-major progress: cells before (i, j) hold their result, the others
      still hold their original value from g. */
  ghost predicate Progress(a: array2<int>, g: seq<seq<int>>, i: nat, j: nat)
    reads a
    requires IsGrid(g) && a.Length0 == |g| && a.Length1 == |g[0]|
  {
    forall r, c :: 0 <= r < a.Length0 && 0 <= c < a.Length1 ==>
      a[r, c] == if r < i || (r == i && c < j) then Best(g, r, c) else g[r][c]
  }

  /** dynamic: fills the grid with the minimum path sums and returns the
      bottom-right one. Every neighbour it reads (i - 1 only when i > 0,
      j - 1 only when j > 0) was already rewritten. */
  method MinPathSum(grid: array2<int>) returns (r: int)
    requires grid.Length0 == Rows && grid.Length1 == Cols
    modifies grid
    ensures forall i, j :: 0 <= i < Rows && 0 <= j < Cols ==> grid[i, j] == Best(old(Snapshot(grid)), i, j)
    ensures r == Best(old(Snapshot(grid)), Rows - 1, Cols - 1)
  {
    ghost var g := Snapshot(grid);
    for i := 0 to Rows
      invariant Progress(grid, g, i, 0)
    {
      for j := 0 to Cols
        invariant Progress(grid, g, i, j)
      {
        if i == 0 && j == 0 {
          // the first tile keeps its value
        } else if i == 0 {
          grid[i, j] := grid[i, j] + grid[i, j - 1];
        } else if j == 0 {
          grid[i, j] := grid[i, j] + grid[i - 1, j];
        } else {
          grid[i, j] := grid[i, j] + Min(grid[i - 1, j], grid[i, j - 1]);
        }
      }
    }
    r := grid[Rows - 1, Cols - 1];
  }

  /** The static grid of the program. */
  const Static: seq<seq<int>> := [[3, 2, 1, 3], [1, 9, 2, 3], [9, 1, 5, 4]]

  /** The table the program prints for its static grid, ending in 15. */
  lemma StaticTable()
    ensures IsGrid(Static) && |Static| == Rows && |Static[0]| == Cols
    ensures forall i, j :: 0 <= i < Rows && 0 <= j < Cols ==>
      Best(Static, i, j) == [[3, 5, 6, 9], [4, 13, 8, 11], [13, 14, 13, 15]][i][j]
  {
    var g := Static;
    assert Best(g, 0, 0) == 3 && Best(g, 0, 1) == 5 && Best(g, 0, 2) == 6 && Best(g, 0, 3) == 9;
    assert Best(g, 1, 0) == 4 && Best(g, 1, 1) == 13 && Best(g, 1, 2) == 8 && Best(g, 1, 3) == 11;
    assert Best(g, 2, 0) == 13 && Best(g, 2, 1) == 14 && Best(g, 2, 2) == 13 && Best(g, 2, 3) == 15;
  }

  /** main: runs dynamic on the static grid; the solution is 15. */
  method Solve() returns (r: int)
    ensures r == 15
  {
    var grid := new int[Rows, Cols]((i, j) requires 0 <= i < Rows && 0 <= j < Cols => Static[i][j]);
    forall i | 0 <= i < Rows ensures Snapshot(grid)[i] == Static[i] {
      assert Snapshot(grid)[i] == Static[i];
    }
    assert Snapshot(grid) == Static;
    r := MinPathSum(grid);
    StaticTable();
  }
}
