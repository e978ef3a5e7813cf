/**
 * The Hoppers puzzle: frogs on a grid of lily pads. 'G' is a green frog,
 * 'R' the red frog, '.' an empty pad; any other character is not a pad.
 * A frog hops over a green frog onto an empty pad, and the green frog it
 * jumps over leaves the board. Diagonal hops span two cells each way;
 * straight hops span four, and only from even rows. The goal is a board
 * without green frogs.
 */
module Hoppers {
  import opened Solving

  /** A board as a sequence of rows. */
  type Grid = seq<seq<char>>

  /** `g` has `row` rows of `col` cells each. */
  ghost predicate Rect(g: Grid, row: int, col: int)
  {
    |g| == row && forall i :: 0 <= i < row ==> |g[i]| == col
  }

  predicate OnBoard(g: Grid, r: int, c: int)
  {
    0 <= r < |g| && 0 <= c < |g[r]|
  }

  /** `g` and `h` have the same shape. */
  ghost predicate SameShape(g: Grid, h: Grid)
  {
    |h| == |g| && forall i :: 0 <= i < |g| ==> |h[i]| == |g[i]|
  }

  /** Two boards of the same shape that agree on every cell are the same board. */
  lemma SameGrid(g: Grid, h: Grid)
    requires SameShape(g, h)
    requires forall i, j :: OnBoard(g, i, j) ==> h[i][j] == g[i][j]
    ensures g == h
  {
    forall i | 0 <= i < |g|
      ensures g[i] == h[i]
    {
      assert forall j :: 0 <= j < |g[i]| ==> OnBoard(g, i, j);
    }
  }

  /** The board with cell `(r, c)` set to `v`. */
  function Set(g: Grid, r: int, c: int, v: char): Grid
    requires OnBoard(g, r, c)
  {
    g[r := g[r][c := v]]
  }

  /** Setting a cell changes that cell and nothing else. */
  lemma SetCells(g: Grid, r: int, c: int, v: char)
    requires OnBoard(g, r, c)
    ensures SameShape(g, Set(g, r, c, v))
    ensures forall i, j :: OnBoard(g, i, j) ==> Set(g, r, c, v)[i][j] == if i == r && j == c then v else g[i][j]
  {
  }

  /** Setting one cell leaves every other cell where it was. */
  lemma SetKeeps(g: Grid, r: int, c: int, v: char, i: int, j: int)
    requires OnBoard(g, r, c) && OnBoard(g, i, j) && (i != r || j != c)
    ensures OnBoard(Set(g, r, c, v), i, j) && Set(g, r, c, v)[i][j] == g[i][j]
  {
  }

  /**
   * The allowed hop directions from row `r`: a hop moves by `(2 * dr, 2 * dc)`
   * over the cell `(r + dr, c + dc)`. Diagonal hops go one cell over and two
   * along each axis; straight hops, only from even rows, go two over and four
   * along.
   */
  predicate Shape(r: int, dr: int, dc: int)
  {
    ((dr == 1 || dr == -1) && (dc == 1 || dc == -1))
    || (r % 2 == 0 && (((dr == 2 || dr == -2) && dc == 0) || (dr == 0 && (dc == 2 || dc == -2))))
  }

  /** There is a green frog to jump over and an empty pad to land on. */
  predicate CanJump(g: Grid, r: int, c: int, dr: int, dc: int)
  {
    OnBoard(g, r + dr, c + dc) && g[r + dr][c + dc] == 'G'
    && OnBoard(g, r + 2 * dr, c + 2 * dc) && g[r + 2 * dr][c + 2 * dc] == '.'
  }

  /** The board after the frog on `(r, c)` hops in direction `(dr, dc)`. */
  function Leap(g: Grid, r: int, c: int, dr: int, dc: int): Grid
    requires OnBoard(g, r, c) && CanJump(g, r, c, dr, dc)
  {
    Set(Set(Set(g, r, c, '.'), r + dr, c + dc, '.'), r + 2 * dr, c + 2 * dc, g[r][c])
  }

  /**
   * In a hop, the frog's cell and the jumped cell become empty, the landing
   * cell takes the frog, and every other cell is unchanged.
   */
  lemma LeapCells(g: Grid, r: int, c: int, dr: int, dc: int)
    requires OnBoard(g, r, c) && CanJump(g, r, c, dr, dc)
    ensures SameShape(g, Leap(g, r, c, dr, dc))
    ensures forall i, j :: OnBoard(g, i, j) ==> (Leap(g, r, c, dr, dc)[i][j] ==
      if (i, j) == (r, c) || (i, j) == (r + dr, c + dc) then '.'
      else if (i, j) == (r + 2 * dr, c + 2 * dc) then g[r][c]
      else g[i][j])
  {
    var g1 := Set(g, r, c, '.');
    var g2 := Set(g1, r + dr, c + dc, '.');
    SetCells(g, r, c, '.');
    SetCells(g1, r + dr, c + dc, '.');
    SetCells(g2, r + 2 * dr, c + 2 * dc, g[r][c]);
  }

  /** The hop in direction `(dr, dc)` when it is possible, as a list of zero or one boards. */
  function Jump(g: Grid, r: int, c: int, dr: int, dc: int): seq<Grid>
    requires OnBoard(g, r, c)
  {
    if CanJump(g, r, c, dr, dc) then [Leap(g, r, c, dr, dc)] else []
  }

  /**
   * The hop directions in the order the source tries them: the four
   * diagonals, then, from even rows only, up, down, left and right.
   */
  function Directions(r: int): (ds: seq<(int, int)>)
    ensures forall k :: 0 <= k < |ds| ==> Shape(r, ds[k].0, ds[k].1)
    ensures forall dr, dc :: Shape(r, dr, dc) ==> (dr, dc) in ds
  {
    [(1, 1), (1, -1), (-1, 1), (-1, -1)] + if r % 2 == 0 then [(-2, 0), (2, 0), (0, -2), (0, 2)] else []
  }

  /** The possible hops in the directions `ds`, in order. */
  function JumpsAlong(g: Grid, r: int, c: int, ds: seq<(int, int)>): seq<Grid>
    requires OnBoard(g, r, c)
  {
    if ds == [] then [] else JumpsAlong(g, r, c, ds[..|ds| - 1]) + Jump(g, r, c, ds[|ds| - 1].0, ds[|ds| - 1].1)
  }

  /** The hops of the frog on `(r, c)`, in the order the source tries them. */
  function HopsAt(g: Grid, r: int, c: int): seq<Grid>
    requires OnBoard(g, r, c)
  {
    JumpsAlong(g, r, c, Directions(r))
  }

  /** The hops along `ds` are the possible hops in the directions of `ds`. */
  lemma {:induction false} JumpsAlongMembers(g: Grid, r: int, c: int, ds: seq<(int, int)>)
    requires OnBoard(g, r, c)
    ensures forall h :: h in JumpsAlong(g, r, c, ds) <==>
      exists k :: 0 <= k < |ds| && CanJump(g, r, c, ds[k].0, ds[k].1) && h == Leap(g, r, c, ds[k].0, ds[k].1)
  {
    if ds != [] {
      var n := |ds| - 1;
      var p := ds[..n];
      JumpsAlongMembers(g, r, c, p);
      forall h
        ensures h in JumpsAlong(g, r, c, ds) <==>
          exists k :: 0 <= k < |ds| && CanJump(g, r, c, ds[k].0, ds[k].1) && h == Leap(g, r, c, ds[k].0, ds[k].1)
      {
        if h in JumpsAlong(g, r, c, p) {
          var k :| 0 <= k < |p| && CanJump(g, r, c, p[k].0, p[k].1) && h == Leap(g, r, c, p[k].0, p[k].1);
          assert ds[k] == p[k];
        }
      }
    }
  }

  /**
   * The hops from `(r, c)` are exactly the possible hops in the allowed
   * directions: diagonal ones from every row, straight ones from even rows.
   */
  lemma HopsAtShapes(g: Grid, r: int, c: int)
    requires OnBoard(g, r, c)
    ensures forall h :: h in HopsAt(g, r, c) <==>
      exists dr, dc :: Shape(r, dr, dc) && CanJump(g, r, c, dr, dc) && h == Leap(g, r, c, dr, dc)
  {
    var ds := Directions(r);
    JumpsAlongMembers(g, r, c, ds);
    forall h
      ensures h in HopsAt(g, r, c) <==>
        exists dr, dc :: Shape(r, dr, dc) && CanJump(g, r, c, dr, dc) && h == Leap(g, r, c, dr, dc)
    {
      if exists dr, dc :: Shape(r, dr, dc) && CanJump(g, r, c, dr, dc) && h == Leap(g, r, c, dr, dc) {
        var dr, dc :| Shape(r, dr, dc) && CanJump(g, r, c, dr, dc) && h == Leap(g, r, c, dr, dc);
        var k :| 0 <= k < |ds| && ds[k] == (dr, dc);
        assert CanJump(g, r, c, ds[k].0, ds[k].1);
      }
    }
  }

  /** A board with no green frog. */
  ghost predicate Solved(g: Grid)
  {
    forall i, j :: OnBoard(g, i, j) ==> g[i][j] != 'G'
  }

  /** The number of the first `n` cells of a row holding `ch`. */
  function CountRow(s: seq<char>, ch: char, n: nat): nat
    requires n <= |s|
  {
    if n == 0 then 0 else CountRow(s, ch, n - 1) + if s[n - 1] == ch then 1 else 0
  }

  /** The number of cells of the first `m` rows of a board holding `ch`. */
  function CountRows(g: Grid, ch: char, m: nat): nat
    requires m <= |g|
  {
    if m == 0 then 0 else CountRows(g, ch, m - 1) + CountRow(g[m - 1], ch, |g[m - 1]|)
  }

  /** The number of cells of a board holding `ch`. */
  function Count(g: Grid, ch: char): nat
  {
    CountRows(g, ch, |g|)
  }

  lemma {:induction false} CountRowZero(s: seq<char>, ch: char, n: nat)
    requires n <= |s|
    ensures CountRow(s, ch, n) == 0 <==> forall j :: 0 <= j < n ==> s[j] != ch
  {
    if n > 0 {
      CountRowZero(s, ch, n - 1);
    }
  }

  lemma {:induction false} CountRowsZero(g: Grid, ch: char, m: nat)
    requires m <= |g|
    ensures CountRows(g, ch, m) == 0 <==> forall i, j :: 0 <= i < m && 0 <= j < |g[i]| ==> g[i][j] != ch
  {
    if m > 0 {
      CountRowsZero(g, ch, m - 1);
      CountRowZero(g[m - 1], ch, |g[m - 1]|);
      if CountRows(g, ch, m) == 0 {
        forall i, j | 0 <= i < m && 0 <= j < |g[i]|
          ensures g[i][j] != ch
        {
          if i == m - 1 {
            assert g[m - 1][j] != ch;
          }
        }
      }
    }
  }

  /** A board is solved exactly when it holds no green frog. */
  lemma SolvedIffNoGreens(g: Grid)
    ensures Solved(g) <==> Count(g, 'G') == 0
  {
    CountRowsZero(g, 'G', |g|);
  }

  lemma {:induction false} CountRowUpdate(s: seq<char>, k: nat, v: char, ch: char, n: nat)
    requires k < |s| && n <= |s|
    ensures CountRow(s[k := v], ch, n) == CountRow(s, ch, n)
      - (if k < n && s[k] == ch then 1 else 0) + (if k < n && v == ch then 1 else 0)
  {
    if n > 0 {
      CountRowUpdate(s, k, v, ch, n - 1);
    }
  }

  lemma {:induction false} CountRowsUpdate(g: Grid, r: nat, t: seq<char>, ch: char, m: nat)
    requires r < |g| && m <= |g|
    ensures CountRows(g[r := t], ch, m) == CountRows(g, ch, m)
      - (if r < m then CountRow(g[r], ch, |g[r]|) else 0) + (if r < m then CountRow(t, ch, |t|) else 0)
  {
    if m > 0 {
      CountRowsUpdate(g, r, t, ch, m - 1);
    }
  }

  /** Setting one cell changes the count of `ch` by what leaves and what enters that cell. */
  lemma CountSet(g: Grid, r: int, c: int, v: char, ch: char)
    requires OnBoard(g, r, c)
    ensures Count(Set(g, r, c, v), ch) == Count(g, ch) - (if g[r][c] == ch then 1 else 0) + (if v == ch then 1 else 0)
  {
    CountRowUpdate(g[r], c, v, ch, |g[r]|);
    CountRowsUpdate(g, r, g[r][c := v], ch, |g|);
  }

  /** A hop by a frog removes exactly one green frog and keeps the red one. */
  lemma LeapCounts(g: Grid, r: int, c: int, dr: int, dc: int)
    requires OnBoard(g, r, c) && CanJump(g, r, c, dr, dc) && (dr != 0 || dc != 0)
    requires g[r][c] == 'G' || g[r][c] == 'R'
    ensures Count(Leap(g, r, c, dr, dc), 'G') == Count(g, 'G') - 1
    ensures Count(Leap(g, r, c, dr, dc), 'R') == Count(g, 'R')
  {
    var d := g[r][c];
    var g1 := Set(g, r, c, '.');
    var g2 := Set(g1, r + dr, c + dc, '.');
    SetKeeps(g, r, c, '.', r + dr, c + dc);
    SetKeeps(g, r, c, '.', r + 2 * dr, c + 2 * dc);
    SetKeeps(g1, r + dr, c + dc, '.', r + 2 * dr, c + 2 * dc);
    assert Leap(g, r, c, dr, dc) == Set(g2, r + 2 * dr, c + 2 * dc, d);
    forall ch | ch == 'G' || ch == 'R'
      ensures Count(Leap(g, r, c, dr, dc), ch) == Count(g, ch) - (if ch == 'G' then 1 else 0)
    {
      assert Count(g1, ch) == Count(g, ch) - (if d == ch then 1 else 0) by {
        CountSet(g, r, c, '.', ch);
      }
      assert Count(g2, ch) == Count(g1, ch) - (if ch == 'G' then 1 else 0) by {
        CountSet(g1, r + dr, c + dc, '.', ch);
      }
      assert Count(Set(g2, r + 2 * dr, c + 2 * dc, d), ch) == Count(g2, ch) + (if d == ch then 1 else 0) by {
        CountSet(g2, r + 2 * dr, c + 2 * dc, d, ch);
      }
    }
  }

  /** Every hop from `(r, c)` removes one green frog and keeps the red one. */
  lemma HopsAtCounts(g: Grid, r: int, c: int)
    requires OnBoard(g, r, c) && (g[r][c] == 'G' || g[r][c] == 'R')
    ensures forall h :: h in HopsAt(g, r, c) ==> Count(h, 'G') == Count(g, 'G') - 1 && Count(h, 'R') == Count(g, 'R')
  {
    HopsAtShapes(g, r, c);
    forall h | h in HopsAt(g, r, c)
      ensures Count(h, 'G') == Count(g, 'G') - 1 && Count(h, 'R') == Count(g, 'R')
    {
      var dr, dc :| Shape(r, dr, dc) && CanJump(g, r, c, dr, dc) && h == Leap(g, r, c, dr, dc);
      LeapCounts(g, r, c, dr, dc);
    }
  }

  /** The cells the scan visits: even columns of even rows and odd columns of odd rows. */
  predicate IsPad(r: int, c: int)
  {
    r % 2 == c % 2
  }

  /** Cell `(a, b)` lies strictly between `(r, c)` and `(r2, c2)` in row-major order. */
  predicate Between(r: int, c: int, a: int, b: int, r2: int, c2: int)
  {
    (r < a || (r == a && c < b)) && (a < r2 || (a == r2 && b < c2))
  }

  /**
   * The cell after `(r, c)` in the scan of a board `col` cells wide: two
   * cells on along the row, or the first pad of the next row at the end of a
   * row.
   */
  function Next(col: int, r: int, c: int): (p: (int, int))
    requires col % 2 == 1 && 3 <= col && 0 <= r && 0 <= c < col && IsPad(r, c)
    ensures p == if c + 2 < col then (r, c + 2) else (r + 1, (r + 1) % 2)
  {
    if r % 2 == 0 then
      if c != col - 1 then (r, c + 2) else (r + 1, 1)
    else
      if c != col - 2 then (r, c + 2) else (r + 1, 0)
  }

  /** The next cell is a pad after `(r, c)`, and no pad lies between them. */
  lemma NextIsNextPad(col: int, r: int, c: int)
    requires col % 2 == 1 && 3 <= col && 0 <= r && 0 <= c < col && IsPad(r, c)
    ensures var p := Next(col, r, c);
      0 <= p.0 && 0 <= p.1 < col && IsPad(p.0, p.1) && (r < p.0 || (r == p.0 && c < p.1))
      && forall a, b :: 0 <= b < col && Between(r, c, a, b, p.0, p.1) ==> !IsPad(a, b)
  {
  }

  /** The board sizes the scan handles: odd sizes, and at least three columns when there is more than one row. */
  predicate Scannable(row: int, col: int)
  {
    1 <= row && 1 <= col && row % 2 == 1 && col % 2 == 1 && (row == 1 || 3 <= col)
  }

  /** A cursor position of the scan. */
  predicate Cursor(row: int, col: int, r: int, c: int)
  {
    0 <= r < row && 0 <= c < col && IsPad(r, c)
  }

  /** Before the last cell, the scan's next cursor is still on the board. */
  lemma NextOnBoard(row: int, col: int, r: int, c: int)
    requires Scannable(row, col) && Cursor(row, col, r, c) && (r != row - 1 || c != col - 1)
    ensures 3 <= col && Cursor(row, col, Next(col, r, c).0, Next(col, r, c).1)
  {
  }

  /** The hops of the cell `(r, c)`, which only a frog has. */
  function Visit(g: Grid, r: int, c: int): seq<Grid>
    requires OnBoard(g, r, c)
  {
    if g[r][c] == 'R' || g[r][c] == 'G' then HopsAt(g, r, c) else []
  }

  /** The hops found by the scan from `(r, c)` to the last cell. */
  function Scan(g: Grid, row: int, col: int, r: int, c: int): seq<Grid>
    requires Rect(g, row, col) && Scannable(row, col) && Cursor(row, col, r, c)
    decreases row - r, col - c
  {
    if r == row - 1 && c == col - 1 then Visit(g, r, c)
    else
      var p := Next(col, r, c);
      Visit(g, r, c) + Scan(g, row, col, p.0, p.1)
  }

  /** All neighbours of a board: the hops of every frog on a visited cell, in scan order. */
  function Neighbors(g: Grid, row: int, col: int): seq<Grid>
    requires Rect(g, row, col) && Scannable(row, col)
  {
    Scan(g, row, col, 0, 0)
  }

  /** Every neighbour found by the scan has one green frog fewer and the same red frog. */
  lemma {:induction false} ScanCounts(g: Grid, row: int, col: int, r: int, c: int)
    requires Rect(g, row, col) && Scannable(row, col) && Cursor(row, col, r, c)
    ensures forall h :: h in Scan(g, row, col, r, c) ==> Count(h, 'G') == Count(g, 'G') - 1 && Count(h, 'R') == Count(g, 'R')
    decreases row - r, col - c
  {
    if g[r][c] == 'R' || g[r][c] == 'G' {
      HopsAtCounts(g, r, c);
    }
    if r != row - 1 || c != col - 1 {
      var p := Next(col, r, c);
      ScanCounts(g, row, col, p.0, p.1);
    }
  }

  lemma NeighborsCounts(g: Grid, row: int, col: int)
    requires Rect(g, row, col) && Scannable(row, col)
    ensures forall h :: h in Neighbors(g, row, col) ==> Count(h, 'G') == Count(g, 'G') - 1 && Count(h, 'R') == Count(g, 'R')
  {
    ScanCounts(g, row, col, 0, 0);
  }

  /** The first `n` cells of row `i` of a board array. */
  function RowOf(a: array2<char>, i: int, n: nat): (s: seq<char>)
    reads a
    requires 0 <= i < a.Length0 && n <= a.Length1
    ensures |s| == n
  {
    if n == 0 then [] else RowOf(a, i, n - 1) + [a[i, n - 1]]
  }

  /** The first `m` rows of a board array. */
  function RowsOf(a: array2<char>, m: nat): (g: Grid)
    reads a
    requires m <= a.Length0
    ensures Rect(g, m, a.Length1)
  {
    if m == 0 then [] else RowsOf(a, m - 1) + [RowOf(a, m - 1, a.Length1)]
  }

  /** The cells of a board array as a grid. */
  function Cells(a: array2<char>): (g: Grid)
    reads a
    ensures Rect(g, a.Length0, a.Length1)
  {
    RowsOf(a, a.Length0)
  }

  lemma {:induction false} RowOfCells(a: array2<char>, i: int, n: nat)
    requires 0 <= i < a.Length0 && n <= a.Length1
    ensures forall j :: 0 <= j < n ==> RowOf(a, i, n)[j] == a[i, j]
  {
    if n > 0 {
      RowOfCells(a, i, n - 1);
    }
  }

  lemma {:induction false} RowsOfCells(a: array2<char>, m: nat)
    requires m <= a.Length0
    ensures forall i :: 0 <= i < m ==> RowsOf(a, m)[i] == RowOf(a, i, a.Length1)
  {
    if m > 0 {
      RowsOfCells(a, m - 1);
    }
  }

  /** The grid of a board array has its dimensions and holds its cells. */
  lemma CellsIndex(a: array2<char>)
    ensures forall i, j :: 0 <= i < a.Length0 && 0 <= j < a.Length1 ==> Cells(a)[i][j] == a[i, j]
  {
    RowsOfCells(a, a.Length0);
    forall i | 0 <= i < a.Length0
      ensures forall j :: 0 <= j < a.Length1 ==> Cells(a)[i][j] == a[i, j]
    {
      RowOfCells(a, i, a.Length1);
    }
  }

  /** An array that holds a grid cell by cell shows that grid. */
  lemma CellsAre(a: array2<char>, g: Grid)
    requires Rect(g, a.Length0, a.Length1)
    requires forall i, j :: 0 <= i < a.Length0 && 0 <= j < a.Length1 ==> a[i, j] == g[i][j]
    ensures Cells(a) == g
  {
    CellsIndex(a);
    SameGrid(g, Cells(a));
  }

  /** The configurations `configs` hold the boards `grids`, one by one. */
  ghost predicate Shows(configs: seq<HoppersConfig>, grids: seq<Grid>)
    reads set i | 0 <= i < |configs| :: configs[i].board
  {
    |configs| == |grids| && forall i :: 0 <= i < |configs| ==> Cells(configs[i].board) == grids[i]
  }

  /**
   * One step of the scan: appending the hops of the cell under the cursor
   * keeps the found configurations in step with the neighbours still to come.
   */
  lemma ScanAdvances(configs: seq<HoppersConfig>, grids: seq<Grid>, found: seq<HoppersConfig>,
                     g: Grid, row: int, col: int, r: int, c: int)
    requires Rect(g, row, col) && Scannable(row, col) && Cursor(row, col, r, c) && (r != row - 1 || c != col - 1)
    requires Shows(configs, grids) && Sized(configs, row, col) && Shows(found, Visit(g, r, c)) && Sized(found, row, col)
    requires grids + Scan(g, row, col, r, c) == Neighbors(g, row, col)
    ensures Shows(configs + found, grids + Visit(g, r, c)) && Sized(configs + found, row, col)
    ensures 3 <= col && Cursor(row, col, Next(col, r, c).0, Next(col, r, c).1)
    ensures (grids + Visit(g, r, c)) + Scan(g, row, col, Next(col, r, c).0, Next(col, r, c).1) == Neighbors(g, row, col)
  {
    NextOnBoard(row, col, r, c);
    var p := Next(col, r, c);
    Associative(grids, Visit(g, r, c), Scan(g, row, col, p.0, p.1));
    ShowsAppend(configs, grids, found, Visit(g, r, c), row, col);
  }

  /** Every configuration of `configs` is well formed with `row` rows and `col` columns. */
  ghost predicate Sized(configs: seq<HoppersConfig>, row: int, col: int)
  {
    forall i :: 0 <= i < |configs| ==> configs[i].Valid() && configs[i].row == row && configs[i].col == col
  }

  /** Joining two lists of configurations joins the boards they show. */
  lemma ShowsAppend(a: seq<HoppersConfig>, ga: seq<Grid>, b: seq<HoppersConfig>, gb: seq<Grid>, row: int, col: int)
    requires Shows(a, ga) && Shows(b, gb) && Sized(a, row, col) && Sized(b, row, col)
    ensures Shows(a + b, ga + gb) && Sized(a + b, row, col)
  {
  }

  /** A configuration: the board, its dimensions, and the scan's cursor. */
  class HoppersConfig {
    const row: int
    const col: int
    var cursorRow: int
    var cursorCol: int
    const board: array2<char>

    predicate Valid()
    {
      board.Length0 == row && board.Length1 == col
    }

    /** The copy constructor: same dimensions and cursor, and a fresh board holding the same cells. */
    constructor Copy(other: HoppersConfig)
      requires other.Valid()
      ensures Valid() && row == other.row && col == other.col
      ensures cursorRow == other.cursorRow && cursorCol == other.cursorCol
      ensures fresh(board) && Cells(board) == Cells(other.board)
    {
      row := other.row;
      col := other.col;
      board := new char[other.row, other.col];
      new;
      for i := 0 to row
        invariant forall a, b :: 0 <= a < i && 0 <= b < col ==> board[a, b] == other.board[a, b]
      {
        for j := 0 to col
          invariant forall a, b :: 0 <= a < i && 0 <= b < col ==> board[a, b] == other.board[a, b]
          invariant forall b :: 0 <= b < j ==> board[i, b] == other.board[i, b]
        {
          board[i, j] := other.board[i, j];
        }
      }
      CellsIndex(other.board);
      CellsAre(board, Cells(other.board));
      cursorRow := other.cursorRow;
      cursorCol := other.cursorCol;
    }

    /** Moves the cursor to the next cell of the scan. */
    method NextCell()
      requires 3 <= col && col % 2 == 1 && 0 <= cursorRow && 0 <= cursorCol < col && IsPad(cursorRow, cursorCol)
      modifies this`cursorRow, this`cursorCol
      ensures (cursorRow, cursorCol) == Next(col, old(cursorRow), old(cursorCol))
    {
      if cursorRow % 2 == 0 {
        if cursorCol != col - 1 {
          cursorCol := cursorCol + 2;
        } else {
          cursorRow := cursorRow + 1;
          cursorCol := 1;
        }
      } else {
        if cursorCol != col - 2 {
          cursorCol := cursorCol + 2;
        } else {
          cursorRow := cursorRow + 1;
          cursorCol := 0;
        }
      }
    }

    /**
     * The hop of the frog `current` on `(r, c)` in direction `(dr, dc)`: when
     * it is possible, a copy of this configuration with the three cells of
     * the hop written. `g` is the board as it stands.
     */
    method TryJump(ghost g: Grid, r: int, c: int, current: char, dr: int, dc: int) returns (part: seq<HoppersConfig>)
      requires Valid() && g == Cells(board) && 0 <= r < row && 0 <= c < col && current == g[r][c]
      ensures Shows(part, Jump(g, r, c, dr, dc)) && Sized(part, row, col)
      ensures forall i :: 0 <= i < |part| ==> fresh(part[i].board)
    {
      CellsIndex(board);
      if 0 <= r + dr < row && 0 <= c + dc < col && board[r + dr, c + dc] == 'G' {
        if 0 <= r + 2 * dr < row && 0 <= c + 2 * dc < col && board[r + 2 * dr, c + 2 * dc] == '.' {
          var config := new HoppersConfig.Copy(this);
          config.Hop(g, r, c, dr, dc, current);
          return [config];
        }
      }
      return [];
    }

    /**
     * Moves the frog on `(r, c)` over `(r + dr, c + dc)` onto
     * `(r + 2 * dr, c + 2 * dc)`, writing the three cells in place.
     */
    method Hop(ghost g: Grid, r: int, c: int, dr: int, dc: int, current: char)
      requires Valid() && g == Cells(board) && OnBoard(g, r, c) && CanJump(g, r, c, dr, dc) && current == g[r][c]
      modifies board
      ensures Cells(board) == Leap(g, r, c, dr, dc)
    {
      CellsIndex(board);
      board[r, c] := '.';
      board[r + dr, c + dc] := '.';
      board[r + 2 * dr, c + 2 * dc] := current;
      LeapCells(g, r, c, dr, dc);
      CellsAre(board, Leap(g, r, c, dr, dc));
    }

    /**
     * The hops of the frog under the cursor. The source writes the eight
     * directions out one after another; the model walks `Directions`, which
     * lists them in the same order.
     */
    method ValidHopHelper(ghost g: Grid) returns (configs: seq<HoppersConfig>)
      requires Valid() && g == Cells(board) && 0 <= cursorRow < row && 0 <= cursorCol < col
      ensures Shows(configs, HopsAt(g, cursorRow, cursorCol)) && Sized(configs, row, col)
    {
      CellsIndex(board);
      var current := board[cursorRow, cursorCol];
      var r, c := cursorRow, cursorCol;
      var ds := Directions(r);
      configs := [];
      for k := 0 to |ds|
        invariant Cells(board) == g
        invariant Shows(configs, JumpsAlong(g, r, c, ds[..k])) && Sized(configs, row, col)
      {
        var part := TryJump(g, r, c, current, ds[k].0, ds[k].1);
        assert ds[..k + 1][..k] == ds[..k];
        ShowsAppend(configs, JumpsAlong(g, r, c, ds[..k]), part, Jump(g, r, c, ds[k].0, ds[k].1), row, col);
        configs := configs + part;
      }
      assert ds[..|ds|] == ds;
    }

    /** The hops of the cell under the cursor when it holds a frog, and none otherwise. */
    method VisitCursor(ghost g: Grid) returns (found: seq<HoppersConfig>)
      requires Valid() && g == Cells(board) && 0 <= cursorRow < row && 0 <= cursorCol < col
      ensures Shows(found, Visit(g, cursorRow, cursorCol)) && Sized(found, row, col)
    {
      CellsIndex(board);
      found := [];
      if board[cursorRow, cursorCol] == 'R' || board[cursorRow, cursorCol] == 'G' {
        found := ValidHopHelper(g);
      }
    }

    /**
     * The neighbours: the cursor scans the visited cells from the top-left
     * corner to the bottom-right one, collecting the hops of every frog.
     * The board and the dimensions are left alone; only the cursor moves.
     */
    method GetNeighbors() returns (configs: seq<HoppersConfig>)
      requires Valid() && Scannable(row, col)
      modifies this`cursorRow, this`cursorCol
      ensures Shows(configs, Neighbors(Cells(board), row, col)) && Sized(configs, row, col)
      ensures cursorRow == row - 1 && cursorCol == col - 1
    {
      ghost var g := Cells(board);
      CellsIndex(board);
      ghost var grids: seq<Grid> := [];
      configs := [];
      cursorRow, cursorCol := 0, 0;
      while cursorRow != row - 1 || cursorCol != col - 1
        invariant Cursor(row, col, cursorRow, cursorCol)
        invariant Shows(configs, grids) && Sized(configs, row, col)
        invariant grids + Scan(g, row, col, cursorRow, cursorCol) == Neighbors(g, row, col)
        decreases row - cursorRow, col - cursorCol
      {
        var found := VisitCursor(g);
        ghost var r, c := cursorRow, cursorCol;
        NextCell();
        ScanAdvances(configs, grids, found, g, row, col, r, c);
        configs := configs + found;
        grids := grids + Visit(g, r, c);
      }
      var found := VisitCursor(g);
      ShowsAppend(configs, grids, found, Visit(g, cursorRow, cursorCol), row, col);
      configs := configs + found;
    }

    /** The goal test: no cell holds a green frog. */
    method IsGoal() returns (b: bool)
      requires Valid()
      ensures b <==> Solved(Cells(board))
    {
      CellsIndex(board);
      for r := 0 to row
        invariant forall i, j :: 0 <= i < r && 0 <= j < col ==> board[i, j] != 'G'
      {
        for c := 0 to col
          invariant forall i, j :: 0 <= i < r && 0 <= j < col ==> board[i, j] != 'G'
          invariant forall j :: 0 <= j < c ==> board[r, j] != 'G'
        {
          if board[r, c] == 'G' {
            assert OnBoard(Cells(board), r, c);
            return false;
          }
        }
      }
      return true;
    }
  }
}
