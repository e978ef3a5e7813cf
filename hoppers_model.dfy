/**
 * The interactive Hoppers game: the player selects a frog, then the pad it
 * should land on; the model checks the hop and makes it on the current
 * board. A hint replaces the current configuration with the next one on a
 * shortest solution.
 */
module HoppersGame {
  import opened Solving
  import opened Hoppers

  /**
   * How the source judges a requested hop from `(r, c)` to `(r2, c2)`:
   * accepted over the cell `(r + d.0, c + d.1)`, rejected, or stopped by a
   * read outside the board (an index error in the source).
   */
  datatype Check = Accept(d: (int, int)) | Reject | OffBoard

  /** What a selection reports to the player. */
  datatype Reply =
    | Selected(r: int, c: int)
    | InvalidSelection(r: int, c: int)
    | Ignored
    | Hopped(r: int, c: int, r2: int, c2: int)
    | CantJump(r: int, c: int, r2: int, c2: int)
    | IndexError

  /** What a hint reports to the player. */
  datatype HintReply = AlreadySolved | HintGiven | NoSolution

  /**
   * The direction whose jumped-over cell the source reads for a requested
   * hop, chosen by the signs of the row and column differences alone; a
   * request along the same row from an odd row reads nothing.
   */
  function Probe(r: int, c: int, r2: int, c2: int): Option<(int, int)>
  {
    if r2 < r then
      if c2 < c then Some((-1, -1)) else if r % 2 == 0 && c2 == c then Some((-2, 0)) else Some((-1, 1))
    else if r2 > r then
      if c2 < c then Some((1, -1)) else if r % 2 == 0 && c2 == c then Some((2, 0)) else Some((1, 1))
    else if r % 2 == 0 && c2 < c then Some((0, -2))
    else if r % 2 == 0 then Some((0, 2))
    else None
  }

  /**
   * The verdict on a requested hop: the probed cell must be on the board
   * (or the read fails), hold a green frog, and the destination must lie
   * twice as far along the same direction.
   */
  function Judge(g: Grid, r: int, c: int, r2: int, c2: int): (v: Check)
    ensures v.Accept? ==>
      Shape(r, v.d.0, v.d.1) && r2 == r + 2 * v.d.0 && c2 == c + 2 * v.d.1
      && OnBoard(g, r + v.d.0, c + v.d.1) && g[r + v.d.0][c + v.d.1] == 'G'
  {
    match Probe(r, c, r2, c2)
    case None => Reject
    case Some(d) =>
      if !OnBoard(g, r + d.0, c + d.1) then OffBoard
      else if g[r + d.0][c + d.1] == 'G' && r2 == r + 2 * d.0 && c2 == c + 2 * d.1 then Accept(d)
      else Reject
  }

  /**
   * The source's case analysis accepts exactly the hops in an allowed
   * direction over a green frog, and names that direction.
   */
  lemma JudgeMeaning(g: Grid, r: int, c: int, r2: int, c2: int)
    ensures Judge(g, r, c, r2, c2).Accept? <==>
      exists dr, dc :: Shape(r, dr, dc) && r2 == r + 2 * dr && c2 == c + 2 * dc
        && OnBoard(g, r + dr, c + dc) && g[r + dr][c + dc] == 'G'
    ensures Judge(g, r, c, r2, c2).Accept? ==>
      var d := Judge(g, r, c, r2, c2).d;
      Shape(r, d.0, d.1) && r2 == r + 2 * d.0 && c2 == c + 2 * d.1
  {
    var j := Judge(g, r, c, r2, c2);
    if j.Accept? {
      assert Probe(r, c, r2, c2) == Some(j.d);
      assert Shape(r, j.d.0, j.d.1);
    }
    if exists dr, dc :: Shape(r, dr, dc) && r2 == r + 2 * dr && c2 == c + 2 * dc
        && OnBoard(g, r + dr, c + dc) && g[r + dr][c + dc] == 'G' {
      var dr, dc :| Shape(r, dr, dc) && r2 == r + 2 * dr && c2 == c + 2 * dc
        && OnBoard(g, r + dr, c + dc) && g[r + dr][c + dc] == 'G';
      assert Probe(r, c, r2, c2) == Some((dr, dc));
    }
  }

  /**
   * A hop the game accepts onto an empty pad is one of the hops the solver
   * explores from that cell, and it makes the same board.
   */
  lemma AcceptedHopIsNeighbor(g: Grid, r: int, c: int, r2: int, c2: int)
    requires OnBoard(g, r, c) && OnBoard(g, r2, c2) && g[r2][c2] == '.'
    requires Judge(g, r, c, r2, c2).Accept?
    ensures var d := Judge(g, r, c, r2, c2).d;
      CanJump(g, r, c, d.0, d.1) && Leap(g, r, c, d.0, d.1) in HopsAt(g, r, c)
  {
    var d := Judge(g, r, c, r2, c2).d;
    JudgeMeaning(g, r, c, r2, c2);
    HopsAtShapes(g, r, c);
    assert Shape(r, d.0, d.1) && CanJump(g, r, c, d.0, d.1);
  }

  /** The game: the current configuration and the selected cell, or `(-1, -1)` for none. */
  class HoppersModel {
    var currentConfig: HoppersConfig
    var currentRow: int
    var currentCol: int

    /** The selection is either empty or a cell of the board. */
    ghost predicate Valid()
      reads this
    {
      currentConfig.Valid()
      && ((currentRow == -1 && currentCol == -1)
          || (0 <= currentRow < currentConfig.row && 0 <= currentCol < currentConfig.col))
    }

    /** A game on `config` with nothing selected. */
    constructor (config: HoppersConfig)
      requires config.Valid()
      ensures Valid() && currentConfig == config && currentRow == -1 && currentCol == -1
    {
      currentConfig := config;
      currentRow, currentCol := -1, -1;
    }

    /**
     * Judges the hop from `(r, c)` to `(r2, c2)`; when it is accepted, the
     * jumped green frog leaves the board.
     */
    method ValidMove(r: int, c: int, r2: int, c2: int) returns (v: Check)
      requires currentConfig.Valid()
      modifies currentConfig.board
      ensures v == Judge(old(Cells(currentConfig.board)), r, c, r2, c2)
      ensures v.Accept? ==> OnBoard(old(Cells(currentConfig.board)), r + v.d.0, c + v.d.1)
      ensures Cells(currentConfig.board) ==
        if v.Accept? then Set(old(Cells(currentConfig.board)), r + v.d.0, c + v.d.1, '.')
        else old(Cells(currentConfig.board))
    {
      var board := currentConfig.board;
      ghost var g := Cells(board);
      CellsIndex(board);
      var dr, dc;
      if r2 - r < 0 {
        if c2 - c < 0 {
          dr, dc := -1, -1;
        } else if r % 2 == 0 && c2 - c == 0 {
          dr, dc := -2, 0;
        } else {
          dr, dc := -1, 1;
        }
      } else if r2 - r > 0 {
        if c2 - c < 0 {
          dr, dc := 1, -1;
        } else if r % 2 == 0 && c2 - c == 0 {
          dr, dc := 2, 0;
        } else {
          dr, dc := 1, 1;
        }
      } else if r % 2 == 0 && c2 - c < 0 {
        dr, dc := 0, -2;
      } else if r % 2 == 0 {
        dr, dc := 0, 2;
      } else {
        return Reject;
      }
      if !(0 <= r + dr < board.Length0 && 0 <= c + dc < board.Length1) {
        return OffBoard;
      }
      if board[r + dr, c + dc] == 'G' && r2 == r + 2 * dr && c2 == c + 2 * dc {
        board[r + dr, c + dc] := '.';
        SetCells(g, r + dr, c + dc, '.');
        CellsAre(board, Set(g, r + dr, c + dc, '.'));
        return Accept((dr, dc));
      }
      return Reject;
    }

    /**
     * The second click: moves the selected frog on `(r, c)` to `(r2, c2)`
     * when that pad is on the board and empty and the hop is valid.
     */
    method SecondSelect(r: int, c: int, r2: int, c2: int) returns (reply: Reply)
      requires currentConfig.Valid() && 0 <= r < currentConfig.row && 0 <= c < currentConfig.col
      modifies currentConfig.board
      ensures var g := old(Cells(currentConfig.board));
        if OnBoard(g, r2, c2) && g[r2][c2] == '.' && Judge(g, r, c, r2, c2).Accept? then
          var d := Judge(g, r, c, r2, c2).d;
          reply == Hopped(r, c, r2, c2) && CanJump(g, r, c, d.0, d.1) && Cells(currentConfig.board) == Leap(g, r, c, d.0, d.1)
        else if OnBoard(g, r2, c2) && g[r2][c2] == '.' && Judge(g, r, c, r2, c2).OffBoard? then
          reply == IndexError && Cells(currentConfig.board) == g
        else
          reply == CantJump(r, c, r2, c2) && Cells(currentConfig.board) == g
    {
      var board := currentConfig.board;
      ghost var g := Cells(board);
      CellsIndex(board);
      if 0 <= r2 < currentConfig.row && 0 <= c2 < currentConfig.col && board[r2, c2] == '.' {
        assert g[r2][c2] == '.';
        var v := ValidMove(r, c, r2, c2);
        if v.Accept? {
          JudgeMeaning(g, r, c, r2, c2);
          assert CanJump(g, r, c, v.d.0, v.d.1);
          MoveFrog(g, r, c, r2, c2, v.d);
          return Hopped(r, c, r2, c2);
        } else if v.OffBoard? {
          return IndexError;
        }
      }
      return CantJump(r, c, r2, c2);
    }

    /**
     * Moves the frog from `(r, c)` to `(r2, c2)` once the jumped cell in
     * direction `d` has been emptied: the move completes the hop.
     */
    method MoveFrog(ghost g: Grid, r: int, c: int, r2: int, c2: int, d: (int, int))
      requires currentConfig.Valid() && OnBoard(g, r, c) && CanJump(g, r, c, d.0, d.1)
      requires r2 == r + 2 * d.0 && c2 == c + 2 * d.1 && Cells(currentConfig.board) == Set(g, r + d.0, c + d.1, '.')
      modifies currentConfig.board
      ensures Cells(currentConfig.board) == Leap(g, r, c, d.0, d.1)
    {
      var board := currentConfig.board;
      CellsIndex(board);
      SetCells(g, r + d.0, c + d.1, '.');
      var temp := board[r, c];
      board[r, c] := '.';
      board[r2, c2] := temp;
      LeapCells(g, r, c, d.0, d.1);
      CellsAre(board, Leap(g, r, c, d.0, d.1));
    }

    /**
     * A click on `(r, c)`. With nothing selected, a frog is selected and
     * any other cell of the board is refused; a click off the board does
     * nothing. With a frog selected, the click names the landing pad and
     * the selection is cleared, unless the hop check fails on a read off
     * the board, which aborts the click and keeps the selection.
     */
    method Select(r: int, c: int) returns (reply: Reply)
      requires Valid()
      modifies this, currentConfig.board
      ensures Valid() && currentConfig == old(currentConfig)
      ensures var g := old(Cells(currentConfig.board));
        if old(currentRow) < 0 && old(currentCol) < 0 then
          Cells(currentConfig.board) == g
          && if !OnBoard(g, r, c) then reply == Ignored && currentRow == -1 && currentCol == -1
             else if g[r][c] == 'G' || g[r][c] == 'R' then reply == Selected(r, c) && currentRow == r && currentCol == c
             else reply == InvalidSelection(r, c) && currentRow == -1 && currentCol == -1
        else
          var r1, c1 := old(currentRow), old(currentCol);
          var landing := OnBoard(g, r, c) && g[r][c] == '.';
          if landing && Judge(g, r1, c1, r, c).Accept? then
            var d := Judge(g, r1, c1, r, c).d;
            reply == Hopped(r1, c1, r, c) && CanJump(g, r1, c1, d.0, d.1)
            && Cells(currentConfig.board) == Leap(g, r1, c1, d.0, d.1)
            && currentRow == -1 && currentCol == -1
          else if landing && Judge(g, r1, c1, r, c).OffBoard? then
            reply == IndexError && Cells(currentConfig.board) == g && currentRow == r1 && currentCol == c1
          else
            reply == CantJump(r1, c1, r, c) && Cells(currentConfig.board) == g
            && currentRow == -1 && currentCol == -1
    {
      var board := currentConfig.board;
      CellsIndex(board);
      if currentRow < 0 && currentCol < 0 {
        if 0 <= r < currentConfig.row && 0 <= c < currentConfig.col {
          if board[r, c] == 'G' || board[r, c] == 'R' {
            currentRow, currentCol := r, c;
            reply := Selected(r, c);
          } else {
            reply := InvalidSelection(r, c);
          }
        } else {
          reply := Ignored;
        }
      } else {
        reply := SecondSelect(currentRow, currentCol, r, c);
        if reply == IndexError {
          return;
        }
        currentRow, currentCol := -1, -1;
      }
    }

    /**
     * The hint. `solution` is what the solver returns for the current
     * configuration: a shortest path of configurations to a goal, or none.
     * A solved board is left alone; otherwise the current configuration
     * becomes the second configuration of the path.
     */
    method Hint(solution: Option<seq<HoppersConfig>>) returns (reply: HintReply)
      requires Valid()
      requires solution.Some? && !Solved(Cells(currentConfig.board)) ==>
        |solution.value| >= 2 && solution.value[1].Valid()
        && solution.value[1].row == currentConfig.row && solution.value[1].col == currentConfig.col
      modifies this`currentConfig
      ensures Valid() && currentRow == old(currentRow) && currentCol == old(currentCol)
      ensures Solved(old(Cells(currentConfig.board))) ==> reply == AlreadySolved && currentConfig == old(currentConfig)
      ensures !Solved(old(Cells(currentConfig.board))) && solution.Some? ==>
        reply == HintGiven && currentConfig == solution.value[1]
      ensures !Solved(old(Cells(currentConfig.board))) && solution.None? ==>
        reply == NoSolution && currentConfig == old(currentConfig)
    {
      var goal := currentConfig.IsGoal();
      if goal {
        reply := AlreadySolved;
      } else if solution.Some? {
        currentConfig := solution.value[1];
        reply := HintGiven;
      } else {
        reply := NoSolution;
      }
    }
  }
}
