/**
 * The Traffic Jam game as a player sees it: the current configuration and
 * the cell of a selected car, if any. The first selection picks a car, the
 * second moves it one cell towards the selected cell.
 */
module JamGame {
  import opened Solving
  import opened JamBoards

  /** What a selection answers. */
  datatype SelectReply =
    | Picked(row: int, col: int) // a car was selected
    | NotACar                    // the cell is free
    | OutsideBoard               // the cell is off the board
    | MoveTried(move: MoveReply) // the selected car was asked to move

  /** What a hint answers. */
  datatype HintReply = Unsolvable | NextStep | AlreadySolved | Silent

  class JamModel {
    var currentConfig: JamConfig
    var selectedRow: int
    var selectedCol: int

    ghost predicate Valid()
      reads this, currentConfig, currentConfig.board
    {
      currentConfig.Valid()
    }

    /** A game on the configuration, with nothing selected. */
    constructor (config: JamConfig)
      requires config.Valid()
      ensures Valid() && currentConfig == config && selectedRow == -1 && selectedCol == -1
    {
      currentConfig := config;
      selectedRow, selectedCol := -1, -1;
    }

    /**
     * With nothing selected, a cell holding a car becomes the selection and
     * any other cell changes nothing. With a car selected, that car is moved
     * one cell towards the cell, and the selection is cleared whatever the
     * move answers.
     */
    method Select(row: int, col: int) returns (reply: SelectReply)
      requires Valid()
      modifies this, currentConfig, currentConfig.board
      ensures Valid() && currentConfig == old(currentConfig)
      ensures old(selectedCol < 0 && selectedRow < 0) ==>
        var o := old(currentConfig.IsACar(row, col));
        currentConfig.cars == old(currentConfig.cars) && unchanged(currentConfig.board)
        && (o == Yes ==> reply == Picked(row, col) && selectedRow == row && selectedCol == col)
        && (o == No ==> reply == NotACar && selectedRow == old(selectedRow) && selectedCol == old(selectedCol))
        && (o == OutOfBounds ==> reply == OutsideBoard && selectedRow == old(selectedRow) && selectedCol == old(selectedCol))
      ensures !old(selectedCol < 0 && selectedRow < 0) ==>
        reply.MoveTried? && selectedRow == -1 && selectedCol == -1
        && (reply.move, currentConfig.cars) == MoveOutcome(old(currentConfig.cars),
          currentConfig.board.Length0, currentConfig.board.Length1, old(selectedRow), old(selectedCol), row, col)
    {
      if selectedCol < 0 && selectedRow < 0 {
        var o := currentConfig.IsACar(row, col);
        if o == Yes {
          selectedRow, selectedCol := row, col;
          reply := Picked(row, col);
        } else if o == No {
          reply := NotACar;
        } else {
          reply := OutsideBoard;
        }
      } else {
        var move := currentConfig.MoveCar(selectedRow, selectedCol, row, col);
        reply := MoveTried(move);
        selectedRow, selectedCol := -1, -1;
      }
    }

    /**
     * Takes one step along a shortest solution found from the current
     * configuration: no path leaves the game as it is, a path of two or more
     * configurations makes the second one current, and a path of one means
     * the puzzle is already solved.
     */
    method Hint(path: Option<seq<JamConfig>>) returns (reply: HintReply)
      requires Valid()
      requires path.Some? && |path.value| >= 2 ==> path.value[1].Valid()
      modifies this`currentConfig
      ensures Valid()
      ensures path.None? ==> reply == Unsolvable && currentConfig == old(currentConfig)
      ensures path.Some? && |path.value| >= 2 ==> reply == NextStep && currentConfig == path.value[1]
      ensures path.Some? && |path.value| == 1 ==> reply == AlreadySolved && currentConfig == old(currentConfig)
      ensures path.Some? && |path.value| == 0 ==> reply == Silent && currentConfig == old(currentConfig)
    {
      if path.None? {
        reply := Unsolvable;
      } else if |path.value| >= 2 {
        currentConfig := path.value[1];
        reply := NextStep;
      } else if |path.value| == 1 {
        reply := AlreadySolved;
      } else {
        reply := Silent;
      }
    }
  }
}
