/**
 * A configuration of the Traffic Jam puzzle: a board of cell names, where a
 * cell holds the name of the car covering it or "." when it is free, and the
 * map from car names to cars that the board is painted from.
 *
 * The board is a function of the car map: `CellOf` says what a cell shows.
 * Neighbours, moves and the goal test are specified on the car map, and the
 * methods are proved to read and paint the board consistently with it.
 */
module JamBoards {
  import opened JamCars

  type Cars = map<string, JamCar>

  /** The cells the source paints for a car: its start cell, then along its row or its column up to its end. */
  predicate Covers(car: JamCar, i: int, j: int)
  {
    (i == car.startRow && j == car.startCol)
    || (car.isHorizontal && i == car.startRow && car.startCol < j <= car.endCol)
    || (!car.isHorizontal && j == car.startCol && car.startRow < i <= car.endRow)
  }

  /** A car lies inside a `rows` by `cols` board, start before end, along a single row or column. */
  ghost predicate Placed(car: JamCar, rows: int, cols: int)
  {
    0 <= car.startRow <= car.endRow < rows && 0 <= car.startCol <= car.endCol < cols
    && (car.isHorizontal ==> car.startRow == car.endRow)
    && (!car.isHorizontal ==> car.startCol == car.endCol)
  }

  /** No cell is covered by two cars. */
  ghost predicate Disjoint(cars: Cars)
  {
    forall k1, k2, i, j :: k1 in cars && k2 in cars && Covers(cars[k1], i, j) && Covers(cars[k2], i, j) ==> k1 == k2
  }

  /** Every car is filed under its own name, which is not the free mark, and lies on the board; no two cars overlap. */
  ghost predicate WellPlaced(cars: Cars, rows: int, cols: int)
  {
    (forall k :: k in cars ==> k != "." && cars[k].name == k && Placed(cars[k], rows, cols))
    && Disjoint(cars)
  }

  /** What a cell shows: the name of a car covering it, or "." when none does. */
  ghost function CellOf(cars: Cars, i: int, j: int): string
  {
    if exists k :: k in cars && Covers(cars[k], i, j) then
      var k :| k in cars && Covers(cars[k], i, j); k
    else
      "."
  }

  lemma CellOfCar(cars: Cars, k: string, i: int, j: int)
    requires Disjoint(cars) && k in cars && Covers(cars[k], i, j)
    ensures CellOf(cars, i, j) == k
  {
  }

  /** On a well-placed board a cell shows a car's name exactly when that car covers it, and "." exactly when no car does. */
  lemma CellOfMeaning(cars: Cars, rows: int, cols: int, i: int, j: int)
    requires WellPlaced(cars, rows, cols)
    ensures CellOf(cars, i, j) == "." <==> forall k :: k in cars ==> !Covers(cars[k], i, j)
    ensures CellOf(cars, i, j) == "." || CellOf(cars, i, j) in cars
    ensures forall k :: k in cars ==> (CellOf(cars, i, j) == k <==> Covers(cars[k], i, j))
  {
    forall k | k in cars && Covers(cars[k], i, j)
      ensures CellOf(cars, i, j) == k
    {
      CellOfCar(cars, k, i, j);
    }
  }

  /** `CellOfMeaning` for any map: its conclusions hold whenever the map is well placed. */
  lemma CellOfMeaningWhen(cars: Cars, rows: int, cols: int, i: int, j: int)
    ensures WellPlaced(cars, rows, cols) ==>
      (CellOf(cars, i, j) == "." <==> forall k :: k in cars ==> !Covers(cars[k], i, j))
      && (forall k :: k in cars ==> (CellOf(cars, i, j) == k <==> Covers(cars[k], i, j)))
  {
    if WellPlaced(cars, rows, cols) {
      CellOfMeaning(cars, rows, cols, i, j);
    }
  }

  /** Adding a car that overlaps no other changes exactly the cells it covers, which then show its name. */
  lemma CellOfAdd(cars: Cars, k: string, car: JamCar, i: int, j: int)
    requires k !in cars && Disjoint(cars[k := car])
    ensures CellOf(cars[k := car], i, j) == if Covers(car, i, j) then k else CellOf(cars, i, j)
  {
    var more := cars[k := car];
    if Covers(car, i, j) {
      CellOfCar(more, k, i, j);
    } else if exists k' :: k' in cars && Covers(cars[k'], i, j) {
      var k' :| k' in cars && Covers(cars[k'], i, j);
      assert Disjoint(cars) by {
        forall k1, k2, i', j' | k1 in cars && k2 in cars && Covers(cars[k1], i', j') && Covers(cars[k2], i', j')
          ensures k1 == k2
        {
          assert more[k1] == cars[k1] && more[k2] == cars[k2];
        }
      }
      CellOfCar(cars, k', i, j);
      assert more[k'] == cars[k'];
      CellOfCar(more, k', i, j);
    } else {
      assert !exists k' :: k' in more && Covers(more[k'], i, j) by {
        forall k' | k' in more
          ensures !Covers(more[k'], i, j)
        {
          if k' != k {
            assert more[k'] == cars[k'];
          }
        }
      }
    }
  }

  /** A part of a car map without overlaps has none. */
  lemma SubDisjoint(cars: Cars, part: Cars)
    requires Disjoint(cars)
    requires forall k :: k in part ==> k in cars && part[k] == cars[k]
    ensures Disjoint(part)
  {
  }

  /** A direction a car can slide in. */
  datatype Dir = Left | Right | Up | Down

  /** The directions the source tries for a car: along its row, or along its column. */
  function Directions(car: JamCar): (ds: seq<Dir>)
  {
    if car.isHorizontal then [Left, Right] else [Up, Down]
  }

  /** The car slid one cell in the direction. */
  function Slide(car: JamCar, d: Dir): JamCar
  {
    match d
    case Left => MoveHorizontally(car, -1)
    case Right => MoveHorizontally(car, 1)
    case Up => MoveVertically(car, -1)
    case Down => MoveVertically(car, 1)
  }

  /** The cell a car enters when it slides in the direction, which is the cell the source reads before the slide. */
  function Entered(car: JamCar, d: Dir): (int, int)
  {
    match d
    case Left => (car.startRow, car.startCol - 1)
    case Right => (car.startRow, car.endCol + 1)
    case Up => (car.startRow - 1, car.startCol)
    case Down => (car.endRow + 1, car.startCol)
  }

  /** The source's test for a neighbour: the car is not at that edge and the cell it enters is free. */
  ghost predicate CanSlide(cars: Cars, rows: int, cols: int, car: JamCar, d: Dir)
  {
    var at := Entered(car, d);
    (match d
     case Left => car.startCol != 0
     case Right => car.endCol != cols - 1
     case Up => car.startRow != 0
     case Down => car.endRow != rows - 1)
    && CellOf(cars, at.0, at.1) == "."
  }

  /** The neighbours made by sliding the car filed under `k`, in the order the source tries the directions. */
  ghost function SlidesOf(cars: Cars, rows: int, cols: int, k: string): seq<Cars>
    requires k in cars
  {
    var car := cars[k];
    var ds := Directions(car);
    (if CanSlide(cars, rows, cols, car, ds[0]) then [cars[k := Slide(car, ds[0])]] else [])
    + (if CanSlide(cars, rows, cols, car, ds[1]) then [cars[k := Slide(car, ds[1])]] else [])
  }

  /** The neighbours of a configuration when its cars are visited in the given order. */
  ghost function SlidesAlong(cars: Cars, rows: int, cols: int, order: seq<string>): seq<Cars>
    requires forall k :: k in order ==> k in cars
  {
    if order == [] then []
    else SlidesAlong(cars, rows, cols, order[..|order| - 1]) + SlidesOf(cars, rows, cols, order[|order| - 1])
  }

  /** `m` is the configuration with the car filed under `k` slid one cell in one of its directions, where the source allows it. */
  ghost predicate IsSlideOf(cars: Cars, rows: int, cols: int, k: string, m: Cars)
    requires k in cars
  {
    exists d :: d in Directions(cars[k]) && CanSlide(cars, rows, cols, cars[k], d) && m == cars[k := Slide(cars[k], d)]
  }

  lemma SlidesOfMembers(cars: Cars, rows: int, cols: int, k: string, m: Cars)
    requires k in cars
    ensures m in SlidesOf(cars, rows, cols, k) <==> IsSlideOf(cars, rows, cols, k, m)
  {
    var ds := Directions(cars[k]);
    assert forall d :: d in ds <==> d == ds[0] || d == ds[1];
    if m in SlidesOf(cars, rows, cols, k) {
      if CanSlide(cars, rows, cols, cars[k], ds[0]) && m == cars[k := Slide(cars[k], ds[0])] {
        assert ds[0] in ds;
      } else {
        assert ds[1] in ds;
      }
    }
  }

  /**
   * A neighbour is the configuration with exactly one car, one of the
   * visited ones, slid one cell in one of its directions where the source
   * allows it; and every such slide is a neighbour.
   */
  lemma {:induction false} SlidesAlongMembers(cars: Cars, rows: int, cols: int, order: seq<string>, m: Cars)
    requires forall k :: k in order ==> k in cars
    ensures m in SlidesAlong(cars, rows, cols, order) <==> exists k :: k in order && IsSlideOf(cars, rows, cols, k, m)
  {
    if order != [] {
      var front := order[..|order| - 1];
      var last := order[|order| - 1];
      assert order == front + [last];
      SlidesAlongMembers(cars, rows, cols, front, m);
      SlidesOfMembers(cars, rows, cols, last, m);
    }
  }

  /** Every car gives at most two neighbours. */
  lemma {:induction false} SlidesAlongCount(cars: Cars, rows: int, cols: int, order: seq<string>)
    requires forall k :: k in order ==> k in cars
    ensures |SlidesAlong(cars, rows, cols, order)| <= 2 * |order|
  {
    if order != [] {
      SlidesAlongCount(cars, rows, cols, order[..|order| - 1]);
    }
  }

  /** The set of neighbours does not depend on the order in which the cars are visited. */
  lemma SlidesOrderFree(cars: Cars, rows: int, cols: int, order1: seq<string>, order2: seq<string>)
    requires forall k :: k in order1 ==> k in cars
    requires forall k :: k in order1 <==> k in order2
    ensures forall m :: m in SlidesAlong(cars, rows, cols, order1) <==> m in SlidesAlong(cars, rows, cols, order2)
  {
    forall m
      ensures m in SlidesAlong(cars, rows, cols, order1) <==> m in SlidesAlong(cars, rows, cols, order2)
    {
      SlidesAlongMembers(cars, rows, cols, order1, m);
      SlidesAlongMembers(cars, rows, cols, order2, m);
    }
  }

  /** A slid car covers only cells it covered before and the cell it entered. */
  lemma SlideCovers(car: JamCar, rows: int, cols: int, d: Dir, i: int, j: int)
    requires Placed(car, rows, cols) && d in Directions(car)
    ensures Covers(Slide(car, d), i, j) ==> Covers(car, i, j) || (i, j) == Entered(car, d)
  {
  }

  /** A slide the source allows keeps every car on the board and no two overlapping. */
  lemma SlideKeepsWellPlaced(cars: Cars, rows: int, cols: int, k: string, d: Dir)
    requires WellPlaced(cars, rows, cols) && k in cars && d in Directions(cars[k])
    requires CanSlide(cars, rows, cols, cars[k], d)
    ensures WellPlaced(cars[k := Slide(cars[k], d)], rows, cols)
  {
    var car := cars[k];
    var moved := cars[k := Slide(car, d)];
    var at := Entered(car, d);
    CellOfMeaning(cars, rows, cols, at.0, at.1);
    forall k1, k2, i, j | k1 in moved && k2 in moved && Covers(moved[k1], i, j) && Covers(moved[k2], i, j)
      ensures k1 == k2
    {
      if k1 == k && k2 != k {
        SlideCovers(car, rows, cols, d, i, j);
      } else if k2 == k && k1 != k {
        SlideCovers(car, rows, cols, d, i, j);
      }
    }
  }

  /** What a car selection answers: a car, a free cell, or a cell off the board. */
  datatype Occupancy = Yes | No | OutOfBounds

  /** What moving a car answers. */
  datatype MoveReply =
    | SelectionOffBoard               // the selected cell is not on the board
    | NoCar                           // the selected cell holds no car
    | Moved(name: string, dir: Dir)   // the car slid one cell
    | Blocked(name: string, dir: Dir) // the cell it would enter is taken
    | WrongSide(horizontal: bool)     // the target is not beyond either end of the car
    | WrongAxis(horizontal: bool)     // the target is not on the car's line
    | OffBoard                        // the cell it would enter is off the board

  /** Trying to slide the car filed under `name`: the reply and the cars afterwards. */
  ghost function Attempt(cars: Cars, rows: int, cols: int, name: string, d: Dir): (MoveReply, Cars)
    requires name in cars
  {
    var at := Entered(cars[name], d);
    if !(0 <= at.0 < rows && 0 <= at.1 < cols) then (OffBoard, cars)
    else if CellOf(cars, at.0, at.1) == "." then (Moved(name, d), cars[name := Slide(cars[name], d)])
    else (Blocked(name, d), cars)
  }

  /** Moving a car that lies along a row towards (endRow, endCol). */
  ghost function RowMove(cars: Cars, rows: int, cols: int, name: string, endRow: int, endCol: int): (MoveReply, Cars)
    requires name in cars
  {
    var car := cars[name];
    if car.startRow != endRow then (WrongAxis(true), cars)
    else if endCol > car.endCol then Attempt(cars, rows, cols, name, Right)
    else if endCol < car.startCol then Attempt(cars, rows, cols, name, Left)
    else (WrongSide(true), cars)
  }

  /** Moving a car that lies along a column towards (endRow, endCol). */
  ghost function ColumnMove(cars: Cars, rows: int, cols: int, name: string, endRow: int, endCol: int): (MoveReply, Cars)
    requires name in cars
  {
    var car := cars[name];
    if car.startCol != endCol then (WrongAxis(false), cars)
    else if endRow > car.endRow then Attempt(cars, rows, cols, name, Down)
    else if endRow < car.startRow then Attempt(cars, rows, cols, name, Up)
    else (WrongSide(false), cars)
  }

  /** Moving the car at (carRow, carCol) towards (endRow, endCol): the reply and the cars afterwards. */
  ghost function MoveOutcome(cars: Cars, rows: int, cols: int, carRow: int, carCol: int, endRow: int, endCol: int): (MoveReply, Cars)
  {
    if !(0 <= carRow < rows && 0 <= carCol < cols) then (SelectionOffBoard, cars)
    else
      var name := CellOf(cars, carRow, carCol);
      if name !in cars then (NoCar, cars)
      else if cars[name].isHorizontal then RowMove(cars, rows, cols, name, endRow, endCol)
      else ColumnMove(cars, rows, cols, name, endRow, endCol)
  }

  /** An attempt that succeeds is a slide the source allows, and keeps the cars well placed. */
  lemma AttemptIsSlide(cars: Cars, rows: int, cols: int, name: string, d: Dir)
    requires WellPlaced(cars, rows, cols) && name in cars && d in Directions(cars[name])
    ensures var (reply, after) := Attempt(cars, rows, cols, name, d);
      (reply.Moved? ==>
        reply.name == name && reply.dir == d && CanSlide(cars, rows, cols, cars[name], d)
        && after == cars[name := Slide(cars[name], d)]
        && WellPlaced(after, rows, cols))
      && (!reply.Moved? ==> after == cars)
  {
    assert Placed(cars[name], rows, cols);
    if Attempt(cars, rows, cols, name, d).0.Moved? {
      SlideKeepsWellPlaced(cars, rows, cols, name, d);
    }
  }

  /**
   * A move that succeeds yields one of the configuration's neighbours, still
   * well placed; any other reply leaves the cars as they were.
   */
  lemma MoveIsSlide(cars: Cars, rows: int, cols: int, carRow: int, carCol: int, endRow: int, endCol: int)
    requires WellPlaced(cars, rows, cols)
    ensures var (reply, after) := MoveOutcome(cars, rows, cols, carRow, carCol, endRow, endCol);
      (reply.Moved? ==>
        reply.name in cars && IsSlideOf(cars, rows, cols, reply.name, after)
        && after in SlidesOf(cars, rows, cols, reply.name)
        && WellPlaced(after, rows, cols))
      && (!reply.Moved? ==> after == cars)
  {
    if 0 <= carRow < rows && 0 <= carCol < cols {
      var name := CellOf(cars, carRow, carCol);
      if name in cars {
        var car := cars[name];
        var d := if car.isHorizontal then (if endCol > car.endCol then Right else Left)
          else (if endRow > car.endRow then Down else Up);
        assert d in Directions(car);
        AttemptIsSlide(cars, rows, cols, name, d);
        var (reply, after) := MoveOutcome(cars, rows, cols, carRow, carCol, endRow, endCol);
        if reply.Moved? {
          assert reply.dir == d;
          SlidesOfMembers(cars, rows, cols, name, after);
        }
      }
    }
  }

  /** Every neighbour can be reached by a move: select the car's start cell and aim at the cell it enters. */
  lemma SlideIsMove(cars: Cars, rows: int, cols: int, k: string, d: Dir)
    requires WellPlaced(cars, rows, cols) && k in cars && d in Directions(cars[k])
    requires CanSlide(cars, rows, cols, cars[k], d)
    ensures var car := cars[k]; var at := Entered(car, d);
      MoveOutcome(cars, rows, cols, car.startRow, car.startCol, at.0, at.1) == (Moved(k, d), cars[k := Slide(car, d)])
  {
    var car := cars[k];
    assert Covers(car, car.startRow, car.startCol);
    CellOfCar(cars, k, car.startRow, car.startCol);
  }

  /** The neighbours gathered so far, followed by those of the next car, are the neighbours along the longer order. */
  lemma GatherStep(cars: Cars, rows: int, cols: int, order: seq<string>, k: string, gathered: seq<JamConfig>, found: seq<JamConfig>)
    requires k in cars && forall k' :: k' in order ==> k' in cars
    requires Shows(gathered, SlidesAlong(cars, rows, cols, order), rows, cols)
    requires Shows(found, SlidesOf(cars, rows, cols, k), rows, cols)
    ensures Shows(gathered + found, SlidesAlong(cars, rows, cols, order + [k]), rows, cols)
  {
    assert (order + [k])[..|order|] == order;
    ShowsAppend(gathered, SlidesAlong(cars, rows, cols, order), found, SlidesOf(cars, rows, cols, k), rows, cols);
  }

  /** Appending a new name keeps the names distinct. */
  lemma DistinctAppend(order: seq<string>, k: string)
    requires forall s, t :: 0 <= s < t < |order| ==> order[s] != order[t]
    requires k !in order
    ensures forall s, t :: 0 <= s < t < |order + [k]| ==> (order + [k])[s] != (order + [k])[t]
  {
  }

  /** Each of `configs` is a valid configuration on a `rows` by `cols` board with the matching car map. */
  ghost predicate Shows(configs: seq<JamConfig>, carMaps: seq<Cars>, rows: int, cols: int)
    reads set t | 0 <= t < |configs| :: configs[t]
    reads set t | 0 <= t < |configs| :: configs[t].board
  {
    |configs| == |carMaps|
    && forall t :: 0 <= t < |configs| ==>
      configs[t].cars == carMaps[t] && configs[t].board.Length0 == rows && configs[t].board.Length1 == cols
      && configs[t].Valid()
  }

  lemma ShowsAppend(a: seq<JamConfig>, ma: seq<Cars>, b: seq<JamConfig>, mb: seq<Cars>, rows: int, cols: int)
    requires Shows(a, ma, rows, cols) && Shows(b, mb, rows, cols)
    ensures Shows(a + b, ma + mb, rows, cols)
  {
    forall t | 0 <= t < |a + b|
      ensures (a + b)[t].cars == (ma + mb)[t]
    {
      if t >= |a| {
        assert (a + b)[t] == b[t - |a|];
      }
    }
  }

  /** A configuration of the puzzle: the board of cell names and the map of cars it is painted from. */
  class JamConfig {
    const board: array2<string>
    var cars: Cars

    /** Every cell of the board shows what the car map says. */
    ghost predicate Painted()
      reads this, board
    {
      forall i, j :: 0 <= i < board.Length0 && 0 <= j < board.Length1 ==> board[i, j] == CellOf(cars, i, j)
    }

    ghost predicate Valid()
      reads this, board
    {
      WellPlaced(cars, board.Length0, board.Length1) && Painted()
    }

    /** A copy with its own board, cell for cell the same, and each car filed again under its name. */
    constructor Copy(other: JamConfig)
      requires other.board.Length0 > 0
      requires forall k :: k in other.cars ==> other.cars[k].name == k
      ensures fresh(board) && board.Length0 == other.board.Length0 && board.Length1 == other.board.Length1
      ensures forall i, j :: 0 <= i < board.Length0 && 0 <= j < board.Length1 ==> board[i, j] == other.board[i, j]
      ensures cars == other.cars
    {
      board := new string[other.board.Length0, other.board.Length1];
      var source := other.cars;
      var filed := map k | k in source :: source[k].name := source[k];
      assert filed == source by {
        assert forall k :: k in source ==> source[k].name == k && k in filed;
      }
      cars := filed;
      new;
      for i := 0 to board.Length0
        invariant cars == other.cars
        invariant forall i', j :: 0 <= i' < i && 0 <= j < board.Length1 ==> board[i', j] == other.board[i', j]
      {
        for j := 0 to board.Length1
          invariant cars == other.cars
          invariant forall i', j' :: 0 <= i' < i && 0 <= j' < board.Length1 ==> board[i', j'] == other.board[i', j']
          invariant forall j' :: 0 <= j' < j ==> board[i, j'] == other.board[i, j']
        {
          board[i, j] := other.board[i, j];
        }
      }
    }

    /** Paints one car onto the board, leaving every cell it does not cover as it was. */
    method PaintCar(car: JamCar)
      requires Placed(car, board.Length0, board.Length1)
      modifies board
      ensures forall i, j :: 0 <= i < board.Length0 && 0 <= j < board.Length1 ==>
        board[i, j] == if Covers(car, i, j) then car.name else old(board[i, j])
    {
      board[car.startRow, car.startCol] := car.name;
      if car.isHorizontal {
        for c := car.startCol + 1 to car.endCol + 1
          invariant forall i, j :: 0 <= i < board.Length0 && 0 <= j < board.Length1 ==>
            board[i, j] == if (i == car.startRow && j == car.startCol) || (i == car.startRow && car.startCol < j < c)
              then car.name else old(board[i, j])
        {
          board[car.startRow, c] := car.name;
        }
      } else {
        for r := car.startRow + 1 to car.endRow + 1
          invariant forall i, j :: 0 <= i < board.Length0 && 0 <= j < board.Length1 ==>
            board[i, j] == if (i == car.startRow && j == car.startCol) || (j == car.startCol && car.startRow < i < r)
              then car.name else old(board[i, j])
        {
          board[r, car.startCol] := car.name;
        }
      }
    }

    /** Makes the board match the car map: every cell free, then every car painted, in any order. */
    method SetBoardFromMap()
      requires WellPlaced(cars, board.Length0, board.Length1)
      modifies board
      ensures Valid()
    {
      for i := 0 to board.Length0
        invariant forall i', j :: 0 <= i' < i && 0 <= j < board.Length1 ==> board[i', j] == "."
      {
        for j := 0 to board.Length1
          invariant forall i', j' :: 0 <= i' < i && 0 <= j' < board.Length1 ==> board[i', j'] == "."
          invariant forall j' :: 0 <= j' < j ==> board[i, j'] == "."
        {
          board[i, j] := ".";
        }
      }
      var left := cars.Keys;
      ghost var shown: Cars := map[];
      while left != {}
        invariant left <= cars.Keys
        invariant forall k :: k in shown <==> k in cars && k !in left
        invariant forall k :: k in shown ==> shown[k] == cars[k]
        invariant forall i, j :: 0 <= i < board.Length0 && 0 <= j < board.Length1 ==> board[i, j] == CellOf(shown, i, j)
        decreases |left|
      {
        var k :| k in left;
        var car := cars[k];
        PaintCar(car);
        SubDisjoint(cars, shown[k := car]);
        forall i, j | 0 <= i < board.Length0 && 0 <= j < board.Length1
          ensures board[i, j] == CellOf(shown[k := car], i, j)
        {
          CellOfAdd(shown, k, car, i, j);
        }
        shown := shown[k := car];
        left := left - {k};
      }
      assert shown == cars;
    }

    /**
     * The red car "X" has reached the rightmost column: on a consistent
     * board, exactly when the exit cell, the last cell of its row, shows it.
     */
    function IsGoal(): (b: bool)
      reads this, board
      requires "X" in cars
      ensures Valid() ==> (b <==> board[cars["X"].startRow, board.Length1 - 1] == "X")
    {
      CellOfMeaningWhen(cars, board.Length0, board.Length1, cars["X"].startRow, board.Length1 - 1);
      cars["X"].endCol == board.Length1 - 1
    }

    /**
     * Whether the cell holds a car, a free mark, or lies off the board. On a
     * consistent board a cell holds a car exactly when some car covers it.
     */
    function IsACar(row: int, col: int): (o: Occupancy)
      reads this, board
      ensures o == OutOfBounds <==> !(0 <= row < board.Length0 && 0 <= col < board.Length1)
      ensures Valid() ==> (o == Yes <==>
        0 <= row < board.Length0 && 0 <= col < board.Length1 && exists k :: k in cars && Covers(cars[k], row, col))
    {
      CellOfMeaningWhen(cars, board.Length0, board.Length1, row, col);
      if 0 <= row < board.Length0 && 0 <= col < board.Length1 then
        if board[row, col] in cars then Yes else No
      else OutOfBounds
    }

    /**
     * Cell-by-cell comparison of the boards over this board's cells. Two
     * consistent configurations on boards of one size are equal exactly when
     * every cell shows the same car, so configurations with the same cars
     * are equal.
     */
    function Equals(other: JamConfig): (b: bool)
      reads this, board, other, other.board
      requires board.Length0 <= other.board.Length0 && board.Length1 <= other.board.Length1
      ensures Valid() && other.Valid() && board.Length0 == other.board.Length0 && board.Length1 == other.board.Length1 ==>
        (b <==> forall i, j :: 0 <= i < board.Length0 && 0 <= j < board.Length1 ==>
           CellOf(cars, i, j) == CellOf(other.cars, i, j))
      ensures (Valid() && other.Valid() && board.Length0 == other.board.Length0 && board.Length1 == other.board.Length1
               && cars == other.cars) ==> b
    {
      forall i, j :: 0 <= i < board.Length0 && 0 <= j < board.Length1 ==> board[i, j] == other.board[i, j]
    }

    /** Builds the neighbour with the car filed under `k` slid in direction `d`. */
    method Neighbor(k: string, d: Dir) returns (n: JamConfig)
      requires Valid() && k in cars && d in Directions(cars[k])
      requires CanSlide(cars, board.Length0, board.Length1, cars[k], d)
      ensures fresh(n) && fresh(n.board)
      ensures Shows([n], [cars[k := Slide(cars[k], d)]], board.Length0, board.Length1)
    {
      assert Placed(cars[k], board.Length0, board.Length1);
      n := new JamConfig.Copy(this);
      n.cars := n.cars[k := Slide(cars[k], d)];
      SlideKeepsWellPlaced(cars, board.Length0, board.Length1, k, d);
      n.SetBoardFromMap();
    }

    /** The source's two tests for the car filed under `k`: left then right, or up then down. */
    method Slidable(k: string) returns (first: bool, second: bool)
      requires Painted() && k in cars && Placed(cars[k], board.Length0, board.Length1)
      ensures first == CanSlide(cars, board.Length0, board.Length1, cars[k], Directions(cars[k])[0])
      ensures second == CanSlide(cars, board.Length0, board.Length1, cars[k], Directions(cars[k])[1])
    {
      var car := cars[k];
      if car.isHorizontal {
        first := car.startCol != 0 && board[car.startRow, car.startCol - 1] == ".";
        second := car.endCol != board.Length1 - 1 && board[car.startRow, car.endCol + 1] == ".";
      } else {
        first := car.startRow != 0 && board[car.startRow - 1, car.startCol] == ".";
        second := car.endRow != board.Length0 - 1 && board[car.endRow + 1, car.startCol] == ".";
      }
    }

    /** The neighbours made by sliding the car filed under `k`, left then right, or up then down. */
    method NeighborsOf(k: string) returns (found: seq<JamConfig>)
      requires Valid() && k in cars
      ensures forall n | n in found :: fresh(n) && fresh(n.board)
      ensures Shows(found, SlidesOf(cars, board.Length0, board.Length1, k), board.Length0, board.Length1)
    {
      var ds := Directions(cars[k]);
      assert Placed(cars[k], board.Length0, board.Length1);
      var first, second := Slidable(k);
      found := [];
      if first {
        var n := Neighbor(k, ds[0]);
        found := [n];
      }
      if second {
        var n := Neighbor(k, ds[1]);
        ShowsAppend(found, if first then [cars[k := Slide(cars[k], ds[0])]] else [], [n], [cars[k := Slide(cars[k], ds[1])]], board.Length0, board.Length1);
        found := found + [n];
      }
    }

    /**
     * All neighbours: every car, in an order the map chooses, contributes the
     * configurations where it slid one cell. Nothing of this configuration changes.
     */
    method GetNeighbors() returns (neighbors: seq<JamConfig>, ghost order: seq<string>)
      requires Valid()
      ensures forall k :: k in order <==> k in cars
      ensures forall s, t :: 0 <= s < t < |order| ==> order[s] != order[t]
      ensures forall n | n in neighbors :: fresh(n) && fresh(n.board)
      ensures Shows(neighbors, SlidesAlong(cars, board.Length0, board.Length1, order), board.Length0, board.Length1)
    {
      neighbors := [];
      order := [];
      var left := cars.Keys;
      while left != {}
        invariant left <= cars.Keys
        invariant forall k :: k in order <==> k in cars && k !in left
        invariant forall s, t :: 0 <= s < t < |order| ==> order[s] != order[t]
        invariant forall n | n in neighbors :: fresh(n) && fresh(n.board)
        invariant Shows(neighbors, SlidesAlong(cars, board.Length0, board.Length1, order), board.Length0, board.Length1)
        decreases |left|
      {
        var k :| k in left;
        var found := NeighborsOf(k);
        GatherStep(cars, board.Length0, board.Length1, order, k, neighbors, found);
        DistinctAppend(order, k);
        neighbors := neighbors + found;
        order := order + [k];
        left := left - {k};
      }
    }

    /** Slides the car filed under `name` if the cell it enters, read at (r, c), is free. */
    method TrySlide(name: string, d: Dir, r: int, c: int) returns (reply: MoveReply)
      requires Valid() && name in cars && d in Directions(cars[name])
      requires (r, c) == Entered(cars[name], d) && 0 <= r < board.Length0 && 0 <= c < board.Length1
      modifies this, board
      ensures Valid()
      ensures (reply, cars) == Attempt(old(cars), board.Length0, board.Length1, name, d)
      ensures !reply.Moved? ==> unchanged(board)
    {
      if board[r, c] == "." {
        assert Placed(cars[name], board.Length0, board.Length1);
        assert CanSlide(cars, board.Length0, board.Length1, cars[name], d);
        SlideKeepsWellPlaced(cars, board.Length0, board.Length1, name, d);
        cars := cars[name := Slide(cars[name], d)];
        SetBoardFromMap();
        reply := Moved(name, d);
      } else {
        reply := Blocked(name, d);
      }
    }

    /** Moves a car lying along a row one cell towards (endRow, endCol). */
    method MoveInRow(name: string, endRow: int, endCol: int) returns (reply: MoveReply)
      requires Valid() && name in cars && cars[name].isHorizontal
      modifies this, board
      ensures Valid()
      ensures (reply, cars) == RowMove(old(cars), board.Length0, board.Length1, name, endRow, endCol)
      ensures !reply.Moved? ==> unchanged(board)
    {
      var car := cars[name];
      assert Placed(car, board.Length0, board.Length1);
      if car.startRow == endRow {
        if endCol > car.endCol {
          if car.endCol + 1 >= board.Length1 {
            return OffBoard;
          }
          reply := TrySlide(name, Right, car.startRow, car.endCol + 1);
        } else if endCol < car.startCol {
          if car.startCol - 1 < 0 {
            return OffBoard;
          }
          reply := TrySlide(name, Left, car.startRow, car.startCol - 1);
        } else {
          reply := WrongSide(true);
        }
      } else {
        reply := WrongAxis(true);
      }
    }

    /** Moves a car lying along column `carCol` one cell towards (endRow, endCol). */
    method MoveInColumn(name: string, carCol: int, endRow: int, endCol: int) returns (reply: MoveReply)
      requires Valid() && name in cars && !cars[name].isHorizontal && carCol == cars[name].startCol
      modifies this, board
      ensures Valid()
      ensures (reply, cars) == ColumnMove(old(cars), board.Length0, board.Length1, name, endRow, endCol)
      ensures !reply.Moved? ==> unchanged(board)
    {
      var car := cars[name];
      assert Placed(car, board.Length0, board.Length1);
      if car.startCol == endCol {
        if endRow > car.endRow {
          if car.endRow + 1 >= board.Length0 {
            return OffBoard;
          }
          reply := TrySlide(name, Down, car.endRow + 1, carCol);
        } else if endRow < car.startRow {
          if car.startRow - 1 < 0 {
            return OffBoard;
          }
          reply := TrySlide(name, Up, car.startRow - 1, carCol);
        } else {
          reply := WrongSide(false);
        }
      } else {
        reply := WrongAxis(false);
      }
    }

    /**
     * Moves the car at (carRow, carCol) one cell towards (endRow, endCol).
     * Every reply other than `Moved` leaves the configuration as it was.
     */
    method MoveCar(carRow: int, carCol: int, endRow: int, endCol: int) returns (reply: MoveReply)
      requires Valid()
      modifies this, board
      ensures Valid()
      ensures (reply, cars) == MoveOutcome(old(cars), board.Length0, board.Length1, carRow, carCol, endRow, endCol)
      ensures !reply.Moved? ==> cars == old(cars) && unchanged(board)
    {
      if !(0 <= carRow < board.Length0 && 0 <= carCol < board.Length1) {
        return SelectionOffBoard;
      }
      var name := board[carRow, carCol];
      if name !in cars {
        return NoCar;
      }
      CellOfMeaning(cars, board.Length0, board.Length1, carRow, carCol);
      if cars[name].isHorizontal {
        reply := MoveInRow(name, endRow, endCol);
      } else {
        reply := MoveInColumn(name, carCol, endRow, endCol);
      }
    }
  }
}
