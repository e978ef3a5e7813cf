/**
 * A car of the Traffic Jam puzzle: a name and the cells it spans, from its
 * start (head) to its end (rear), along one row or one column.
 */
module JamCars {
  /** A car as the six values the source keeps; cars are values, so a copy is the car itself. */
  datatype JamCar = JamCar(name: string, startRow: int, startCol: int, endRow: int, endCol: int, isHorizontal: bool)

  /** A new car: it lies along a row exactly when its start and end rows agree. */
  function NewCar(name: string, startRow: int, startCol: int, endRow: int, endCol: int): (car: JamCar)
    ensures car.isHorizontal <==> startRow == endRow
    ensures car.name == name && (car.startRow, car.startCol) == (startRow, startCol) && (car.endRow, car.endCol) == (endRow, endCol)
  {
    JamCar(name, startRow, startCol, endRow, endCol, startRow == endRow)
  }

  /** The car moved down by `amount` rows (up when negative). */
  function MoveVertically(car: JamCar, amount: int): (moved: JamCar)
  {
    car.(startRow := car.startRow + amount, endRow := car.endRow + amount)
  }

  /** The car moved right by `amount` columns (left when negative). */
  function MoveHorizontally(car: JamCar, amount: int): (moved: JamCar)
  {
    car.(startCol := car.startCol + amount, endCol := car.endCol + amount)
  }

  /** Field-by-field equality, as the source compares cars. */
  predicate Equals(a: JamCar, b: JamCar)
  {
    a.startRow == b.startRow && a.startCol == b.startCol && a.endRow == b.endRow && a.endCol == b.endCol
    && a.isHorizontal == b.isHorizontal && a.name == b.name
  }

  /** Two cars are equal by the source's comparison exactly when they are the same value. */
  lemma EqualsIsEquality(a: JamCar, b: JamCar)
    ensures Equals(a, b) <==> a == b
  {
  }

  /** The cells a car spans, counting both ends. */
  function Length(car: JamCar): int
  {
    if car.isHorizontal then car.endCol - car.startCol + 1 else car.endRow - car.startRow + 1
  }

  /**
   * A vertical move shifts both rows by the amount and nothing else: the
   * name, the columns, the orientation and the length stay.
   */
  lemma MoveVerticallyShifts(car: JamCar, amount: int)
    ensures var m := MoveVertically(car, amount);
      m.startRow == car.startRow + amount && m.endRow == car.endRow + amount
      && m.name == car.name && m.startCol == car.startCol && m.endCol == car.endCol
      && m.isHorizontal == car.isHorizontal
      && m.endRow - m.startRow == car.endRow - car.startRow && Length(m) == Length(car)
  {
  }

  /**
   * A horizontal move shifts both columns by the amount and nothing else:
   * the name, the rows, the orientation and the length stay.
   */
  lemma MoveHorizontallyShifts(car: JamCar, amount: int)
    ensures var m := MoveHorizontally(car, amount);
      m.startCol == car.startCol + amount && m.endCol == car.endCol + amount
      && m.name == car.name && m.startRow == car.startRow && m.endRow == car.endRow
      && m.isHorizontal == car.isHorizontal
      && m.endCol - m.startCol == car.endCol - car.startCol && Length(m) == Length(car)
  {
  }

  /** Moving there and back gives a car equal to the original. */
  lemma MoveRoundTrip(car: JamCar, amount: int)
    ensures Equals(MoveVertically(MoveVertically(car, amount), -amount), car)
    ensures Equals(MoveHorizontally(MoveHorizontally(car, amount), -amount), car)
  {
  }

  /** Moves along one axis add up. */
  lemma MovesCompose(car: JamCar, a: int, b: int)
    ensures MoveVertically(MoveVertically(car, a), b) == MoveVertically(car, a + b)
    ensures MoveHorizontally(MoveHorizontally(car, a), b) == MoveHorizontally(car, a + b)
  {
  }
}
