/**
  Cell addressing on the `width × width` wrap-around board.

  A cell is a natural number in `[0, width * width)` laid out row-major:
  `idx == row * width + col`. `NextCell` is the neighbour of a cell in one of
  the four directions, wrapping at every edge.
 */
module Grid {

  datatype Direction = Up | Down | Left | Right

  /** The direction that undoes a step in `d`. */
  function Opposite(d: Direction): Direction {
    match d
    case Up => Down
    case Down => Up
    case Left => Right
    case Right => Left
  }

  function Row(width: nat, idx: nat): nat
    requires 0 < width
  {
    idx / width
  }

  function Col(width: nat, idx: nat): nat
    requires 0 < width
  {
    idx % width
  }

  /** The cell at a row and column. */
  function CellAt(width: nat, row: nat, col: nat): nat {
    row * width + col
  }

  // ---------------------------------------------------------------------------
  // Arithmetic facts about row-major addressing
  // ---------------------------------------------------------------------------

  lemma MulMonotone(a: nat, b: nat, c: nat)
    requires a <= b
    ensures a * c <= b * c
  {
  }

  /** Every cell of the board splits into a row and a column, both below `width`. */
  lemma Decompose(width: nat, idx: nat)
    requires 0 < width && idx < width * width
    ensures Row(width, idx) < width && Col(width, idx) < width
    ensures idx == CellAt(width, Row(width, idx), Col(width, idx))
  {
    var q, m := idx / width, idx % width;
    assert idx == q * width + m;
    if q >= width {
      MulMonotone(width, q, width);
      assert false;
    }
  }

  /** A row and column below `width` name a cell of the board. */
  lemma CellAtInBoard(width: nat, row: nat, col: nat)
    requires row < width && col < width
    ensures CellAt(width, row, col) < width * width
    ensures row * width <= CellAt(width, row, col) < (row + 1) * width
  {
    MulMonotone(row + 1, width, width);
  }

  /** The row and column of `CellAt(width, row, col)` are `row` and `col`. */
  lemma CoordinatesOfCellAt(width: nat, row: nat, col: nat)
    requires 0 < width && col < width
    ensures Row(width, CellAt(width, row, col)) == row
    ensures Col(width, CellAt(width, row, col)) == col
  {
    var idx := CellAt(width, row, col);
    var q, m := idx / width, idx % width;
    assert q * width + m == row * width + col;
    if q > row {
      MulMonotone(row + 1, q, width);
      assert false;
    } else if q < row {
      MulMonotone(q + 1, row, width);
      assert false;
    }
  }

  /** Two cells with the same row and column are the same cell. */
  lemma CellDeterminedByCoordinates(width: nat, a: nat, b: nat)
    requires 0 < width
    requires Row(width, a) == Row(width, b) && Col(width, a) == Col(width, b)
    ensures a == b
  {
  }

  // ---------------------------------------------------------------------------
  // The neighbour of a cell
  // ---------------------------------------------------------------------------

  /** The linear facts about the four borders that keep `NextCell` on the board. */
  lemma BorderFacts(width: nat, idx: nat)
    requires 0 < width && idx < width * width
    ensures var size, row, col := width * width, idx / width, idx % width;
            && width <= size
            && (idx != col ==> width <= idx)
            && (idx != size - width + col ==> idx + width < size)
            && row * width + width <= size
            && (idx + 1 != (row + 1) * width ==> idx + 1 < size)
            && (row + 1) * width - width == row * width
  {
    Decompose(width, idx);
    var size, row, col := width * width, idx / width, idx % width;
    CellAtInBoard(width, row, col);
    MulMonotone(1, width, width);
    assert size - width == (width - 1) * width;
    if idx != col {
      assert row != 0;
      MulMonotone(1, row, width);
    }
    if idx != size - width + col {
      assert row < width - 1;
      MulMonotone(row + 1, width - 1, width);
    }
  }


  /**
    The cell reached from `idx` by one step in direction `d`. Each branch tests
    the same border the game does: the top row for Up, the bottom row for Down,
    the left column for Left and the right column for Right. Off the border the
    step is `∓ width` or `∓ 1`; on it the step wraps to the opposite edge.
    The Down wrap lands on `col`, the same column of the top row; the game's own
    expression for that case underflows (see `NextCellAsWritten`).
   */
  function NextCell(width: nat, idx: nat, d: Direction): (r: nat)
    requires 0 < width && idx < width * width
    ensures r < width * width
  {
    BorderFacts(width, idx);
    var size := width * width;
    var row := idx / width;
    var col := idx % width;
    match d
    case Up =>
      var border := col;
      if idx == border then size - width + border else idx - width
    case Down =>
      var border := size - width + col;
      if idx == border then col else idx + width
    case Left =>
      var border := row * width;
      if idx == border then border + width - 1 else idx - 1
    case Right =>
      var border := (row + 1) * width;
      if idx + 1 == border then border - width else idx + 1
  }

  /**
    The neighbour on the torus, in coordinates: the reference `NextCell` is
    proved against. Up and Down move the row by one modulo `width` and keep the
    column; Left and Right move the column and keep the row.
   */
  function TorusStep(width: nat, row: nat, col: nat, d: Direction): (rc: (nat, nat))
    requires row < width && col < width
    ensures rc.0 < width && rc.1 < width
  {
    match d
    case Up => (if row == 0 then width - 1 else row - 1, col)
    case Down => (if row == width - 1 then 0 else row + 1, col)
    case Left => (row, if col == 0 then width - 1 else col - 1)
    case Right => (row, if col == width - 1 then 0 else col + 1)
  }

  /** `NextCell` is the torus step, written back as a row-major index. */
  lemma NextCellIsTorusStep(width: nat, idx: nat, d: Direction)
    requires 0 < width && idx < width * width
    ensures var rc := TorusStep(width, Row(width, idx), Col(width, idx), d);
            NextCell(width, idx, d) == CellAt(width, rc.0, rc.1)
  {
    Decompose(width, idx);
    var row, col := Row(width, idx), Col(width, idx);
    var size := width * width;
    assert size - width == (width - 1) * width;
    CellAtInBoard(width, row, col);
    match d
    case Up =>
      if row == 0 {
        assert idx == col;
      } else {
        assert idx != col by { MulMonotone(1, row, width); }
        assert idx - width == (row - 1) * width + col;
      }
    case Down =>
      if row == width - 1 {
        assert idx == size - width + col;
      } else {
        assert idx != size - width + col by { MulMonotone(row + 1, width - 1, width); }
        assert idx + width == (row + 1) * width + col;
      }
    case Left =>
    case Right =>
  }

  /** Up and Down keep the column; Left and Right keep the row. */
  lemma NextCellKeepsLine(width: nat, idx: nat, d: Direction)
    requires 0 < width && idx < width * width
    ensures d == Up || d == Down ==> Col(width, NextCell(width, idx, d)) == Col(width, idx)
    ensures d == Left || d == Right ==> Row(width, NextCell(width, idx, d)) == Row(width, idx)
  {
    Decompose(width, idx);
    NextCellIsTorusStep(width, idx, d);
    var rc := TorusStep(width, Row(width, idx), Col(width, idx), d);
    CoordinatesOfCellAt(width, rc.0, rc.1);
  }

  /** The coordinates of the neighbour are the torus step of the coordinates. */
  lemma CoordinatesOfNextCell(width: nat, idx: nat, d: Direction)
    requires 0 < width && idx < width * width
    ensures var rc := TorusStep(width, Row(width, idx), Col(width, idx), d);
            Row(width, NextCell(width, idx, d)) == rc.0 && Col(width, NextCell(width, idx, d)) == rc.1
  {
    Decompose(width, idx);
    NextCellIsTorusStep(width, idx, d);
    var rc := TorusStep(width, Row(width, idx), Col(width, idx), d);
    CoordinatesOfCellAt(width, rc.0, rc.1);
  }

  /**
    Away from the border a vertical step moves by exactly `width` and a
    horizontal step by exactly one.
   */
  lemma NextCellOffBorder(width: nat, idx: nat)
    requires 0 < width && idx < width * width
    ensures Row(width, idx) > 0 ==> NextCell(width, idx, Up) == idx - width
    ensures Row(width, idx) < width - 1 ==> NextCell(width, idx, Down) == idx + width
    ensures Col(width, idx) > 0 ==> NextCell(width, idx, Left) == idx - 1
    ensures Col(width, idx) < width - 1 ==> NextCell(width, idx, Right) == idx + 1
  {
    Decompose(width, idx);
    NextCellIsTorusStep(width, idx, Up);
    NextCellIsTorusStep(width, idx, Down);
    NextCellIsTorusStep(width, idx, Left);
    NextCellIsTorusStep(width, idx, Right);
    var row, col := Row(width, idx), Col(width, idx);
    if row > 0 {
      assert CellAt(width, row - 1, col) == idx - width;
    }
    if row < width - 1 {
      assert CellAt(width, row + 1, col) == idx + width;
    }
  }

  /** Stepping in a direction and then in the opposite one returns to the start. */
  lemma NextCellRoundTrip(width: nat, idx: nat, d: Direction)
    requires 0 < width && idx < width * width
    ensures NextCell(width, NextCell(width, idx, d), Opposite(d)) == idx
  {
    var n := NextCell(width, idx, d);
    var back := NextCell(width, n, Opposite(d));
    Decompose(width, idx);
    CoordinatesOfNextCell(width, idx, d);
    CoordinatesOfNextCell(width, n, Opposite(d));
    CellDeterminedByCoordinates(width, back, idx);
  }

  /**
    On a board at least three cells wide, two steps in the same direction never
    come back to the start (on narrower boards they can).
   */
  lemma TwoStepsDoNotReturn(width: nat, idx: nat, d: Direction)
    requires 3 <= width && idx < width * width
    ensures NextCell(width, NextCell(width, idx, d), d) != idx
  {
    var n := NextCell(width, idx, d);
    var nn := NextCell(width, n, d);
    Decompose(width, idx);
    CoordinatesOfNextCell(width, idx, d);
    CoordinatesOfNextCell(width, n, d);
  }

  // ---------------------------------------------------------------------------
  // The neighbour as the game computes it
  // ---------------------------------------------------------------------------

  /**
    The neighbour exactly as the game's expressions compute it, in unbounded
    integers: a negative result is a machine-word subtraction that underflows.
   */
  function NextCellAsWritten(width: nat, idx: nat, d: Direction): int
    requires 0 < width && idx < width * width
  {
    var size := width * width;
    var row := idx / width;
    var col := idx % width;
    match d
    case Up =>
      var border := col;
      if idx == border then size - width + border else idx - width
    case Down =>
      var border := size - width + col;
      if idx == border then border - width * (row + 1) else idx + width
    case Left =>
      var border := row * width;
      if idx == border then border + width - 1 else idx - 1
    case Right =>
      var border := (row + 1) * width;
      if idx + 1 == border then border - width else idx + 1
  }

  /**
    On the bottom row the game's Down wrap evaluates to `col - width`, which is
    below zero for every column: the subtraction underflows instead of
    wrapping to the top row.
   */
  lemma DownWrapUnderflows(width: nat, col: nat)
    requires col < width
    ensures var idx := CellAt(width, width - 1, col);
            idx < width * width && NextCellAsWritten(width, idx, Down) == col - width < 0
  {
    var idx := CellAt(width, width - 1, col);
    CellAtInBoard(width, width - 1, col);
    CoordinatesOfCellAt(width, width - 1, col);
    assert width * width - width == (width - 1) * width;
    assert width * (width - 1 + 1) == width * width;
  }

  /** On an 8-wide board the head on cell 4 of the top row wraps Up to cell 60. */
  lemma UpWrapOnEightWideBoard()
    ensures NextCell(8, 4, Up) == 60
    ensures NextCell(8, 60, Up) == 52 && NextCell(8, 60, Right) == 61
  {
  }

  /** The smallest instance: an 8-wide board, head on cell 60, moving Down. */
  lemma DownWrapUnderflowsOnEightWideBoard()
    ensures NextCellAsWritten(8, 60, Down) == -4
    ensures NextCell(8, 60, Down) == 4
  {
    DownWrapUnderflows(8, 4);
  }

  /**
    Everywhere except the Down wrap the game's expressions agree with
    `NextCell`; on the Down wrap they fall short of it by exactly `width`.
   */
  lemma AsWrittenAgreesOffTheDownWrap(width: nat, idx: nat, d: Direction)
    requires 0 < width && idx < width * width
    ensures !(d == Down && Row(width, idx) == width - 1) ==>
              NextCellAsWritten(width, idx, d) == NextCell(width, idx, d)
    ensures d == Down && Row(width, idx) == width - 1 ==>
              NextCellAsWritten(width, idx, d) == NextCell(width, idx, d) - width
  {
    Decompose(width, idx);
    var row, col := Row(width, idx), Col(width, idx);
    if d == Down {
      var size := width * width;
      assert size - width == (width - 1) * width;
      if row == width - 1 {
        DownWrapUnderflows(width, col);
      } else {
        assert idx != size - width + col by {
          CellAtInBoard(width, row, col);
          MulMonotone(row + 1, width - 1, width);
        }
      }
    }
  }
}
