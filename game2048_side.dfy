/** The four sides of a 2048 board and the arithmetic that reorients a
    board so that any side is on top. Standard coordinates number columns
    and rows from the lower-left corner with NORTH on top. */
module Game2048Side {

  datatype Side = NORTH | EAST | SOUTH | WEST

  /** (COL0, ROW0): the lower-left corner of the reoriented board, in units
      of (size - 1); (DCOL, DROW): one step up on the reoriented board. */
  function Col0(s: Side): int {
    match s case NORTH => 0 case EAST => 0 case SOUTH => 1 case WEST => 1
  }
  function Row0(s: Side): int {
    match s case NORTH => 0 case EAST => 1 case SOUTH => 1 case WEST => 0
  }
  function DCol(s: Side): int {
    match s case NORTH => 0 case EAST => 1 case SOUTH => 0 case WEST => -1
  }
  function DRow(s: Side): int {
    match s case NORTH => 1 case EAST => 0 case SOUTH => -1 case WEST => 0
  }

  /** The side opposite s. */
  function Opposite(s: Side): (o: Side)
    ensures o != s
  {
    if s == NORTH then SOUTH
    else if s == SOUTH then NORTH
    else if s == EAST then WEST
    else EAST
  }

  /** opposite is an involution without a fixed point. */
  lemma OppositeInvolution(s: Side)
    ensures Opposite(Opposite(s)) == s && Opposite(s) != s
  {
  }

  /** The standard column of square (c, r) on a board of the given size
      viewed with s on top: a quarter turn per side, which is col as the
      orientation computes it from the lower-left corner (COL0, ROW0) and
      the step (DCOL, DROW). */
  function Col(s: Side, c: int, r: int, size: int): (col: int)
    ensures col == Col0(s) * (size - 1) + c * DRow(s) + r * DCol(s)
  {
    match s
    case NORTH => c
    case EAST => r
    case SOUTH => size - 1 - c
    case WEST => size - 1 - r
  }

  /** The standard row of square (c, r) viewed with s on top, likewise
      row as the orientation computes it. */
  function Row(s: Side, c: int, r: int, size: int): (row: int)
    ensures row == Row0(s) * (size - 1) - c * DCol(s) + r * DRow(s)
  {
    match s
    case NORTH => r
    case EAST => size - 1 - c
    case SOUTH => size - 1 - r
    case WEST => c
  }

  predicate OnBoard(c: int, r: int, size: int) {
    0 <= c < size && 0 <= r < size
  }

  /** The view square that s puts at standard square (x, y): the inverse
      of (Col, Row). */
  function ViewCol(s: Side, x: int, y: int, size: int): int {
    match s case NORTH => x case EAST => size - 1 - y case SOUTH => size - 1 - x case WEST => y
  }
  function ViewRow(s: Side, x: int, y: int, size: int): int {
    match s case NORTH => y case EAST => x case SOUTH => size - 1 - y case WEST => size - 1 - x
  }

  /** NORTH is the identity orientation. */
  lemma NorthIdentity(c: int, r: int, size: int)
    ensures Col(NORTH, c, r, size) == c && Row(NORTH, c, r, size) == r
  {
  }

  /** Every orientation maps the board onto itself, and ViewCol/ViewRow
      undo it: (c, r) |-> (Col, Row) is a bijection of the board. */
  lemma Reorients(s: Side, c: int, r: int, size: int)
    requires OnBoard(c, r, size)
    ensures OnBoard(Col(s, c, r, size), Row(s, c, r, size), size)
    ensures ViewCol(s, Col(s, c, r, size), Row(s, c, r, size), size) == c
    ensures ViewRow(s, Col(s, c, r, size), Row(s, c, r, size), size) == r
  {
  }

  lemma ReorientsBack(s: Side, x: int, y: int, size: int)
    requires OnBoard(x, y, size)
    ensures OnBoard(ViewCol(s, x, y, size), ViewRow(s, x, y, size), size)
    ensures Col(s, ViewCol(s, x, y, size), ViewRow(s, x, y, size), size) == x
    ensures Row(s, ViewCol(s, x, y, size), ViewRow(s, x, y, size), size) == y
  {
  }

  /** Distinct view squares are distinct standard squares. */
  lemma ReorientInjective(s: Side, c1: int, r1: int, c2: int, r2: int, size: int)
    requires Col(s, c1, r1, size) == Col(s, c2, r2, size)
    requires Row(s, c1, r1, size) == Row(s, c2, r2, size)
    ensures c1 == c2 && r1 == r2
  {
  }

  /** One step up on the reoriented board is the step (DCOL, DROW) in
      standard coordinates. */
  lemma StepUp(s: Side, c: int, r: int, size: int)
    ensures Col(s, c, r + 1, size) == Col(s, c, r, size) + DCol(s)
    ensures Row(s, c, r + 1, size) == Row(s, c, r, size) + DRow(s)
  {
  }
}
