/** A numbered tile on a 2048 board. Its value and position never change;
    moving or merging makes a new tile and records it as the successor. */
module Game2048Tile {

  function Max(a: int, b: int): int { if a >= b then a else b }
  function Dist(a: int, b: int): nat { if a >= b then a - b else b - a }

  class Tile {
    const value: int
    const col: int
    const row: int
    /** The tile this one was moved or merged into, if any. */
    var next: Tile?

    /** The private constructor: a tile with no successor. */
    constructor (value: int, col: int, row: int)
      ensures this.value == value && this.col == col && this.row == row && next == null
    {
      this.value := value;
      this.col := col;
      this.row := row;
      next := null;
    }

    /** My next state: myself until I am moved or merged. */
    function Next(): (t: Tile)
      reads this
      ensures next == null ==> t == this
      ensures next != null ==> t == next
    {
      if next == null then this else next
    }

    /** move: a same-valued tile at (col, row) that becomes my successor. */
    method Move(col: int, row: int) returns (result: Tile)
      modifies this
      ensures fresh(result) && result.next == null
      ensures result.value == value && result.col == col && result.row == row
      ensures next == result && Next() == result
    {
      result := new Tile(value, col, row);
      next := result;
    }

    /** merge: a tile of twice my value at (col, row) that becomes the
        successor of both me and the tile I merge with. */
    method Merge(col: int, row: int, otherTile: Tile) returns (result: Tile)
      requires value == otherTile.value
      modifies this, otherTile
      ensures fresh(result) && result.next == null
      ensures result.value == 2 * value && result.col == col && result.row == row
      ensures next == result && otherTile.next == result
    {
      result := new Tile(2 * value, col, row);
      otherTile.next := result;
      next := result;
    }

    /** How far I travelled to my successor, in rows or columns. */
    function DistToNext(): (d: int)
      reads this
      ensures next == null ==> d == 0
      ensures next != null ==> d >= Dist(row, next.row) && d >= Dist(col, next.col)
      ensures next != null ==> d == Dist(row, next.row) || d == Dist(col, next.col)
    {
      if next == null then 0
      else Max(Dist(row, next.row), Dist(col, next.col))
    }
  }

  /** create: a new tile at (col, row) that is its own successor. */
  method Create(value: int, col: int, row: int) returns (t: Tile)
    ensures fresh(t) && t.value == value && t.col == col && t.row == row
    ensures t.Next() == t
  {
    t := new Tile(value, col, row);
  }
}
