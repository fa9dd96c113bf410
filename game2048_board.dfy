/** The 2048 board: a square grid of tiles in standard coordinates, read
    and written through a viewing perspective that can put any side on top. */
module Game2048Board {
  import opened Game2048Side
  import opened Game2048Tile
  import opened Game2048Rules

  /** The value on a square: 0 stands for an empty one. */
  function ValueOf(t: Tile?): int {
    if t == null then 0 else t.value
  }

  /** g with square (x, y) set to v. */
  function SetCell(g: seq<seq<int>>, x: int, y: int, v: int): (h: seq<seq<int>>)
    requires IsGrid(g) && OnBoard(x, y, |g|)
    ensures IsGrid(h) && |h| == |g|
    ensures forall i, j :: OnBoard(i, j, |g|) ==> h[i][j] == if i == x && j == y then v else g[i][j]
  {
    g[x := g[x][y := v]]
  }

  /** Two square grids with the same values are the same grid. */
  lemma SquaresEqual(g: seq<seq<int>>, h: seq<seq<int>>)
    requires IsGrid(g) && IsGrid(h) && |g| == |h|
    requires forall x, y :: OnBoard(x, y, |g|) ==> g[x][y] == h[x][y]
    ensures g == h
  {
    forall x | 0 <= x < |g|
      ensures g[x] == h[x]
    {
      assert forall y :: 0 <= y < |g| ==> g[x][y] == h[x][y];
    }
  }

  /** The top m entries of column c of g seen with side on top: entry i
      is the square i places below the top of that view column. */
  function ColumnTop(g: seq<seq<int>>, side: Side, c: int, m: nat): (xs: seq<int>)
    requires IsGrid(g) && 0 <= c < |g| && m <= |g|
    ensures |xs| == m
  {
    if m == 0 then []
    else
      Reorients(side, c, |g| - m, |g|);
      ColumnTop(g, side, c, m - 1) + [g[Col(side, c, |g| - m, |g|)][Row(side, c, |g| - m, |g|)]]
  }

  /** Column c of g seen with side on top, from the top down. */
  function ColumnOf(g: seq<seq<int>>, side: Side, c: int): (xs: seq<int>)
    requires IsGrid(g) && 0 <= c < |g|
    ensures |xs| == |g|
  {
    ColumnTop(g, side, c, |g|)
  }

  lemma {:induction false} ColumnTopAt(g: seq<seq<int>>, side: Side, c: int, m: nat, i: int)
    requires IsGrid(g) && 0 <= c < |g| && m <= |g| && 0 <= i < m
    ensures OnBoard(Col(side, c, |g| - 1 - i, |g|), Row(side, c, |g| - 1 - i, |g|), |g|)
    ensures ColumnTop(g, side, c, m)[i] == g[Col(side, c, |g| - 1 - i, |g|)][Row(side, c, |g| - 1 - i, |g|)]
  {
    if i < m - 1 {
      ColumnTopAt(g, side, c, m - 1, i);
    } else {
      Reorients(side, c, |g| - m, |g|);
    }
  }

  /** Every column of g seen with side on top. */
  function ColumnsOf(g: seq<seq<int>>, side: Side): (cols: seq<seq<int>>)
    requires IsGrid(g)
    ensures |cols| == |g| && forall c :: 0 <= c < |g| ==> cols[c] == ColumnOf(g, side, c)
  {
    seq(|g|, c requires 0 <= c < |g| => ColumnOf(g, side, c))
  }

  /** The entry of view column c for view row r is the square that
      orientation names. */
  lemma ColumnOfAt(g: seq<seq<int>>, side: Side, c: int, r: int)
    requires IsGrid(g) && 0 <= c < |g| && 0 <= r < |g|
    ensures OnBoard(Col(side, c, r, |g|), Row(side, c, r, |g|), |g|)
    ensures ColumnOf(g, side, c)[|g| - 1 - r] == g[Col(side, c, r, |g|)][Row(side, c, r, |g|)]
  {
    var n := |g|;
    ColumnTopAt(g, side, c, n, n - 1 - r);
    assert n - 1 - (n - 1 - r) == r;
  }

  /** One entry of a view column after a tile moves along column col. */
  lemma ColumnOfMoveAt(g: seq<seq<int>>, h: seq<seq<int>>, side: Side, col: int, from: int, to: int, v: int,
                       c: int, i: int)
    requires IsGrid(g) && 0 <= col < |g| && 0 <= from < |g| && 0 <= to < |g| && from != to
    requires 0 <= c < |g| && 0 <= i < |g|
    requires h == SetCell(SetCell(g, Col(side, col, from, |g|), Row(side, col, from, |g|), 0),
                          Col(side, col, to, |g|), Row(side, col, to, |g|), v)
    ensures |ColumnOf(h, side, c)| == |g|
    ensures ColumnOf(h, side, c)[i] ==
      if c == col && i == |g| - 1 - to then v
      else if c == col && i == |g| - 1 - from then 0
      else ColumnOf(g, side, c)[i]
  {
    var n := |g|;
    Reorients(side, col, from, n);
    Reorients(side, col, to, n);
    ColumnOfAt(g, side, c, n - 1 - i);
    ColumnOfAt(h, side, c, n - 1 - i);
    assert n - 1 - (n - 1 - i) == i;
    if Col(side, c, n - 1 - i, n) == Col(side, col, from, n) && Row(side, c, n - 1 - i, n) == Row(side, col, from, n) {
      ReorientInjective(side, c, n - 1 - i, col, from, n);
    }
    if Col(side, c, n - 1 - i, n) == Col(side, col, to, n) && Row(side, c, n - 1 - i, n) == Row(side, col, to, n) {
      ReorientInjective(side, c, n - 1 - i, col, to, n);
    }
  }

  /** A tile leaving view square from of column col for view square to,
      where it is worth v, rewrites that column at those two entries and
      leaves every other column as it was. */
  lemma ColumnOfMove(g: seq<seq<int>>, h: seq<seq<int>>, side: Side, col: int, from: int, to: int, v: int)
    requires IsGrid(g) && 0 <= col < |g| && 0 <= from < |g| && 0 <= to < |g| && from != to
    requires h == SetCell(SetCell(g, Col(side, col, from, |g|), Row(side, col, from, |g|), 0),
                          Col(side, col, to, |g|), Row(side, col, to, |g|), v)
    ensures ColumnOf(h, side, col) == ColumnOf(g, side, col)[|g| - 1 - from := 0][|g| - 1 - to := v]
    ensures forall c :: 0 <= c < |g| && c != col ==> ColumnOf(h, side, c) == ColumnOf(g, side, c)
  {
    var n := |g|;
    forall c | 0 <= c < n && c != col
      ensures ColumnOf(h, side, c) == ColumnOf(g, side, c)
    {
      forall i | 0 <= i < n
        ensures ColumnOf(h, side, c)[i] == ColumnOf(g, side, c)[i]
      {
        ColumnOfMoveAt(g, h, side, col, from, to, v, c, i);
      }
    }
    var ys := ColumnOf(g, side, col)[n - 1 - from := 0][n - 1 - to := v];
    forall i | 0 <= i < n
      ensures ColumnOf(h, side, col)[i] == ys[i]
    {
      ColumnOfMoveAt(g, h, side, col, from, to, v, col, i);
    }
  }

  /** The grid of an empty board of size n. */
  function EmptyGrid(n: nat): (g: seq<seq<int>>)
    ensures IsGrid(g) && |g| == n
    ensures forall x, y :: OnBoard(x, y, n) ==> g[x][y] == 0
  {
    seq(n, _ => Zeros(n))
  }

  class Board {
    /** values[col, row] holds the tile at standard (col, row), or null. */
    const values: array2<Tile?>
    /** The side that the board currently views as north. */
    var viewPerspective: Side
    /** The values of the squares, cells[x][y] at standard (x, y), 0 for
        an empty one. */
    ghost var cells: seq<seq<int>>
    /** Every tile ever placed on this board; the tiles its methods may
        change. */
    ghost var Repr: set<Tile>

    function Size(): nat {
      values.Length0
    }

    /** The grid is square and every tile sits on the square its own
        coordinates name; no tile is worth 0. */
    ghost predicate Valid()
      reads this`cells, this`Repr, values
    {
      && values.Length1 == values.Length0
      && (forall x, y :: 0 <= x < values.Length0 && 0 <= y < values.Length1 && values[x, y] != null ==>
           values[x, y].col == x && values[x, y].row == y && values[x, y].value != 0 && values[x, y] in Repr)
      && IsGrid(cells) && |cells| == values.Length0
      && forall x, y {:trigger values[x, y]} :: 0 <= x < values.Length0 && 0 <= y < values.Length1 ==> cells[x][y] == ValueOf(values[x, y])
    }

    /** The tiles on the board. */
    ghost function Tiles(): set<Tile?>
      reads values
    {
      set x, y | 0 <= x < values.Length0 && 0 <= y < values.Length1 && values[x, y] != null :: values[x, y]
    }

    /** The tiles on the board are among the tiles ever placed on it. */
    lemma TilesInRepr()
      requires Valid()
      ensures Tiles() <= Repr
    {
    }

    /** An empty board of the given size, viewed from NORTH. */
    constructor (size: nat)
      ensures Valid() && Size() == size && viewPerspective == NORTH
      ensures fresh(values) && Tiles() == {}
    {
      values := new Tile?[size, size]((x, y) => null);
      viewPerspective := NORTH;
      cells := EmptyGrid(size);
      Repr := {};
    }

    /** A board holding rawValues, whose first row is the top one: square
        (col, row) gets rawValues[size - 1 - row][col], 0 meaning empty.
        The score argument is not used. */
    constructor FromRaw(rawValues: seq<seq<int>>, score: int)
      requires forall i :: 0 <= i < |rawValues| ==> |rawValues[i]| >= |rawValues|
      ensures Valid() && Size() == |rawValues| && viewPerspective == NORTH && fresh(values)
      ensures forall c, r :: 0 <= c < Size() && 0 <= r < Size() ==>
        ValueOf(values[c, r]) == rawValues[Size() - 1 - r][c]
    {
      var size := |rawValues|;
      values := new Tile?[size, size]((x, y) => null);
      viewPerspective := NORTH;
      cells := EmptyGrid(size);
      Repr := {};
      new;
      for col := 0 to size
        invariant Valid() && viewPerspective == NORTH
        invariant forall c, r :: 0 <= c < col && 0 <= r < size ==>
          ValueOf(values[c, r]) == rawValues[size - 1 - r][c]
      {
        for row := 0 to size
          invariant Valid() && viewPerspective == NORTH
          invariant forall c, r :: 0 <= c < col && 0 <= r < size ==>
            ValueOf(values[c, r]) == rawValues[size - 1 - r][c]
          invariant forall r :: 0 <= r < row ==> ValueOf(values[col, r]) == rawValues[size - 1 - r][col]
        {
          var value := rawValues[size - 1 - row][col];
          var tile: Tile?;
          if value == 0 {
            tile := null;
          } else {
            tile := Create(value, col, row);
          }
          Place(col, row, tile);
        }
      }
    }

    /** The tile at view square (col, row) with side on top; a tile found
        there sits on the standard square the orientation names. */
    function VTile(col: int, row: int, side: Side): (t: Tile?)
      requires Valid() && OnBoard(col, row, Size())
      reads this`cells, this`Repr, values
      ensures t != null ==> t.col == Col(side, col, row, Size()) && t.row == Row(side, col, row, Size())
      ensures ValueOf(t) != 0 <==> t != null
    {
      values[Col(side, col, row, Size()), Row(side, col, row, Size())]
    }

    /** tile: the tile at (col, row) in the current perspective. */
    function TileAt(col: int, row: int): (t: Tile?)
      requires Valid() && OnBoard(col, row, Size())
      reads this, values
      ensures t == VTile(col, row, viewPerspective)
    {
      VTile(col, row, viewPerspective)
    }

    /** The values of the board as currently viewed, g[col][row]. */
    ghost function Grid(): (g: seq<seq<int>>)
      requires Valid()
      reads this, values
      ensures IsGrid(g) && |g| == Size()
      ensures forall c, r :: 0 <= c < Size() && 0 <= r < Size() ==> g[c][r] == ValueOf(TileAt(c, r))
    {
      ViewColumns(Size())
    }

    /** A board without an empty square holds a tile on every square. */
    lemma Full()
      requires Valid() && !HasEmpty(Grid())
      ensures forall c, r :: 0 <= c < Size() && 0 <= r < Size() ==>
                TileAt(c, r) != null && TileAt(c, r).value == Grid()[c][r]
    {
      var g := Grid();
      forall c, r | 0 <= c < Size() && 0 <= r < Size()
        ensures TileAt(c, r) != null
      {
        assert g[c][r] == ValueOf(TileAt(c, r));
      }
    }

    /** The bottom m values of column c as currently viewed. */
    ghost function ViewColumn(c: int, m: nat): (col: seq<int>)
      requires Valid() && 0 <= c < Size() && m <= Size()
      reads this, values
      ensures |col| == m && forall r :: 0 <= r < m ==> col[r] == ValueOf(TileAt(c, r))
    {
      if m == 0 then [] else ViewColumn(c, m - 1) + [ValueOf(TileAt(c, m - 1))]
    }

    /** The first m columns as currently viewed. */
    ghost function ViewColumns(m: nat): (g: seq<seq<int>>)
      requires Valid() && m <= Size()
      reads this, values
      ensures |g| == m && forall c :: 0 <= c < m ==> g[c] == ViewColumn(c, Size())
    {
      if m == 0 then [] else ViewColumns(m - 1) + [ViewColumn(m - 1, Size())]
    }

    /** The entry of a column for view row r. */
    lemma ColumnAt(side: Side, c: int, r: int)
      requires Valid() && 0 <= c < Size() && 0 <= r < Size()
      ensures ColumnOf(cells, side, c)[Size() - 1 - r] == ValueOf(VTile(c, r, side))
    {
      Reorients(side, c, r, Size());
      ColumnOfAt(cells, side, c, r);
    }

    /** Every column as seen with side on top. */
    ghost function Columns(side: Side): seq<seq<int>>
      requires Valid()
      reads this`cells, this`Repr, values
    {
      ColumnsOf(cells, side)
    }

    /** setViewingPerspective / startViewingFrom: only the perspective
        changes, never the squares. */
    method SetViewingPerspective(s: Side)
      modifies this`viewPerspective
      ensures viewPerspective == s
    {
      viewPerspective := s;
    }

    /** clear: empties every square. */
    method Clear()
      requires Valid()
      modifies this`cells, this`Repr, values
      ensures Valid() && Tiles() == {}
      ensures forall x, y :: 0 <= x < Size() && 0 <= y < Size() ==> values[x, y] == null
    {
      for col := 0 to Size()
        invariant Valid()
        invariant forall x, y :: 0 <= x < col && 0 <= y < Size() ==> values[x, y] == null
      {
        for row := 0 to Size()
          invariant Valid()
          invariant forall x, y :: 0 <= x < col && 0 <= y < Size() ==> values[x, y] == null
          invariant forall y :: 0 <= y < row ==> values[col, y] == null
        {
          Place(col, row, null);
        }
      }
    }

    /** addTile: puts t on the square its coordinates name, and nowhere else. */
    method AddTile(t: Tile)
      requires Valid() && OnBoard(t.col, t.row, Size()) && t.value != 0
      modifies this`cells, this`Repr, values
      ensures Valid() && values[t.col, t.row] == t && Repr == old(Repr) + {t}
      ensures forall x, y :: 0 <= x < Size() && 0 <= y < Size() && (x != t.col || y != t.row) ==>
        values[x, y] == old(values[x, y])
    {
      Place(t.col, t.row, t);
    }

    /** move: places tile at view square (col, row). A move onto its own
        square does nothing; onto an empty square it leaves a moved copy;
        onto an occupied square it leaves the merged tile. The old square
        is emptied, and the result says whether a merge happened. */
    method Move(col: int, row: int, tile: Tile) returns (merged: bool)
      requires Valid() && OnBoard(col, row, Size())
      requires OnBoard(tile.col, tile.row, Size()) && values[tile.col, tile.row] == tile
      requires VTile(col, row, viewPerspective) == null || VTile(col, row, viewPerspective).value == tile.value
      modifies this`cells, this`Repr, values, tile, VTile(col, row, viewPerspective)
      ensures Valid() && forall t :: t in Repr ==> t in old(Repr) || fresh(t)
      ensures var pc, pr := Col(viewPerspective, col, row, Size()), Row(viewPerspective, col, row, Size());
        if tile.col == pc && tile.row == pr then
          !merged && unchanged(values)
        else
          && merged == (old(values[pc, pr]) != null)
          && values[tile.col, tile.row] == null
          && values[pc, pr] != null && fresh(values[pc, pr]) && tile.next == values[pc, pr]
          && values[pc, pr].value == (if merged then 2 * tile.value else tile.value)
          && (merged ==> old(values[pc, pr]).next == values[pc, pr])
          && forall x, y :: (0 <= x < Size() && 0 <= y < Size() && (x != pc || y != pr)
               && (x != tile.col || y != tile.row)) ==> values[x, y] == old(values[x, y])
      ensures var pc, pr := Col(viewPerspective, col, row, Size()), Row(viewPerspective, col, row, Size());
        cells == if tile.col == pc && tile.row == pr then old(cells)
          else SetCell(SetCell(old(cells), tile.col, tile.row, 0), pc, pr,
                       if merged then 2 * tile.value else tile.value)
    {
      var pcol, prow := Col(viewPerspective, col, row, Size()), Row(viewPerspective, col, row, Size());
      merged := false;
      if tile.col != pcol || tile.row != prow {
        Reorients(viewPerspective, col, row, Size());
        var tile1 := VTile(col, row, viewPerspective);
        Place(tile.col, tile.row, null);
        var next: Tile;
        if tile1 == null {
          next := tile.Move(pcol, prow);
        } else {
          next := tile.Merge(pcol, prow, tile1);
          merged := true;
        }
        Place(pcol, prow, next);
      }
    }

    /** Puts t, or nothing, on standard square (x, y). */
    method Place(x: int, y: int, t: Tile?)
      requires Valid() && OnBoard(x, y, Size())
      requires t != null ==> t.col == x && t.row == y && t.value != 0
      modifies this`cells, this`Repr, values
      ensures Valid() && values[x, y] == t
      ensures cells == SetCell(old(cells), x, y, ValueOf(t))
      ensures Repr == if t == null then old(Repr) else old(Repr) + {t}
      ensures forall i, j :: 0 <= i < Size() && 0 <= j < Size() && (i != x || j != y) ==>
        values[i, j] == old(values[i, j])
    {
      values[x, y] := t;
      cells := SetCell(cells, x, y, ValueOf(t));
      if t != null {
        Repr := Repr + {t};
      }
    }
  }
}
