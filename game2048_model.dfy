/** The state of a game of 2048: a board, the score, the best score so
    far and whether the game has ended. */
module Game2048Model {
  import opened Game2048Side
  import opened Game2048Tile
  import opened Game2048Board
  import opened Game2048Rules

  /** One tile of tileColumn's walk over xs, at view row row = n-1-k: it
      goes to the square just below the last placed tile when it merges
      with it (that square holds an equal tile) and to the first empty
      square otherwise, and the column becomes the next layout. */
  lemma TileMove(xs: seq<int>, n: int, k: int, row: int, emptySpace: int, previous: int, to: int)
    requires |xs| == n && 0 <= k < n && row == n - 1 - k
    requires xs[k] != 0 && emptySpace == WalkTo(xs, k).emptySpace && previous == WalkTo(xs, k).previous
    requires to == if xs[k] == previous then row + emptySpace + 1 else row + emptySpace
    ensures row <= to < n
    ensures to == row ==> Layout(xs, k + 1) == Layout(xs, k)
    ensures to != row ==>
      && Layout(xs, k)[n - 1 - to] == (if xs[k] == previous then xs[k] else 0)
      && Layout(xs, k + 1)
         == Layout(xs, k)[n - 1 - row := 0][n - 1 - to := if Layout(xs, k)[n - 1 - to] == 0 then xs[k] else 2 * xs[k]]
  {
    var st, v := WalkTo(xs, k), xs[k];
    var lay := Layout(xs, k);
    StepLayout(xs, k);
    if to == row {
      assert Layout(xs, k + 1) == lay[k := 0][k := v];
      assert lay[k := 0][k := v] == lay;
    }
  }

  /** The column effect of one tile of the walk over xs, on the square
      grids g before and h after the board's move: the tile's view column
      becomes the next layout and no other view column changes. */
  lemma SlideColumn(g: seq<seq<int>>, h: seq<seq<int>>, side: Side, col: int, row: int, to: int,
                    c0: int, r0: int, c1: int, r1: int, v: int, merged: bool,
                    xs: seq<int>, k: int, emptySpace: int, previous: int)
    requires IsGrid(g) && 0 <= col < |g| && |xs| == |g| && 0 <= k < |xs| && row == |xs| - 1 - k
    requires ColumnOf(g, side, col) == Layout(xs, k) && xs[k] == v && v != 0
    requires emptySpace == WalkTo(xs, k).emptySpace && previous == WalkTo(xs, k).previous
    requires to == if v == previous then row + emptySpace + 1 else row + emptySpace
    requires to < |g| && (to != row ==> (merged <==> ColumnOf(g, side, col)[|g| - 1 - to] != 0))
    requires c0 == Col(side, col, row, |g|) && r0 == Row(side, col, row, |g|)
    requires c1 == Col(side, col, to, |g|) && r1 == Row(side, col, to, |g|)
    requires h == if c0 == c1 && r0 == r1 then g else SetCell(SetCell(g, c0, r0, 0), c1, r1, if merged then 2 * v else v)
    ensures ColumnOf(h, side, col) == Layout(xs, k + 1)
    ensures forall c :: 0 <= c < |g| && c != col ==> ColumnOf(h, side, c) == ColumnOf(g, side, c)
  {
    var n := |g|;
    TileMove(xs, n, k, row, emptySpace, previous, to);
    if to != row {
      if Col(side, col, row, n) == Col(side, col, to, n) && Row(side, col, row, n) == Row(side, col, to, n) {
        ReorientInjective(side, col, row, col, to, n);
      }
      ColumnOfMove(g, h, side, col, row, to, if merged then 2 * xs[k] else xs[k]);
    }
  }

  /** The walk's counters after a tile: a merge empties one more square,
      clears the pending value and scores the merged value; otherwise the
      tile becomes the pending one. Either way the column changes when
      the tile merges or has a gap ahead of it. */
  lemma WalkStep(xs: seq<int>, k: int, emptySpace: int, previous: int)
    requires 0 <= k < |xs| && xs[k] != 0
    requires emptySpace == WalkTo(xs, k).emptySpace && previous == WalkTo(xs, k).previous
    ensures var st, st1, merge := WalkTo(xs, k), WalkTo(xs, k + 1), xs[k] == previous;
      && st1.emptySpace == (if merge then emptySpace + 1 else emptySpace)
      && st1.previous == (if merge then 0 else xs[k])
      && st1.changed == (st.changed || emptySpace > 0 || merge)
      && st1.gain == st.gain + (if merge then 2 * xs[k] else 0)
  {
    StepLayout(xs, k);
  }

  /** emptySpaceExists: some square of b, as currently viewed, is empty. */
  method EmptySpaceExists(b: Board) returns (r: bool)
    requires b.Valid()
    ensures r <==> HasEmpty(b.Grid())
  {
    var n := b.Size();
    ghost var g := b.Grid();
    for i := 0 to n
      invariant forall c, rr :: 0 <= c < i && 0 <= rr < n ==> g[c][rr] != 0
    {
      for j := 0 to n
        invariant forall c, rr :: 0 <= c < i && 0 <= rr < n ==> g[c][rr] != 0
        invariant forall rr :: 0 <= rr < j ==> g[i][rr] != 0
      {
        if b.TileAt(i, j) == null {
          return true;
        }
      }
    }
    return false;
  }

  /** maxTileExists: some tile of b is worth MAX_PIECE. */
  method MaxTileExists(b: Board) returns (r: bool)
    requires b.Valid()
    ensures r <==> HasMaxTile(b.Grid())
  {
    var n := b.Size();
    ghost var g := b.Grid();
    for i := 0 to n
      invariant forall c, rr :: 0 <= c < i && 0 <= rr < n ==> g[c][rr] != MAX_PIECE
    {
      for j := 0 to n
        invariant forall c, rr :: 0 <= c < i && 0 <= rr < n ==> g[c][rr] != MAX_PIECE
        invariant forall rr :: 0 <= rr < j ==> g[i][rr] != MAX_PIECE
      {
        if b.TileAt(i, j) != null && b.TileAt(i, j).value == MAX_PIECE {
          return true;
        }
      }
    }
    return false;
  }

  /** atLeastOneMoveExists as written: an empty square, or (0, 0) equal to
      a neighbour, or a square off the bottom row and the left column
      equal to its left or lower neighbour. A board of size 0 is refused
      (the Java method reads square (0, 0) of it). */
  method AtLeastOneMoveExists(b: Board) returns (r: bool)
    requires b.Valid() && b.Size() >= 1
    ensures r <==> MoveExistsAsWritten(b.Grid())
  {
    var e := EmptySpaceExists(b);
    if e {
      return true;
    }
    var n := b.Size();
    if n == 1 {
      return false;
    }
    ghost var g := b.Grid();
    assert g[0][0] == b.TileAt(0, 0).value && g[1][0] == b.TileAt(1, 0).value && g[0][1] == b.TileAt(0, 1).value;
    if b.TileAt(0, 0).value == b.TileAt(1, 0).value || b.TileAt(0, 0).value == b.TileAt(0, 1).value {
      return true;
    }
    r := LeftOrBelowMatchExists(b);
  }

  /** The loop of atLeastOneMoveExists over the squares off the bottom row
      and the left column of a full board. */
  method LeftOrBelowMatchExists(b: Board) returns (r: bool)
    requires b.Valid() && b.Size() >= 2 && !HasEmpty(b.Grid())
    ensures r <==> LeftOrBelowMatch(b.Grid())
  {
    var n := b.Size();
    ghost var g := b.Grid();
    b.Full();
    for i := 1 to n
      invariant forall c, rr :: 1 <= c < i && 1 <= rr < n ==> !MatchesLeftOrBelow(g, c, rr)
    {
      for j := 1 to n
        invariant forall c, rr :: 1 <= c < i && 1 <= rr < n ==> !MatchesLeftOrBelow(g, c, rr)
        invariant forall rr :: 1 <= rr < j ==> !MatchesLeftOrBelow(g, i, rr)
      {
        var v := b.TileAt(i, j).value;
        if v == b.TileAt(i - 1, j).value || v == b.TileAt(i, j - 1).value {
          assert MatchesLeftOrBelow(g, i, j);
          return true;
        }
      }
    }
    return false;
  }

  /** The check atLeastOneMoveExists is documented to make: an empty
      square, or some square equal to its right-hand or upper neighbour. */
  method AnyMoveExists(b: Board) returns (r: bool)
    requires b.Valid()
    ensures r <==> MoveExists(b.Grid())
  {
    var e := EmptySpaceExists(b);
    if e {
      return true;
    }
    r := EqualNeighboursExist(b);
  }

  /** Some square of a full board equals its right-hand or upper
      neighbour. */
  method EqualNeighboursExist(b: Board) returns (r: bool)
    requires b.Valid() && !HasEmpty(b.Grid())
    ensures r <==> EqualNeighbours(b.Grid())
  {
    var n := b.Size();
    ghost var g := b.Grid();
    b.Full();
    for i := 0 to n
      invariant forall c, rr :: 0 <= c < i && 0 <= rr < n ==> !MatchesRightOrAbove(g, c, rr)
    {
      for j := 0 to n
        invariant forall c, rr :: 0 <= c < i && 0 <= rr < n ==> !MatchesRightOrAbove(g, c, rr)
        invariant forall rr :: 0 <= rr < j ==> !MatchesRightOrAbove(g, i, rr)
      {
        var v := b.TileAt(i, j).value;
        if (i + 1 < n && v == b.TileAt(i + 1, j).value) || (j + 1 < n && v == b.TileAt(i, j + 1).value) {
          assert MatchesRightOrAbove(g, i, j);
          return true;
        }
      }
    }
    return false;
  }

  /** checkGameOver(Board): a 2048 tile is on the board or
      atLeastOneMoveExists finds no move. */
  method IsGameOver(b: Board) returns (r: bool)
    requires b.Valid() && b.Size() >= 1
    ensures r <==> GameIsOverAsWritten(b.Grid())
  {
    var m := MaxTileExists(b);
    if m {
      return true;
    }
    var a := AtLeastOneMoveExists(b);
    return !a;
  }

  /** The game-over check with the documented move check in place of
      atLeastOneMoveExists. */
  method IsGameOverIntended(b: Board) returns (r: bool)
    requires b.Valid()
    ensures r <==> GameIsOver(b.Grid())
  {
    var m := MaxTileExists(b);
    if m {
      return true;
    }
    var a := AnyMoveExists(b);
    return !a;
  }

  class Model {
    const board: Board
    var score: int
    /** Maximum score so far; updated when the game ends. */
    var maxScore: int
    var gameOver: bool

    /** The board is consistent and, between operations, viewed from
        NORTH. */
    ghost predicate Valid()
      reads this, board, board.values
    {
      board.Valid() && board.viewPerspective == NORTH
    }

    /** A new game on an empty board with score 0. */
    constructor (size: nat)
      ensures Valid() && board.Size() == size && board.Tiles() == {}
      ensures fresh(board) && fresh(board.values) && board.viewPerspective == NORTH
      ensures score == 0 && maxScore == 0 && !gameOver
    {
      board := new Board(size);
      score, maxScore := 0, 0;
      gameOver := false;
    }

    /** A game holding rawValues (first row on top, 0 for empty). */
    constructor FromRaw(rawValues: seq<seq<int>>, score: int, maxScore: int, gameOver: bool)
      requires forall i :: 0 <= i < |rawValues| ==> |rawValues[i]| >= |rawValues|
      ensures Valid() && board.Size() == |rawValues| && fresh(board) && fresh(board.values)
      ensures board.viewPerspective == NORTH
      ensures forall c, r :: 0 <= c < board.Size() && 0 <= r < board.Size() ==>
        ValueOf(board.values[c, r]) == rawValues[board.Size() - 1 - r][c]
      ensures this.score == score && this.maxScore == maxScore && this.gameOver == gameOver
    {
      board := new Board.FromRaw(rawValues, score);
      this.score := score;
      this.maxScore := maxScore;
      this.gameOver := gameOver;
    }

    /** One tile of tileColumn's loop, at view row row = n-1-k of the
        walk over xs: the tile goes to view square (col, to), the square
        just below the pending tile when it merges with it and the first
        empty square otherwise, and the column becomes the next layout. */
    method SlideTile(side: Side, col: int, row: int, to: int, t: Tile, emptySpace: int, previous: int,
                     ghost xs: seq<int>, ghost k: int)
      requires board.Valid() && board.viewPerspective == side && 0 <= col < board.Size()
      requires |xs| == board.Size() && 0 <= k < |xs| && row == |xs| - 1 - k
      requires board.VTile(col, row, side) == t
      requires ColumnOf(board.cells, side, col) == Layout(xs, k)
      requires emptySpace == WalkTo(xs, k).emptySpace && previous == WalkTo(xs, k).previous
      requires to == if t.value == previous then row + emptySpace + 1 else row + emptySpace
      requires xs[k] == t.value && row <= to < |xs|
      requires to != row ==> Layout(xs, k)[|xs| - 1 - to] == if t.value == previous then t.value else 0
      modifies board`cells, board`Repr, board.values, board.Repr
      ensures board.Valid() && board.viewPerspective == side
      ensures ColumnOf(board.cells, side, col) == Layout(xs, k + 1)
      ensures forall c :: 0 <= c < board.Size() && c != col ==>
        ColumnOf(board.cells, side, c) == old(ColumnOf(board.cells, side, c))
      ensures ReprGrows()
    {
      var n := board.Size();
      ghost var g := board.cells;
      var merged := MoveTile(side, col, row, to, t);
      SlideColumn(g, board.cells, side, col, row, to, Col(side, col, row, n), Row(side, col, row, n),
                  Col(side, col, to, n), Row(side, col, to, n), t.value, merged, xs, k, emptySpace, previous);
    }

    /** board.move seen along view column col: the tile at view row row
        goes to view row to, which is empty or holds a tile of the same
        value; the result says whether it held one. */
    method MoveTile(side: Side, col: int, row: int, to: int, t: Tile) returns (merged: bool)
      requires board.Valid() && board.viewPerspective == side && 0 <= col < board.Size()
      requires 0 <= row <= to < board.Size() && board.VTile(col, row, side) == t
      requires to != row ==> (ColumnOf(board.cells, side, col)[board.Size() - 1 - to] == 0
        || ColumnOf(board.cells, side, col)[board.Size() - 1 - to] == t.value)
      modifies board`cells, board`Repr, board.values, board.Repr
      ensures board.Valid() && board.viewPerspective == side
      ensures to != row ==> (merged <==> old(ColumnOf(board.cells, side, col))[board.Size() - 1 - to] != 0)
      ensures var n := board.Size();
        var c0, r0, c1, r1 := Col(side, col, row, n), Row(side, col, row, n), Col(side, col, to, n), Row(side, col, to, n);
        board.cells == if c0 == c1 && r0 == r1 then old(board.cells)
          else SetCell(SetCell(old(board.cells), c0, r0, 0), c1, r1, if merged then 2 * t.value else t.value)
      ensures ReprGrows()
    {
      var n := board.Size();
      Reorients(side, col, row, n);
      Reorients(side, col, to, n);
      board.ColumnAt(side, col, to);
      merged := board.Move(col, to, t);
    }

    /** One tile of tileColumn's loop, at view row row = n-1-k of the
        walk over xs: the tile merges with the pending tile or moves up
        over the empty squares, the walk takes one step, and a merge
        scores the merged value. */
    method WalkTile(side: Side, col: int, row: int, t: Tile, emptySpace: int, previous: int, changed: bool,
                    ghost xs: seq<int>, ghost k: int)
      returns (emptySpace1: int, previous1: int, changed1: bool)
      requires board.Valid() && board.viewPerspective == side && 0 <= col < board.Size()
      requires |xs| == board.Size() && 0 <= k < |xs| && row == |xs| - 1 - k
      requires board.VTile(col, row, side) == t
      requires ColumnOf(board.cells, side, col) == Layout(xs, k)
      requires var st := WalkTo(xs, k);
        emptySpace == st.emptySpace && previous == st.previous && changed == st.changed
      modifies this`score, board`cells, board`Repr, board.values, board.Repr
      ensures board.Valid() && board.viewPerspective == side
      ensures ColumnOf(board.cells, side, col) == Layout(xs, k + 1)
      ensures var st := WalkTo(xs, k + 1);
        && emptySpace1 == st.emptySpace && previous1 == st.previous && changed1 == st.changed
        && score == old(score) + st.gain - WalkTo(xs, k).gain
      ensures forall c :: 0 <= c < board.Size() && c != col ==>
        ColumnOf(board.cells, side, c) == old(ColumnOf(board.cells, side, c))
      ensures ReprGrows()
    {
      board.ColumnAt(side, col, row);
      StepLayout(xs, k);
      WalkStep(xs, k, emptySpace, previous);
      emptySpace1, previous1, changed1 := emptySpace, previous, changed;
      if emptySpace > 0 || t.value == previous {
        changed1 := true;
      }
      TileMove(xs, |xs|, k, row, emptySpace, previous, if t.value == previous then row + emptySpace + 1 else row + emptySpace);
      if t.value == previous {
        SlideTile(side, col, row, row + emptySpace + 1, t, emptySpace, previous, xs, k);
        emptySpace1 := emptySpace + 1;
        previous1 := 0;
        score := score + 2 * t.value;
      } else {
        SlideTile(side, col, row, row + emptySpace, t, emptySpace, previous, xs, k);
        previous1 := t.value;
      }
    }

    /** The state of tileColumn's walk over column col, xs as it was
        before the walk and g0 the whole board then, after the top k
        squares: the column is laid out as far as the walk has got, the
        other columns are as they were, and the counters and the score
        are those of the walk so far. */
    ghost predicate Walked(side: Side, col: int, xs: seq<int>, k: int, g0: seq<seq<int>>, base: int,
                           emptySpace: int, previous: int, changed: bool)
      reads this, board, board.values
    {
      && board.Valid() && board.viewPerspective == side && 0 <= col < board.Size()
      && |xs| == board.Size() && 0 <= k <= |xs| && IsGrid(g0) && |g0| == board.Size()
      && ColumnOf(board.cells, side, col) == Layout(xs, k)
      && (forall c :: 0 <= c < |g0| && c != col ==> ColumnOf(board.cells, side, c) == ColumnOf(g0, side, c))
      && (var st := WalkTo(xs, k);
          emptySpace == st.emptySpace && previous == st.previous && changed == st.changed && score == base + st.gain)
    }

    /** An empty square leaves the column as it is and is counted as
        space the next tile slides over. */
    lemma WalkEmpty(side: Side, col: int, row: int, emptySpace: int, previous: int, changed: bool,
                    xs: seq<int>, k: int, g0: seq<seq<int>>, base: int)
      requires Walked(side, col, xs, k, g0, base, emptySpace, previous, changed)
      requires k < |xs| && row == |xs| - 1 - k && board.VTile(col, row, side) == null
      ensures Walked(side, col, xs, k + 1, g0, base, emptySpace + 1, previous, changed)
    {
      StepLayout(xs, k);
      board.ColumnAt(side, col, row);
    }

    /** One square of tileColumn's loop, view row row = n-1-k of the walk
        over xs: an empty square is counted as space the next tile slides
        over, and a tile is moved up as WalkTile says. */
    method WalkSquare(side: Side, col: int, row: int, emptySpace: int, previous: int, changed: bool,
                      ghost xs: seq<int>, ghost k: int, ghost g0: seq<seq<int>>, ghost base: int)
      returns (emptySpace1: int, previous1: int, changed1: bool)
      requires Walked(side, col, xs, k, g0, base, emptySpace, previous, changed)
      requires k < |xs| && row == |xs| - 1 - k
      modifies this`score, board`cells, board`Repr, board.values, board.Repr
      ensures Walked(side, col, xs, k + 1, g0, base, emptySpace1, previous1, changed1)
      ensures ReprGrows()
    {
      var t := board.TileAt(col, row);
      if t == null {
        WalkEmpty(side, col, row, emptySpace, previous, changed, xs, k, g0, base);
        emptySpace1, previous1, changed1 := emptySpace + 1, previous, changed;
      } else {
        emptySpace1, previous1, changed1 := WalkTile(side, col, row, t, emptySpace, previous, changed, xs, k);
      }
    }

    /** tileColumn: tilts one column toward side. Tiles slide toward side
        over empty squares, equal tiles meeting in the direction of motion
        merge once, leading pair first, and each merge scores the merged
        value; the board is left viewed from NORTH. The result says
        whether the column changed. */
    method TileColumn(col: int, side: Side) returns (changed: bool)
      requires Valid() && 0 <= col < board.Size()
      modifies this`score, board`cells, board`Repr, board`viewPerspective, board.values, board.Repr
      ensures Valid() && board.viewPerspective == NORTH
      ensures ColumnOf(board.cells, side, col) == Slid(old(ColumnOf(board.cells, side, col)))
      ensures forall c :: 0 <= c < board.Size() && c != col ==>
        ColumnOf(board.cells, side, c) == old(ColumnOf(board.cells, side, c))
      ensures score == old(score) + SlideGain(old(ColumnOf(board.cells, side, col)))
      ensures changed <==> ColumnOf(board.cells, side, col) != old(ColumnOf(board.cells, side, col))
      ensures ReprGrows()
    {
      ghost var g0 := board.cells;
      ghost var xs := ColumnOf(g0, side, col);
      board.SetViewingPerspective(side);
      var n := board.Size();
      var emptySpace: int := 0;
      var previousTileValue: int := 0;
      changed := false;
      var row: int := n - 1;
      ghost var k := 0;
      while row >= 0
        invariant -1 <= row < n && k == n - 1 - row
        invariant Walked(side, col, xs, k, g0, old(score), emptySpace, previousTileValue, changed)
        invariant ReprGrows()
        decreases row
      {
        emptySpace, previousTileValue, changed :=
          WalkSquare(side, col, row, emptySpace, previousTileValue, changed, xs, k, g0, old(score));
        row := row - 1;
        k := k + 1;
      }
      assert k == |xs|;
      LayoutDone(xs);
      assert ColumnOf(board.cells, side, col) == Slid(xs);
      board.SetViewingPerspective(NORTH);
    }
  
    /** checkGameOver: records whether the game is over. */
    method CheckGameOver()
      requires Valid() && board.Size() >= 1
      modifies this`gameOver
      ensures gameOver == GameIsOverAsWritten(board.Grid())
    {
      gameOver := IsGameOver(board);
    }

    /** gameOver: whether the game is over; when it is, the best score
        takes the current one into account. */
    method GameOver() returns (r: bool)
      requires Valid() && board.Size() >= 1
      modifies this`gameOver, this`maxScore
      ensures r == gameOver && (r <==> GameIsOverAsWritten(board.Grid()))
      ensures maxScore == if r then Max(score, old(maxScore)) else old(maxScore)
    {
      CheckGameOver();
      if gameOver {
        maxScore := Max(score, maxScore);
      }
      return gameOver;
    }

    /** clear: an empty board, score 0, game not over; the best score is
        kept. */
    method Clear()
      requires Valid()
      modifies this`score, this`gameOver, board`cells, board`Repr, board.values
      ensures Valid() && board.Tiles() == {}
      ensures score == 0 && !gameOver
    {
      score := 0;
      gameOver := false;
      board.Clear();
    }

    /** addTile: puts tile on its square, then re-checks the end of the
        game. */
    method AddTile(tile: Tile)
      requires Valid() && OnBoard(tile.col, tile.row, board.Size()) && tile.value != 0
      modifies this`gameOver, board`cells, board`Repr, board.values
      ensures Valid() && board.values[tile.col, tile.row] == tile
      ensures forall x, y :: 0 <= x < board.Size() && 0 <= y < board.Size() && (x != tile.col || y != tile.row) ==>
        board.values[x, y] == old(board.values[x, y])
      ensures gameOver == GameIsOverAsWritten(board.Grid())
    {
      board.AddTile(tile);
      CheckGameOver();
    }

    /** tilt: first records whether the game was over, then tilts every
        view column toward side. Each column becomes its slid form, the
        score grows by the tilt's gain, and the result says whether any
        column changed. */
    method Tilt(side: Side) returns (changed: bool)
      requires Valid() && board.Size() >= 1
      modifies this`score, this`gameOver, board`cells, board`Repr, board`viewPerspective, board.values, board.Repr
      ensures Valid() && gameOver == GameIsOverAsWritten(old(board.Grid()))
      ensures forall c :: 0 <= c < board.Size() ==>
        ColumnOf(board.cells, side, c) == Slid(old(ColumnOf(board.cells, side, c)))
      ensures score == old(score) + TiltGain(old(ColumnsOf(board.cells, side)), board.Size())
      ensures changed <==> exists c :: 0 <= c < board.Size() && Slid(old(ColumnOf(board.cells, side, c))) != old(ColumnOf(board.cells, side, c))
      ensures ReprGrows()
    {
      ghost var cols := ColumnsOf(board.cells, side);
      CheckGameOver();
      changed := TiltColumns(side, cols);
      TiltChangesSome(cols, board.Size());
    }

    /** tilt's loop over the view columns, against the columns cols that
        side shows before the tilt. */
    method TiltColumns(side: Side, ghost cols: seq<seq<int>>) returns (changed: bool)
      requires Valid() && cols == ColumnsOf(board.cells, side)
      modifies this`score, board`cells, board`Repr, board`viewPerspective, board.values, board.Repr
      ensures Valid() && |cols| == board.Size()
      ensures forall c :: 0 <= c < board.Size() ==> ColumnOf(board.cells, side, c) == Slid(cols[c])
      ensures score == old(score) + TiltGain(cols, board.Size())
      ensures changed == TiltChanges(cols, board.Size())
      ensures ReprGrows()
    {
      changed := false;
      var n := board.Size();
      var c := 0;
      while c < n
        invariant TiltedUpTo(side, cols, c, old(score), changed)
        invariant ReprGrows()
      {
        changed := TiltColumn(side, c, changed, cols, old(score));
        c := c + 1;
      }
    }

    /** The board's record of tiles only grows, and only by tiles made
        since the old state. */
    twostate predicate ReprGrows()
      reads board
    {
      forall t :: t in board.Repr ==> t in old(board.Repr) || fresh(t)
    }

    /** The state after tilt's loop has handled the view columns before c,
        starting from the columns cols and the score base. */
    ghost predicate TiltedUpTo(side: Side, cols: seq<seq<int>>, c: int, base: int, changed: bool)
      reads this, board, board.values
    {
      && Valid() && |cols| == board.Size() && 0 <= c <= |cols|
      && (forall i :: 0 <= i < c ==> ColumnOf(board.cells, side, i) == Slid(cols[i]))
      && (forall i :: c <= i < |cols| ==> ColumnOf(board.cells, side, i) == cols[i])
      && score == base + TiltGain(cols, c)
      && changed == TiltChanges(cols, c)
    }

    /** One round of tilt's loop: column c is tilted and the changed flag
        takes it into account (it is tilted even when the flag is already
        set). */
    method TiltColumn(side: Side, c: int, changed: bool, ghost cols: seq<seq<int>>, ghost base: int)
      returns (changed1: bool)
      requires TiltedUpTo(side, cols, c, base, changed) && c < |cols|
      modifies this`score, board`cells, board`Repr, board`viewPerspective, board.values, board.Repr
      ensures TiltedUpTo(side, cols, c + 1, base, changed1)
      ensures ReprGrows()
    {
      var columnChanged := TileColumn(c, side);
      changed1 := changed || columnChanged;
    }
  }
}
