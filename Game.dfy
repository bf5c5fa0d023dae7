/**
 * The game state and its commands: the board, the active piece (shape,
 * anchor and colour), spawning, the three moves, rotation, locking, row
 * clearing and one tick of the game loop. The random choices of a shape and
 * a colour are parameters.
 */
module Tetris {
  import opened Pieces
  import opened Board

  class Game {
    /** Board size in cells: canvas height and width divided by the cell size. */
    const rows: nat
    const cols: nat

    var board: Grid
    /** The active piece. */
    var shape: Shape
    var pos: Pos
    var color: string

    ghost predicate Valid()
      reads this
    {
      && Roomy(rows, cols)
      && IsBoard(board, rows, cols)
      && IsShape(shape)
      && Tight(shape)
      && pos.y >= 0
      && InBounds(shape, pos, rows, cols)
      && color in Colors
    }

    constructor (rows: nat, cols: nat, firstShape: nat, firstColor: nat)
      requires Roomy(rows, cols)
      requires firstShape < |Tetrominoes| && firstColor < |Colors|
      ensures Valid() && this.rows == rows && this.cols == cols
      ensures board == Blank(rows, cols)
      ensures shape == Tetrominoes[firstShape] && pos == Spawn(cols) && color == Colors[firstColor]
    {
      this.rows := rows;
      this.cols := cols;
      new;
      InitializeGame(firstShape, firstColor);
    }

    /** Start (or restart) a game: an empty board and a fresh piece at the spawn point. */
    method InitializeGame(nextShape: nat, nextColor: nat)
      requires Roomy(rows, cols)
      requires nextShape < |Tetrominoes| && nextColor < |Colors|
      modifies this
      ensures Valid()
      ensures board == Blank(rows, cols)
      ensures shape == Tetrominoes[nextShape] && pos == Spawn(cols) && color == Colors[nextColor]
    {
      board := Blank(rows, cols);
      shape := Generate(nextShape);
      pos := Spawn(cols);
      color := Colors[nextColor];
      SpawnedPiece(rows, cols, nextShape);
    }

    /** The whole bounding box of the active piece, not only its filled cells, lies on the board. */
    lemma BoxOnBoard()
      requires Valid()
      ensures 0 <= pos.x && pos.x + |shape[0]| <= cols
      ensures 0 <= pos.y && pos.y + |shape| <= rows
    {
      var a :| 0 <= a < |shape| && shape[a][0] != 0;
      var b :| 0 <= b < |shape| && shape[b][|shape[0]| - 1] != 0;
      var e :| 0 <= e < |shape[0]| && shape[|shape| - 1][e] == 1;
    }

    /** At column 0 a left move always fails, whatever the piece. */
    lemma LeftWallBlocksMove()
      requires Valid() && pos.x == 0
      ensures !Fits(board, rows, cols, shape, pos, -1, 0)
    {
      var a :| 0 <= a < |shape| && shape[a][0] != 0;
      LeftWallBlocks(board, rows, cols, shape, pos, a);
    }

    /** With the piece's right edge in the last column a right move always fails. */
    lemma RightWallBlocksMove()
      requires Valid() && pos.x + |shape[0]| == cols
      ensures !Fits(board, rows, cols, shape, pos, 1, 0)
    {
      var b :| 0 <= b < |shape| && shape[b][|shape[0]| - 1] != 0;
    }

    /** With the piece's bottom edge in the last row a down move always fails. */
    lemma FloorBlocksMove()
      requires Valid() && pos.y + |shape| == rows
      ensures !Fits(board, rows, cols, shape, pos, 0, 1)
    {
      var e :| 0 <= e < |shape[0]| && shape[|shape| - 1][e] == 1;
      FloorBlocks(board, rows, cols, shape, pos, |shape| - 1, e);
    }

    /**
     * Whether `s`, anchored at the current position moved by `(dx, dy)`,
     * would fit; the board is read only inside its bounds.
     */
    method IsValidMove(dx: int, dy: int, s: Shape) returns (ok: bool)
      requires HasDims(board, rows, cols) && pos.y + dy >= 0
      ensures ok == Fits(board, rows, cols, s, pos, dx, dy)
    {
      var y := 0;
      while y < |s|
        invariant 0 <= y <= |s|
        invariant forall y', x' :: 0 <= y' < y && 0 <= x' < |s[y']| && s[y'][x'] != 0 ==>
          0 <= pos.x + x' + dx < cols && pos.y + y' + dy < rows && board[pos.y + y' + dy][pos.x + x' + dx] == 0
      {
        var x := 0;
        while x < |s[y]|
          invariant 0 <= x <= |s[y]|
          invariant forall x' :: 0 <= x' < x && s[y][x'] != 0 ==>
            0 <= pos.x + x' + dx < cols && pos.y + y + dy < rows && board[pos.y + y + dy][pos.x + x' + dx] == 0
        {
          if s[y][x] != 0 {
            var newX := pos.x + x + dx;
            var newY := pos.y + y + dy;
            if newX < 0 || newX >= cols || newY >= rows || board[newY][newX] != 0 {
              return false;
            }
          }
          x := x + 1;
        }
        y := y + 1;
      }
      return true;
    }

    /** Move one column left if the piece fits there; nothing else changes. */
    method MoveLeft()
      requires Valid()
      modifies this`pos
      ensures Valid()
      ensures board == old(board) && shape == old(shape) && color == old(color)
      ensures pos == if old(Fits(board, rows, cols, shape, pos, -1, 0))
                     then Pos(old(pos.x) - 1, old(pos.y)) else old(pos)
    {
      var ok := IsValidMove(-1, 0, shape);
      if ok {
        FitsInBounds(board, rows, cols, shape, pos, -1, 0);
        pos := pos.(x := pos.x - 1);
      }
    }

    /** Move one column right if the piece fits there; nothing else changes. */
    method MoveRight()
      requires Valid()
      modifies this`pos
      ensures Valid()
      ensures board == old(board) && shape == old(shape) && color == old(color)
      ensures pos == if old(Fits(board, rows, cols, shape, pos, 1, 0))
                     then Pos(old(pos.x) + 1, old(pos.y)) else old(pos)
    {
      var ok := IsValidMove(1, 0, shape);
      if ok {
        FitsInBounds(board, rows, cols, shape, pos, 1, 0);
        pos := pos.(x := pos.x + 1);
      }
    }

    /** Move one row down if the piece fits there; nothing else changes. */
    method MoveDown()
      requires Valid()
      modifies this`pos
      ensures Valid()
      ensures board == old(board) && shape == old(shape) && color == old(color)
      ensures pos == if old(Fits(board, rows, cols, shape, pos, 0, 1))
                     then Pos(old(pos.x), old(pos.y) + 1) else old(pos)
    {
      var ok := IsValidMove(0, 1, shape);
      if ok {
        FitsInBounds(board, rows, cols, shape, pos, 0, 1);
        pos := pos.(y := pos.y + 1);
      }
    }

    /**
     * Turn the piece a quarter turn counter-clockwise about its anchor if the
     * turned shape fits where it is; there is no wall-kick.
     */
    method RotateTetromino()
      requires Valid()
      modifies this`shape
      ensures Valid()
      ensures board == old(board) && pos == old(pos) && color == old(color)
      ensures shape == if Fits(board, rows, cols, Rotated(old(shape)), pos, 0, 0)
                       then Rotated(old(shape)) else old(shape)
    {
      var rotated := Rotated(shape);
      var ok := IsValidMove(0, 0, rotated);
      if ok {
        FitsInBounds(board, rows, cols, rotated, pos, 0, 0);
        RotatedTight(shape);
        shape := rotated;
      }
    }

    /**
     * Lock the piece: write its colour's palette index plus one into every
     * board cell under a filled cell, then spawn the next piece. Overlap is
     * not checked, neither when locking nor when spawning.
     */
    method PlaceTetromino(nextShape: nat, nextColor: nat)
      requires Valid()
      requires nextShape < |Tetrominoes| && nextColor < |Colors|
      modifies this
      ensures Valid()
      ensures board == Locked(old(board), old(shape), old(pos), IndexOf(Colors, old(color)) + 1)
      ensures shape == Tetrominoes[nextShape] && pos == Spawn(cols) && color == Colors[nextColor]
    {
      var v := IndexOf(Colors, color) + 1;
      ghost var b0 := board;
      WritePiece(v);
      assert IsBoard(board, rows, cols) by {
        LockedIsBoard(b0, rows, cols, shape, pos, v);
      }
      shape := Generate(nextShape);
      pos := Spawn(cols);
      color := Colors[nextColor];
      SpawnedPiece(rows, cols, nextShape);
    }

    /** The nested loop of locking: write `v` under every filled cell of the piece, in place. */
    method WritePiece(v: int)
      requires HasDims(board, rows, cols) && InBounds(shape, pos, rows, cols)
      modifies this`board
      ensures board == Locked(old(board), shape, pos, v)
    {
      var s, p := shape, pos;
      ghost var b0 := board;
      var y := 0;
      while y < |s|
        invariant 0 <= y <= |s|
        invariant LockedUpTo(board, b0, rows, cols, s, p, v, y, 0)
      {
        var x := 0;
        while x < |s[y]|
          invariant 0 <= x <= |s[y]|
          invariant LockedUpTo(board, b0, rows, cols, s, p, v, y, x)
        {
          LockedUpToStep(board, b0, rows, cols, s, p, v, y, x);
          if s[y][x] != 0 {
            var r, c := p.y + y, p.x + x;
            board := board[r := board[r][c := v]];
          }
          x := x + 1;
        }
        LockedUpToRow(board, b0, rows, cols, s, p, v, y);
        y := y + 1;
      }
      LockedUpToAll(board, b0, rows, cols, s, p, v);
    }

    /** Drop every full row, then put empty rows on top until the board has `rows` rows again. */
    method RemoveFullRows()
      requires Valid()
      modifies this`board
      ensures Valid()
      ensures board == Cleared(old(board), rows, cols)
      ensures shape == old(shape) && pos == old(pos) && color == old(color)
    {
      ClearedLayout(board, rows, cols);
      var kept := RowsWithGap(board);
      board := kept;
      while |board| < rows
        invariant |kept| <= |board| <= rows
        invariant board == Blank(|board| - |kept|, cols) + kept
        decreases rows - |board|
      {
        assert Blank(|board| + 1 - |kept|, cols) == [seq(cols, _ => 0)] + Blank(|board| - |kept|, cols);
        board := [seq(cols, _ => 0)] + board;
      }
    }

    /**
     * One tick: move the piece down if it fits; otherwise lock it, spawn the
     * next piece and clear full rows.
     */
    method GameLoop(nextShape: nat, nextColor: nat)
      requires Valid()
      requires nextShape < |Tetrominoes| && nextColor < |Colors|
      modifies this
      ensures Valid()
      ensures old(Fits(board, rows, cols, shape, pos, 0, 1)) ==>
        && board == old(board) && shape == old(shape) && color == old(color)
        && pos == Pos(old(pos.x), old(pos.y) + 1)
      ensures !old(Fits(board, rows, cols, shape, pos, 0, 1)) ==>
        && board == Cleared(Locked(old(board), old(shape), old(pos), IndexOf(Colors, old(color)) + 1), rows, cols)
        && shape == Tetrominoes[nextShape] && pos == Spawn(cols) && color == Colors[nextColor]
    {
      var ok := IsValidMove(0, 1, shape);
      if ok {
        FitsInBounds(board, rows, cols, shape, pos, 0, 1);
        pos := pos.(y := pos.y + 1);
      } else {
        PlaceTetromino(nextShape, nextColor);
        RemoveFullRows();
      }
    }
  }

  /** A freshly spawned template is a tight 0/1 rectangle lying on a roomy board. */
  lemma SpawnedPiece(rows: nat, cols: nat, k: nat)
    requires Roomy(rows, cols) && k < |Tetrominoes|
    ensures IsShape(Tetrominoes[k]) && Tight(Tetrominoes[k])
    ensures InBounds(Tetrominoes[k], Spawn(cols), rows, cols)
  {
    SpawnInBounds(rows, cols);
    TemplateTight(k);
  }

  /**
   * `b` is `b0` with `v` written under the filled cells of `s` at `p` that
   * come before cell (y, x) of the shape in row-major order.
   */
  ghost predicate LockedUpTo(b: Grid, b0: Grid, rows: nat, cols: nat, s: Shape, p: Pos, v: int, y: int, x: int) {
    && HasDims(b, rows, cols)
    && HasDims(b0, rows, cols)
    && forall i, j :: 0 <= i < rows && 0 <= j < cols ==>
         b[i][j] == if Covers(s, p, i, j) && (i - p.y < y || (i - p.y == y && j - p.x < x)) then v else b0[i][j]
  }

  /** Visiting shape cell (y, x) writes `v` under it when it is filled. */
  lemma LockedUpToStep(b: Grid, b0: Grid, rows: nat, cols: nat, s: Shape, p: Pos, v: int, y: nat, x: nat)
    requires LockedUpTo(b, b0, rows, cols, s, p, v, y, x)
    requires y < |s| && x < |s[y]| && InBounds(s, p, rows, cols)
    ensures s[y][x] != 0 ==>
      0 <= p.y + y < rows && 0 <= p.x + x < cols &&
      LockedUpTo(b[p.y + y := b[p.y + y][p.x + x := v]], b0, rows, cols, s, p, v, y, x + 1)
    ensures s[y][x] == 0 ==> LockedUpTo(b, b0, rows, cols, s, p, v, y, x + 1)
  {
  }

  /** Finishing shape row `y` is starting row `y + 1`. */
  lemma LockedUpToRow(b: Grid, b0: Grid, rows: nat, cols: nat, s: Shape, p: Pos, v: int, y: nat)
    requires y < |s| && LockedUpTo(b, b0, rows, cols, s, p, v, y, |s[y]|)
    ensures LockedUpTo(b, b0, rows, cols, s, p, v, y + 1, 0)
  {
  }

  /** Once every shape row is visited the board is the locked board. */
  lemma LockedUpToAll(b: Grid, b0: Grid, rows: nat, cols: nat, s: Shape, p: Pos, v: int)
    requires LockedUpTo(b, b0, rows, cols, s, p, v, |s|, 0)
    ensures b == Locked(b0, s, p, v)
  {
    var l := Locked(b0, s, p, v);
    forall i | 0 <= i < rows
      ensures b[i] == l[i]
    {
      forall j | 0 <= j < cols
        ensures b[i][j] == l[i][j]
      {
      }
    }
  }
}
