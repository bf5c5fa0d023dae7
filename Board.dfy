/**
 * The playfield: a grid of `rows` rows of `cols` cells, 0 for empty and a
 * palette index plus one for a locked block; the validity check of a
 * placement, locking a piece into the grid, and clearing full rows.
 */
module Board {
  import opened Pieces

  type Grid = seq<seq<int>>

  /** Anchor of the active piece: top-left corner of its shape, y grows downwards. */
  datatype Pos = Pos(x: int, y: int)

  predicate HasDims(b: Grid, rows: nat, cols: nat) {
    |b| == rows && forall i :: 0 <= i < |b| ==> |b[i]| == cols
  }

  /** Every cell is empty or a palette index plus one. */
  predicate CellsInPalette(b: Grid) {
    forall i, j :: 0 <= i < |b| && 0 <= j < |b[i]| ==> 0 <= b[i][j] <= |Colors|
  }

  predicate IsBoard(b: Grid, rows: nat, cols: nat) {
    HasDims(b, rows, cols) && CellsInPalette(b)
  }

  /** `n` empty rows of `cols` cells each. */
  function Blank(n: nat, cols: nat): Grid {
    seq(n, _ => seq(cols, _ => 0))
  }

  /** Where every new piece appears: horizontally centred, top row. */
  function Spawn(cols: nat): Pos {
    Pos(cols / 2 - 1, 0)
  }

  /** Every filled cell of `s` anchored at `p` lies on the board. */
  predicate InBounds(s: Shape, p: Pos, rows: nat, cols: nat) {
    forall y, x :: 0 <= y < |s| && 0 <= x < |s[y]| && s[y][x] != 0 ==>
      0 <= p.x + x < cols && 0 <= p.y + y < rows
  }

  /**
   * The validity check of a placement of `s` at `p` moved by `(dx, dy)`: every
   * filled cell lands in a column in [0, cols), in a row before `rows`, and on
   * an empty cell. There is no check against the top edge; the caller
   * guarantees the shifted anchor is not above row 0.
   */
  predicate Fits(b: Grid, rows: nat, cols: nat, s: Shape, p: Pos, dx: int, dy: int)
    requires HasDims(b, rows, cols) && p.y + dy >= 0
  {
    forall y, x :: 0 <= y < |s| && 0 <= x < |s[y]| && s[y][x] != 0 ==>
      0 <= p.x + x + dx < cols && p.y + y + dy < rows && b[p.y + y + dy][p.x + x + dx] == 0
  }

  /** Board cell (i, j) lies under a filled cell of `s` anchored at `p`. */
  predicate Covers(s: Shape, p: Pos, i: int, j: int) {
    0 <= i - p.y < |s| && 0 <= j - p.x < |s[i - p.y]| && s[i - p.y][j - p.x] != 0
  }

  /** The board after writing `v` into every cell under the piece. */
  function Locked(b: Grid, s: Shape, p: Pos, v: int): Grid {
    seq(|b|, i requires 0 <= i < |b| =>
      seq(|b[i]|, j requires 0 <= j < |b[i]| => if Covers(s, p, i, j) then v else b[i][j]))
  }

  /** The rows of `b` that have an empty cell, in their order: `filter(row => row.some(cell => cell === 0))`. */
  function RowsWithGap(b: Grid): (r: Grid)
    ensures |r| <= |b|
    ensures forall i :: 0 <= i < |r| ==> 0 in r[i] && r[i] in b
  {
    if b == [] then []
    else if 0 in b[0] then [b[0]] + RowsWithGap(b[1..])
    else RowsWithGap(b[1..])
  }

  /** The number of rows of `b` with no empty cell. */
  function FullRows(b: Grid): nat {
    if b == [] then 0
    else (if 0 in b[0] then 0 else 1) + FullRows(b[1..])
  }

  /** The board after clearing: the surviving rows, topped up with empty rows to `rows` rows. */
  function Cleared(b: Grid, rows: nat, cols: nat): Grid
    requires |b| <= rows
  {
    var kept := RowsWithGap(b);
    Blank(rows - |kept|, cols) + kept
  }

  // ---------------------------------------------------------------------------
  // Spawning

  /** The board is large enough for every template to appear at the spawn point. */
  predicate Roomy(rows: nat, cols: nat) {
    rows >= 2 && cols >= 5
  }

  /** Every template spawns inside the board exactly when the board is at least 2 by 5. */
  lemma SpawnInBounds(rows: nat, cols: nat)
    ensures Roomy(rows, cols) <==>
      forall k :: 0 <= k < |Tetrominoes| ==> InBounds(Tetrominoes[k], Spawn(cols), rows, cols)
  {
    if Roomy(rows, cols) {
      forall k | 0 <= k < |Tetrominoes|
        ensures InBounds(Tetrominoes[k], Spawn(cols), rows, cols)
      {
        var s := Generate(k);
      }
    } else if cols < 5 {
      assert Tetrominoes[0][0][0] == 1 && Tetrominoes[0][0][3] == 1;
      assert !InBounds(Tetrominoes[0], Spawn(cols), rows, cols);
    } else {
      assert Tetrominoes[1][1][0] == 1;
      assert !InBounds(Tetrominoes[1], Spawn(cols), rows, cols);
    }
  }

  // ---------------------------------------------------------------------------
  // Validity

  /** An accepted move leaves the piece on the board at its new anchor. */
  lemma FitsInBounds(b: Grid, rows: nat, cols: nat, s: Shape, p: Pos, dx: int, dy: int)
    requires HasDims(b, rows, cols) && p.y + dy >= 0
    requires Fits(b, rows, cols, s, p, dx, dy)
    ensures InBounds(s, Pos(p.x + dx, p.y + dy), rows, cols)
  {
  }

  /** A piece with a filled cell in its first column cannot move left from column 0. */
  lemma LeftWallBlocks(b: Grid, rows: nat, cols: nat, s: Shape, p: Pos, y: nat)
    requires HasDims(b, rows, cols) && p.y >= 0
    requires y < |s| && |s[y]| > 0 && s[y][0] != 0 && p.x == 0
    ensures !Fits(b, rows, cols, s, p, -1, 0)
  {
  }

  /** A piece with a filled cell in the last row of the board cannot move down. */
  lemma FloorBlocks(b: Grid, rows: nat, cols: nat, s: Shape, p: Pos, y: nat, x: nat)
    requires HasDims(b, rows, cols) && p.y >= 0
    requires y < |s| && x < |s[y]| && s[y][x] != 0 && p.y + y == rows - 1
    ensures !Fits(b, rows, cols, s, p, 0, 1)
  {
  }

  // ---------------------------------------------------------------------------
  // Locking

  /**
   * Locking with a palette value keeps a board a board, writes `v` under every
   * filled cell of the piece and nowhere else.
   */
  lemma LockedIsBoard(b: Grid, rows: nat, cols: nat, s: Shape, p: Pos, v: int)
    requires IsBoard(b, rows, cols) && 1 <= v <= |Colors|
    requires InBounds(s, p, rows, cols)
    ensures IsBoard(Locked(b, s, p, v), rows, cols)
    ensures forall y, x :: 0 <= y < |s| && 0 <= x < |s[y]| && s[y][x] != 0 ==>
      Locked(b, s, p, v)[p.y + y][p.x + x] == v
    ensures forall i, j :: 0 <= i < rows && 0 <= j < cols && !Covers(s, p, i, j) ==>
      Locked(b, s, p, v)[i][j] == b[i][j]
  {
  }

  /** Locking only adds blocks: whatever fits on the locked board fits on the board before. */
  lemma LockedOnlyAdds(b: Grid, rows: nat, cols: nat, s: Shape, p: Pos, v: int,
                       t: Shape, q: Pos, dx: int, dy: int)
    requires HasDims(b, rows, cols) && q.y + dy >= 0 && v != 0
    requires Fits(Locked(b, s, p, v), rows, cols, t, q, dx, dy)
    ensures Fits(b, rows, cols, t, q, dx, dy)
  {
  }

  /** A locked piece with a palette value occupies its own footprint: it no longer fits where it was. */
  lemma LockedOccupies(b: Grid, rows: nat, cols: nat, s: Shape, p: Pos, v: int, y: nat, x: nat)
    requires HasDims(b, rows, cols) && p.y >= 0 && v != 0
    requires y < |s| && x < |s[y]| && s[y][x] != 0
    ensures !Fits(Locked(b, s, p, v), rows, cols, s, p, 0, 0)
  {
  }

  // ---------------------------------------------------------------------------
  // Clearing

  /** Filtering distributes over concatenation. */
  lemma {:induction false} RowsWithGapAppend(a: Grid, c: Grid)
    ensures RowsWithGap(a + c) == RowsWithGap(a) + RowsWithGap(c)
  {
    if a != [] {
      assert (a + c)[0] == a[0] && (a + c)[1..] == a[1..] + c;
      RowsWithGapAppend(a[1..], c);
      if 0 in a[0] {
        calc {
          RowsWithGap(a + c);
          [a[0]] + RowsWithGap(a[1..] + c);
          [a[0]] + (RowsWithGap(a[1..]) + RowsWithGap(c));
          ([a[0]] + RowsWithGap(a[1..])) + RowsWithGap(c);
        }
      }
    } else {
      assert a + c == c;
    }
  }

  /** Every row is either kept or counted as full. */
  lemma {:induction false} RowsWithGapCount(b: Grid)
    ensures |RowsWithGap(b)| + FullRows(b) == |b|
  {
    if b != [] {
      RowsWithGapCount(b[1..]);
    }
  }

  /** The filter keeps the board exactly when no row is full. */
  lemma {:induction false} RowsWithGapIdentity(b: Grid)
    ensures RowsWithGap(b) == b <==> forall i :: 0 <= i < |b| ==> 0 in b[i]
  {
    if b != [] {
      RowsWithGapIdentity(b[1..]);
      if RowsWithGap(b) == b {
        assert forall i :: 0 <= i < |b| ==> 0 in b[i] by {
          forall i | 0 <= i < |b| ensures 0 in b[i] {
            assert 0 in RowsWithGap(b)[i];
          }
        }
      }
      if forall i :: 0 <= i < |b| ==> 0 in b[i] {
        assert 0 in b[0];
        assert forall i :: 0 <= i < |b[1..]| ==> 0 in b[1..][i] by {
          forall i | 0 <= i < |b[1..]| ensures 0 in b[1..][i] {
            assert b[1..][i] == b[i + 1];
          }
        }
      }
    }
  }

  /** The filter keeps each row that has an empty cell, and only those, in their order. */
  lemma {:induction false} RowsWithGapOneFull(b: Grid, r: nat)
    requires r < |b| && 0 !in b[r]
    requires forall i :: 0 <= i < |b| && i != r ==> 0 in b[i]
    ensures RowsWithGap(b) == b[..r] + b[r + 1..]
  {
    assert b == b[..r] + ([b[r]] + b[r + 1..]);
    RowsWithGapAppend(b[..r], [b[r]] + b[r + 1..]);
    RowsWithGapAppend([b[r]], b[r + 1..]);
    assert RowsWithGap([b[r]]) == [] by {
      assert [b[r]][1..] == [];
    }
    RowsWithGapIdentity(b[..r]);
    RowsWithGapIdentity(b[r + 1..]);
  }

  /**
   * Clearing keeps the dimensions and the cell values; the number of empty rows
   * put on top equals the number of full rows removed, and the surviving rows
   * sit below them in their order.
   */
  lemma ClearedLayout(b: Grid, rows: nat, cols: nat)
    requires IsBoard(b, rows, cols)
    ensures IsBoard(Cleared(b, rows, cols), rows, cols)
    ensures Cleared(b, rows, cols) == Blank(FullRows(b), cols) + RowsWithGap(b)
  {
    RowsWithGapCount(b);
  }

  /** After clearing no row is full (a row has at least one cell). */
  lemma ClearedNoFullRow(b: Grid, rows: nat, cols: nat)
    requires |b| <= rows && cols >= 1
    ensures forall i :: 0 <= i < rows ==> 0 in Cleared(b, rows, cols)[i]
  {
    var kept := RowsWithGap(b);
    var c := Cleared(b, rows, cols);
    forall i | 0 <= i < rows
      ensures 0 in c[i]
    {
      if i < rows - |kept| {
        assert c[i][0] == 0;
      } else {
        assert c[i] == kept[i - (rows - |kept|)];
      }
    }
  }

  /** Clearing a board with no full row changes nothing. */
  lemma ClearedIdentity(b: Grid, rows: nat, cols: nat)
    requires |b| == rows
    requires forall i :: 0 <= i < |b| ==> 0 in b[i]
    ensures Cleared(b, rows, cols) == b
  {
    RowsWithGapIdentity(b);
    assert Blank(0, cols) == [];
  }

  /** Clearing twice is clearing once. */
  lemma ClearedIdempotent(b: Grid, rows: nat, cols: nat)
    requires IsBoard(b, rows, cols) && cols >= 1
    ensures Cleared(Cleared(b, rows, cols), rows, cols) == Cleared(b, rows, cols)
  {
    ClearedLayout(b, rows, cols);
    ClearedNoFullRow(b, rows, cols);
    ClearedIdentity(Cleared(b, rows, cols), rows, cols);
  }

  /** With exactly one full row `r`, clearing drops it, shifts the rows above it down and puts one empty row on top. */
  lemma ClearedOneFullRow(b: Grid, rows: nat, cols: nat, r: nat)
    requires |b| == rows && r < rows && 0 !in b[r]
    requires forall i :: 0 <= i < |b| && i != r ==> 0 in b[i]
    ensures Cleared(b, rows, cols) == [seq(cols, _ => 0)] + b[..r] + b[r + 1..]
  {
    RowsWithGapOneFull(b, r);
    assert Blank(1, cols) == [seq(cols, _ => 0)];
  }
}
