/**
 * The piece catalogue of the game: the seven tetromino templates, the colour
 * palette, `indexOf` on the palette, and the rotation of a shape.
 */
module Pieces {

  /** One rotation state of a piece: rows of cells, 1 for filled and 0 for empty. */
  type Shape = seq<seq<int>>

  /** The seven templates: line, square, T, S, Z, L, J. */
  const Tetrominoes: seq<Shape> := [
    [[1, 1, 1, 1]],
    [[1, 1], [1, 1]],
    [[1, 1, 1], [0, 1, 0]],
    [[1, 1, 0], [0, 1, 1]],
    [[0, 1, 1], [1, 1, 0]],
    [[1, 1, 1], [1, 0, 0]],
    [[1, 1, 1], [0, 0, 1]]
  ]

  /** The palette; a board cell holds a palette index plus one. */
  const Colors: seq<string> := ["red", "yellow", "purple", "green", "blue", "orange", "cyan"]

  /** A non-empty rectangular 0/1 matrix. */
  predicate IsShape(s: Shape) {
    && |s| >= 1
    && |s[0]| >= 1
    && (forall i :: 0 <= i < |s| ==> |s[i]| == |s[0]|)
    && (forall i, j :: 0 <= i < |s| && 0 <= j < |s[i]| ==> s[i][j] == 0 || s[i][j] == 1)
  }

  /**
   * The bounding box of the shape is tight: its first and last rows and its
   * first and last columns each hold a filled cell.
   */
  predicate Tight(s: Shape)
    requires IsShape(s)
  {
    && 1 in s[0]
    && 1 in s[|s| - 1]
    && (exists i :: 0 <= i < |s| && s[i][0] != 0)
    && (exists i :: 0 <= i < |s| && s[i][|s[0]| - 1] != 0)
  }

  /** The template drawn for a random index `k` (the randomness is the parameter). */
  function Generate(k: nat): (s: Shape)
    requires k < |Tetrominoes|
    ensures s in Tetrominoes
    ensures IsShape(s) && 1 <= |s| <= 2 && 2 <= |s[0]| <= 4
  {
    Tetrominoes[k]
  }

  /** Every template has a tight bounding box. */
  lemma TemplateTight(k: nat)
    requires k < |Tetrominoes|
    ensures IsShape(Tetrominoes[k]) && Tight(Tetrominoes[k])
  {
    var s := Generate(k);
    // Only Z starts its first column, and only S its last column, in the second row.
    assert s[if k == 4 then 1 else 0][0] == 1;
    assert s[if k == 3 then 1 else 0][|s[0]| - 1] == 1;
    assert s[0][1] == 1;
    assert s[|s| - 1][if k == 5 then 0 else if k == 6 then 2 else 1] == 1;
  }

  /** `Array.prototype.indexOf`: the first position of `x` in `s`, or -1. */
  function IndexOf<T(==)>(s: seq<T>, x: T): (r: int)
    ensures x in s ==> 0 <= r < |s| && s[r] == x && x !in s[..r]
    ensures x !in s ==> r == -1
  {
    if s == [] then -1
    else if s[0] == x then 0
    else
      var k := IndexOf(s[1..], x);
      if k < 0 then -1 else k + 1
  }

  /** Looking a palette colour up by name gives back the index it was drawn at. */
  lemma ColorIndex(k: nat)
    requires k < |Colors|
    ensures IndexOf(Colors, Colors[k]) == k
  {
  }

  /** Rows become columns: `t[i][j] == s[j][i]`. */
  function Transpose(s: Shape): Shape
    requires IsShape(s)
  {
    seq(|s[0]|, i requires 0 <= i < |s[0]| => seq(|s|, j requires 0 <= j < |s| => s[j][i]))
  }

  function Reverse<T>(s: seq<T>): seq<T> {
    seq(|s|, i requires 0 <= i < |s| => s[|s| - 1 - i])
  }

  /**
   * The rotation used by the game: transpose, then reverse the order of the
   * rows. For an r-by-c shape this is the c-by-r shape turned a quarter turn
   * counter-clockwise. A new matrix is built; the argument is a value, so a
   * template is never changed by rotating it.
   */
  function Rotated(s: Shape): (r: Shape)
    requires IsShape(s)
    ensures IsShape(r) && |r| == |s[0]| && |r[0]| == |s|
    ensures forall i, j :: 0 <= i < |r| && 0 <= j < |r[i]| ==> r[i][j] == s[j][|s[0]| - 1 - i]
  {
    Reverse(Transpose(s))
  }

  /** A quarter turn keeps the bounding box tight: each edge of the turned shape is an edge of the original. */
  lemma RotatedTight(s: Shape)
    requires IsShape(s) && Tight(s)
    ensures Tight(Rotated(s))
  {
    var r, c := |s|, |s[0]|;
    var t := Rotated(s);
    var a :| 0 <= a < r && s[a][c - 1] != 0;
    assert t[0][a] == 1;
    var b :| 0 <= b < r && s[b][0] != 0;
    assert t[c - 1][b] == 1;
    var d :| 0 <= d < c && s[0][d] == 1;
    assert t[c - 1 - d][0] != 0;
    var e :| 0 <= e < c && s[r - 1][e] == 1;
    assert t[c - 1 - e][r - 1] != 0;
  }

  /** `h` is `s` turned by half a turn: cell (i, j) moved to the diagonally opposite cell. */
  ghost predicate HalfTurnOf(h: Shape, s: Shape)
    requires IsShape(s)
  {
    && |h| == |s|
    && (forall i :: 0 <= i < |h| ==> |h[i]| == |s[0]|)
    && (forall i, j :: 0 <= i < |s| && 0 <= j < |s[0]| ==> h[i][j] == s[|s| - 1 - i][|s[0]| - 1 - j])
  }

  /** Two rotations make a half turn. */
  lemma RotatedTwice(s: Shape)
    requires IsShape(s)
    ensures IsShape(Rotated(Rotated(s)))
    ensures HalfTurnOf(Rotated(Rotated(s)), s)
  {
  }

  /** Two half turns give back the original shape. */
  lemma HalfTurnTwice(s: Shape, h: Shape, f: Shape)
    requires IsShape(s) && IsShape(h)
    requires HalfTurnOf(h, s) && HalfTurnOf(f, h)
    ensures f == s
  {
    forall i | 0 <= i < |s|
      ensures f[i] == s[i]
    {
      forall j | 0 <= j < |s[i]|
        ensures f[i][j] == s[i][j]
      {
        assert f[i][j] == h[|s| - 1 - i][|s[0]| - 1 - j];
      }
    }
  }

  /** Four rotations give back the original shape, cell for cell. */
  lemma RotatedFourTimes(s: Shape)
    requires IsShape(s)
    ensures Rotated(Rotated(Rotated(Rotated(s)))) == s
  {
    var h := Rotated(Rotated(s));
    RotatedTwice(s);
    RotatedTwice(h);
    HalfTurnTwice(s, h, Rotated(Rotated(h)));
  }
}
