# Tetris game state, modelled in Dafny

This project models the game logic of a small browser Tetris (`Tetris/script.js`):
a board of `rows × cols` integer cells (0 empty, 1..7 a palette index plus one),
the catalogue of seven tetromino templates and seven colours, the validity check
of a piece placement, the three moves, rotation, locking a piece, clearing full
rows and one tick of the game loop.

- `Pieces.dfy` (module `Pieces`): the templates, the palette, `indexOf` on the
  palette, and the rotation `reverse(transpose(shape))`.
- `Board.dfy` (module `Board`): the grid, the validity predicate `Fits`, the
  board after locking (`Locked`), the row filter and the cleared board
  (`RowsWithGap`, `Cleared`), with the lemmas about them.
- `Game.dfy` (module `Tetris`): class `Game`, whose fields are the global state
  of the script (`board`, the active piece's `shape`, `pos` and `color`; `rows`
  and `cols` are constants). Its methods are the script's commands. The validity
  check, the locking loop and the clearing loop are written as loops, as in the
  script, and proved against the functions of `Board`. The class invariant
  `Valid()` says that the board keeps its dimensions, that every cell stays in
  0..7, and that the active piece is a 0/1 rectangle with a tight bounding box
  (its first and last rows and columns each hold a filled cell) whose filled
  cells lie on the board, with its anchor in row 0 or below. With the tight box,
  the whole rectangle lies on the board (`Tetris.Game.BoxOnBoard`).

Randomness is a parameter: `InitializeGame`, `PlaceTetromino` and `GameLoop`
take the index of the next template and the index of the next colour.

The rotation `reverse(transpose(shape))` is a quarter turn counter-clockwise:
`rotated[i][j] == shape[j][c-1-i]` for an `r × c` shape.

The validity check has no test against the top edge. The model keeps it that
way. `Fits` requires that the moved anchor is not above row 0, and `Valid()`
keeps the anchor at row 0 or below. Pieces spawn at row 0, only ever move down,
and are checked at row offsets 0 and 1 only.

## Model

| member | source | states |
|---|---|---|
| `Pieces.Generate` | Tetris/script.js:57-60 | the drawn template is one of the seven catalogue shapes, a 0/1 rectangle of 1-2 rows and 2-4 columns |
| `Pieces.IndexOf` | Tetris/script.js:81 | `indexOf`: the first position holding the value, none before it, or -1 when it is absent |
| `Pieces.ColorIndex` | Tetris/script.js:13 | looking up the colour drawn at index k gives back k, so a locked cell holds k+1 |
| `Pieces.Rotated` | Tetris/script.js:127 | rotating an r×c 0/1 rectangle gives a c×r 0/1 rectangle with `rotated[i][j] == shape[j][c-1-i]` (counter-clockwise quarter turn) |
| `Pieces.TemplateTight` | Tetris/script.js:4-12 | every template's first and last rows and columns each hold a filled cell |
| `Pieces.RotatedTight` | Tetris/script.js:127 | rotation keeps that property: each edge of the turned shape is an edge of the original |
| `Pieces.RotatedTwice` | Tetris/script.js:127 | two rotations map cell (i, j) to (r-1-i, c-1-j) |
| `Pieces.RotatedFourTimes` | Tetris/script.js:127 | four rotations give back the original shape |
| `Board.SpawnInBounds` | Tetris/script.js:85-87 | every template placed at the spawn point `Spawn(cols) == (floor(cols/2)-1, 0)` lies on the board if and only if the board has at least 2 rows and 5 columns |
| `Board.FitsInBounds` | Tetris/script.js:62-75 | an accepted placement leaves every filled cell of the piece on the board |
| `Board.LeftWallBlocks` | Tetris/script.js:68 | a piece in column 0 with a filled cell in its first column cannot move left |
| `Board.FloorBlocks` | Tetris/script.js:68 | a piece with a filled cell in the last board row cannot move down |
| `Board.LockedIsBoard` | Tetris/script.js:77-84 | locking with a value in 1..7 keeps the dimensions and every cell in 0..7, writes the value under every filled cell of the piece and leaves every other cell unchanged |
| `Board.LockedOnlyAdds` | Tetris/script.js:78-84 | locking only occupies cells: any placement that fits after locking also fits before |
| `Board.LockedOccupies` | Tetris/script.js:78-84 | a locked piece with a filled cell no longer fits at its own place |
| `Board.RowsWithGap` | Tetris/script.js:91 | the filter keeps at most the input's rows, and each kept row is a row of the input with an empty cell |
| `Board.RowsWithGapAppend` | Tetris/script.js:91 | filtering distributes over concatenation, so kept rows stay in their order |
| `Board.RowsWithGapCount` | Tetris/script.js:91 | kept rows plus full rows make up all the rows |
| `Board.RowsWithGapIdentity` | Tetris/script.js:91 | the filter returns the board unchanged if and only if no row is full |
| `Board.RowsWithGapOneFull` | Tetris/script.js:91 | with exactly one full row, the filter returns the rows above it followed by the rows below it |
| `Board.ClearedLayout` | Tetris/script.js:90-95 | clearing keeps `rows` rows of `cols` cells in 0..7: as many empty rows as there were full rows, on top of the surviving rows in their order |
| `Board.ClearedNoFullRow` | Tetris/script.js:90-95 | after clearing no row is full |
| `Board.ClearedIdentity` | Tetris/script.js:90-95 | clearing a board with no full row returns it unchanged |
| `Board.ClearedIdempotent` | Tetris/script.js:90-95 | clearing twice is clearing once |
| `Board.ClearedOneFullRow` | Tetris/script.js:90-95 | with exactly one full row r, clearing gives an empty row, then rows 0..r-1, then the rows below r |
| `Tetris.Game.constructor` | Tetris/script.js:23-30 | a new game: empty board, the drawn template at the spawn point, the drawn colour, invariant established |
| `Tetris.Game.InitializeGame` | Tetris/script.js:23-30 | (re)start: empty `rows × cols` board, the drawn template at `(floor(cols/2)-1, 0)` with the drawn colour |
| `Tetris.Game.BoxOnBoard` | Tetris/script.js:62-75 | in every reachable state the piece's whole bounding box lies on the board |
| `Tetris.Game.LeftWallBlocksMove` | Tetris/script.js:108-112 | at column 0 a left move fails, whatever the piece |
| `Tetris.Game.RightWallBlocksMove` | Tetris/script.js:114-118 | with the piece's right edge in the last column a right move fails |
| `Tetris.Game.FloorBlocksMove` | Tetris/script.js:120-124 | with the piece's bottom edge in the last row a down move fails |
| `Tetris.Game.IsValidMove` | Tetris/script.js:62-75 | the nested loop with early return answers `Board.Fits`: true exactly when every filled cell lands in a column in [0, cols), a row below `rows` and on an empty cell; it reads the board only inside it |
| `Tetris.Game.MoveLeft` | Tetris/script.js:108-112 | if the piece fits one column left, x decreases by one; otherwise nothing changes; board, shape and colour never change |
| `Tetris.Game.MoveRight` | Tetris/script.js:114-118 | if the piece fits one column right, x increases by one; otherwise nothing changes; board, shape and colour never change |
| `Tetris.Game.MoveDown` | Tetris/script.js:120-124 | if the piece fits one row down, y increases by one; otherwise nothing changes; board, shape and colour never change |
| `Tetris.Game.RotateTetromino` | Tetris/script.js:126-131 | the shape becomes the rotated shape exactly when that fits at the current anchor; board, anchor and colour never change |
| `Tetris.Game.WritePiece` | Tetris/script.js:78-84 | the nested in-place loop leaves the board equal to `Board.Locked`: the old board with the value under every filled cell of the piece |
| `Tetris.Game.PlaceTetromino` | Tetris/script.js:77-88 | the board becomes `Board.Locked` of the old board with palette index + 1 under every filled cell of the piece; the next template and colour appear at the spawn point, with no overlap check |
| `Tetris.Game.RemoveFullRows` | Tetris/script.js:90-95 | the board becomes `Board.Cleared` of the old board (surviving rows under as many empty rows as were removed); the piece is untouched; the invariant (cells in 0..7, dimensions) is kept |
| `Tetris.Game.GameLoop` | Tetris/script.js:97-106 | exactly one of: the piece fits one row down and only y increases; or the piece is locked, the next piece spawned and full rows cleared; the invariant is kept either way |

## Left out

- Drawing (`drawBoard`, `drawTetromino`), the canvas and DOM lookups, the keyboard and touch listeners and `setInterval`: these are input and output around the game state. The five commands are methods; one timer tick is `GameLoop`.
- `Math.random`: the template index and the colour index are parameters of the methods that draw them.
- Tetris.Game.constructor: requires a board of at least 2 rows and 5 columns. On a smaller board some spawned piece sticks out of the board, and the script would then grow a row array or fail when locking; that behaviour is not modelled (`Board.SpawnInBounds` shows the bound is exact).
- Board sizes are whole numbers of cells; a canvas size that is not a multiple of the cell size is not modelled.
- Shapes are values. In the script the active shape is the catalogue array itself until it is rotated. Nothing writes into a shape in place, so this aliasing changes no behaviour.
- Colours are kept as their names. Drawing a cell by looking up `colors[value - 1]` belongs to the renderer.
