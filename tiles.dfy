/** Tile-sheet addressing of `TilesetSprite` (static/js/main.js): a tile index
    is laid out row by row in a sheet `cols` tiles wide. */
module Tiles {

  import opened Arith

  /** The `{ row, col }` record returned by `getTileCoords`. */
  datatype TileCoords = TileCoords(row: int, col: int)

  /** JavaScript's `%` operator: the remainder takes the sign of the dividend
      (Dafny's own `%` is Euclidean and never negative). */
  function JsRemainder(a: int, n: int): (r: int)
    requires n > 0
    ensures a >= 0 ==> 0 <= r < n && r == a % n
    ensures a < 0 ==> -n < r <= 0 && r == -((-a) % n)
  {
    if a >= 0 then a % n else -((-a) % n)
  }

  /** `getTileCoords(index)`: `row = Math.floor(index / cols)`, `col = index % cols`.
      For a positive divisor Dafny's `/` is the floor of the quotient, and the
      column uses JavaScript's truncating remainder. */
  function GetTileCoords(index: int, cols: int): (c: TileCoords)
    requires cols > 0
    ensures index >= 0 ==> c.row >= 0 && 0 <= c.col < cols && c.row * cols + c.col == index
  {
    var row, col := index / cols, JsRemainder(index, cols);
    assert index >= 0 ==> row >= 0 && row * cols + col == index by {
      if index >= 0 {
        DivMod(index, cols);
        DivNonNegative(index, cols);
      }
    }
    TileCoords(row, col)
  }

  /** The tile index a row/column pair stands for: the inverse of `GetTileCoords`. */
  function TileIndex(c: TileCoords, cols: int): int
  {
    c.row * cols + c.col
  }

  /** Every cell of the sheet's non-negative rows is addressed by exactly the
      index `TileIndex` gives it. */
  lemma TileCoordsRoundTrip(c: TileCoords, cols: int)
    requires cols > 0 && c.row >= 0 && 0 <= c.col < cols
    ensures TileIndex(c, cols) >= 0
    ensures GetTileCoords(TileIndex(c, cols), cols) == c
  {
    DivModUnique(TileIndex(c, cols), cols, c.row, c.col);
  }

  /** The frame sequence `createTravelingArrow` gives the arrow in column
      `column`: `Array.from({ length: columns }, (_, i) => column * columns + i)`. */
  function ColumnFrames(column: int, columns: nat): (frames: seq<int>)
    ensures |frames| == columns
    ensures columns > 0 && column >= 0 ==>
      forall i :: 0 <= i < columns ==> GetTileCoords(frames[i], columns) == TileCoords(column, i)
  {
    var frames := seq(columns, i => column * columns + i);
    assert columns > 0 && column >= 0 ==>
      forall i :: 0 <= i < columns ==> GetTileCoords(frames[i], columns) == TileCoords(column, i) by {
      if columns > 0 && column >= 0 {
        forall i | 0 <= i < columns ensures GetTileCoords(frames[i], columns) == TileCoords(column, i) {
          TileCoordsRoundTrip(TileCoords(column, i), columns);
        }
      }
    }
    frames
  }

  /** Each arrow animates through the tiles of its own sheet row: frame `i` of
      column `column` sits at row `column`, column `i`, and lies inside a sheet
      of `rows` rows whenever `column < rows`. */
  lemma ColumnFramesOnRow(column: int, columns: nat, rows: nat)
    requires columns > 0 && 0 <= column
    ensures |ColumnFrames(column, columns)| == columns
    ensures forall i :: 0 <= i < columns ==>
              GetTileCoords(ColumnFrames(column, columns)[i], columns) == TileCoords(column, i)
    ensures column < rows ==>
              forall i :: 0 <= i < columns ==> 0 <= ColumnFrames(column, columns)[i] < columns * rows
  {
    var frames := ColumnFrames(column, columns);
    forall i | 0 <= i < columns
      ensures column < rows ==> 0 <= frames[i] < columns * rows
    {
      if column < rows {
        assert column * columns + i < (column + 1) * columns;
        assert (column + 1) * columns <= rows * columns;
      }
    }
  }
}
