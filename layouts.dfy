/**
 * Playability masks for the board shapes
 * (frontend/clonium-web/src/app/shared/utils/board-layouts.ts).
 * A mask is indexed `mask[y][x]`: `height` rows of `width` entries.
 */
module Layouts {
  import opened Wrappers

  const MaxWidth := 12
  const MaxHeight := 12

  type Mask = seq<seq<bool>>

  /** The RangeError a generator throws for a dimension out of range. */
  datatype LayoutError = WidthOutOfRange | HeightOutOfRange

  /** `m` has exactly `h` rows of `w` entries each. */
  predicate IsMask(m: Mask, w: int, h: int)
  {
    |m| == h && forall y :: 0 <= y < h ==> |m[y]| == w
  }

  /** initialBoard: `height` rows of `width` entries, all false. */
  function InitialBoard(width: nat, height: nat): (m: Mask)
    ensures IsMask(m, width, height)
    ensures forall y, x :: 0 <= y < height && 0 <= x < width ==> !m[y][x]
  {
    seq(height, _ => seq(width, _ => false))
  }

  /** The `row.map((cell, x) => ...)` inside `map((row, y) => ...)`: `f` applied at every coordinate. */
  function MapMask(m: Mask, f: (int, int) -> bool): (r: Mask)
    ensures |r| == |m|
    ensures forall y :: 0 <= y < |m| ==> |r[y]| == |m[y]|
    ensures forall y, x :: 0 <= y < |m| && 0 <= x < |m[y]| ==> r[y][x] == f(x, y)
  {
    seq(|m|, y requires 0 <= y < |m| => seq(|m[y]|, x => f(x, y)))
  }

  /** The shared dimension checks of RectangularLayout and RectangularAndSquaresLayout. */
  function CheckDimensions(width: int, height: int): Option<LayoutError>
  {
    if width <= 0 || width > MaxWidth then Some(WidthOutOfRange)
    else if height <= 0 || height > MaxHeight then Some(HeightOutOfRange)
    else None
  }

  /** The per-cell test of RectangularLayout, offsets fixed at 0. */
  function RectangularCell(x: int, y: int, width: int, height: int): bool
  {
    var offsetX, offsetY := 0, 0;
    if x < offsetX || y < offsetY || x - offsetX >= width || y - offsetY >= height then false else true
  }

  /** RectangularLayout: a `width` x `height` mask in which every cell is playable. */
  function RectangularLayout(width: int, height: int): (r: Result<Mask, LayoutError>)
    ensures r.Failure? <==> !(1 <= width <= MaxWidth && 1 <= height <= MaxHeight)
    ensures r.Failure? ==> r.error == (if 1 <= width <= MaxWidth then HeightOutOfRange else WidthOutOfRange)
    ensures r.Success? ==> IsMask(r.value, width, height)
    ensures r.Success? ==> forall y, x :: 0 <= y < height && 0 <= x < width ==> r.value[y][x]
  {
    match CheckDimensions(width, height)
    case Some(e) => Failure(e)
    case None => Success(MapMask(InitialBoard(width, height), (x, y) => RectangularCell(x, y, width, height)))
  }

  /** The per-cell test of TwoRectangulesLayout: inside the `w1` x `h1` rectangle and outside the centred `w2` x `h2` one. */
  function TwoRectanglesCell(x: int, y: int, w1: int, h1: int, w2: int, h2: int): bool
  {
    var offsetX, offsetY := 0, 0;
    var offsetX1 := (w1 - w2) / 2 + offsetX;
    var offsetY1 := (h1 - h2) / 2 + offsetY;
    if x < offsetX || y < offsetY || x - offsetX >= w1 || y - offsetY >= h1 then false
    else if x < offsetX1 || y < offsetY1 || x - offsetX1 >= w2 || y - offsetY1 >= h2 then true
    else false
  }

  /** The mask TwoRectangulesLayout returns once its checks pass. */
  function TwoRectanglesMask(w1: nat, h1: nat, w2: int, h2: int): Mask
  {
    MapMask(InitialBoard(w1, h1), (x, y) => TwoRectanglesCell(x, y, w1, h1, w2, h2))
  }

  /** The hole of TwoRectangulesLayout: the `w2` x `h2` rectangle whose corner is at (floor((w1 - w2) / 2), floor((h1 - h2) / 2)). */
  predicate InHole(x: int, y: int, w1: int, h1: int, w2: int, h2: int)
  {
    var cx, cy := Floor2(w1 - w2), Floor2(h1 - h2);
    cx <= x < cx + w2 && cy <= y < cy + h2
  }

  /** Math.floor(a / 2), written without the Euclidean division of Dafny. */
  function Floor2(a: int): int
  {
    if a >= 0 then a / 2 else -((1 - a) / 2)
  }

  /**
   * TwoRectangulesLayout as written: it rejects `w1` outside 1..12 and `h1 <= 0`,
   * but bounds `h2`, not `h1`, from above.
   */
  function TwoRectangulesLayout(w1: int, h1: int, w2: int, h2: int): (r: Result<Mask, LayoutError>)
    ensures r.Failure? <==> !(1 <= w1 <= MaxWidth) || h1 <= 0 || h2 > MaxHeight
    ensures r.Failure? ==> r.error == (if 1 <= w1 <= MaxWidth then HeightOutOfRange else WidthOutOfRange)
    ensures r.Success? ==> IsMask(r.value, w1, h1)
    ensures r.Success? ==> forall y, x :: 0 <= y < h1 && 0 <= x < w1 ==>
      (r.value[y][x] <==> !InHole(x, y, w1, h1, w2, h2))
  {
    if w1 <= 0 || w1 > MaxWidth then Failure(WidthOutOfRange)
    else if h1 <= 0 || h2 > MaxHeight then Failure(HeightOutOfRange)
    else Success(TwoRectanglesMask(w1, h1, w2, h2))
  }

  /** A 13-row board gets through the height check of TwoRectangulesLayout. */
  lemma TwoRectanglesAcceptsTallBoard()
    ensures var r := TwoRectangulesLayout(5, 13, 1, 1);
      r.Success? && |r.value| == 13 > MaxHeight
  {
  }

  /** TwoRectangulesLayout with the height check evidently intended: `h1` in 1..12. */
  function TwoRectangulesLayoutChecked(w1: int, h1: int, w2: int, h2: int): (r: Result<Mask, LayoutError>)
    ensures r.Failure? <==> !(1 <= w1 <= MaxWidth && 1 <= h1 <= MaxHeight)
    ensures r.Success? ==> IsMask(r.value, w1, h1) && 1 <= |r.value| <= MaxHeight
    ensures r.Success? ==> forall y, x :: 0 <= y < h1 && 0 <= x < w1 ==>
      (r.value[y][x] <==> !InHole(x, y, w1, h1, w2, h2))
    ensures r.Success? && h2 <= MaxHeight ==> r == TwoRectangulesLayout(w1, h1, w2, h2)
  {
    if w1 <= 0 || w1 > MaxWidth then Failure(WidthOutOfRange)
    else if h1 <= 0 || h1 > MaxHeight then Failure(HeightOutOfRange)
    else Success(TwoRectanglesMask(w1, h1, w2, h2))
  }

  /** The per-cell test of RectangularAndSquaresLayout. */
  function SquaresCell(x: int, y: int, width: int, height: int, squareSide: int): bool
  {
    var offsetX, offsetY := 0, 0;
    var offsetX1 := 4 / 2 + offsetX;
    var offsetY1 := 4 / 2 + offsetY;
    if x < offsetX || y < offsetY || x - offsetX >= width || y - offsetY >= height then false
    else if x < offsetX1 || y < offsetY1 || x - offsetX1 >= width - 4 || y - offsetY1 >= height - 4 then true
    else if (x >= offsetX + 2 + squareSide && x < offsetX + width - 2 - squareSide)
         || (y >= offsetY + 2 + squareSide && y < offsetY + height - 2 - squareSide) then true
    else false
  }

  /**
   * One of the four `s` x `s` squares cut out two cells in from each corner:
   * inside the two-cell border, and within `s` of it both horizontally and vertically.
   */
  predicate InCornerSquare(x: int, y: int, width: int, height: int, s: int)
  {
    2 <= x < width - 2 && 2 <= y < height - 2
    && (x < 2 + s || x >= width - 2 - s)
    && (y < 2 + s || y >= height - 2 - s)
  }

  /**
   * RectangularAndSquaresLayout: a `width` x `height` mask, playable everywhere
   * except in the four corner squares of side `squareSide`; the two-cell border is always playable.
   */
  function RectangularAndSquaresLayout(width: int, height: int, squareSide: int): (r: Result<Mask, LayoutError>)
    ensures r.Failure? <==> !(1 <= width <= MaxWidth && 1 <= height <= MaxHeight)
    ensures r.Failure? ==> r.error == (if 1 <= width <= MaxWidth then HeightOutOfRange else WidthOutOfRange)
    ensures r.Success? ==> IsMask(r.value, width, height)
    ensures r.Success? ==> forall y, x :: 0 <= y < height && 0 <= x < width ==>
      (x < 2 || y < 2 || x >= width - 2 || y >= height - 2 ==> r.value[y][x])
    ensures r.Success? ==> forall y, x :: 0 <= y < height && 0 <= x < width ==>
      (!r.value[y][x] <==> InCornerSquare(x, y, width, height, squareSide))
  {
    match CheckDimensions(width, height)
    case Some(e) => Failure(e)
    case None =>
      var m := MapMask(InitialBoard(width, height), (x, y) => SquaresCell(x, y, width, height, squareSide));
      assert forall y, x :: 0 <= y < height && 0 <= x < width ==>
        (!m[y][x] <==> InCornerSquare(x, y, width, height, squareSide)) by {
        forall y, x | 0 <= y < height && 0 <= x < width
          ensures !m[y][x] <==> InCornerSquare(x, y, width, height, squareSide)
        {
          assert m[y][x] == SquaresCell(x, y, width, height, squareSide);
        }
      }
      Success(m)
  }
}
