/**
 * The value of an image: its rows of pixels from top to bottom, `g[y][x]` being column `x` of
 * row `y`, and the geometric and colour transforms of the image utilities on that value.
 */
module Grids {
  import opened Colors

  type Grid = seq<seq<Color>>

  /** `g` has `h` rows of `w` pixels each. */
  predicate IsRect(g: Grid, w: int, h: int) {
    |g| == h && forall y :: 0 <= y < h ==> |g[y]| == w
  }

  /** Two rectangles of the same size with the same pixel everywhere are the same grid. */
  lemma PointwiseEqual(a: Grid, b: Grid, w: int, h: int)
    requires IsRect(a, w, h) && IsRect(b, w, h)
    requires forall y, x :: 0 <= y < h && 0 <= x < w ==> a[y][x] == b[y][x]
    ensures a == b
  {
    forall y | 0 <= y < h
      ensures a[y] == b[y]
    {
      assert forall x :: 0 <= x < w ==> a[y][x] == b[y][x];
    }
  }

  /** The `w` by `h` grid of `c` alone. */
  function Filled(w: nat, h: nat, c: Color): (r: Grid)
    ensures IsRect(r, w, h)
  {
    seq(h, y requires 0 <= y < h => seq(w, x requires 0 <= x < w => c))
  }

  /** Mirrors the rows: row `y` becomes row `h - 1 - y`. */
  function FlipRows(g: Grid): (r: Grid)
    ensures |r| == |g|
  {
    seq(|g|, y requires 0 <= y < |g| => g[|g| - 1 - y])
  }

  /** Mirrors every row: column `x` becomes column `w - 1 - x`. */
  function FlipColumns(g: Grid): (r: Grid)
    ensures |r| == |g|
  {
    seq(|g|, y requires 0 <= y < |g| => seq(|g[y]|, x requires 0 <= x < |g[y]| => g[y][|g[y]| - 1 - x]))
  }

  /** Turns a quarter to the left: a `w` by `h` grid becomes `h` by `w`, old `(x, y)` at `(h - 1 - y, x)`. */
  function TurnLeft(g: Grid, w: nat, h: nat): (r: Grid)
    requires IsRect(g, w, h)
    ensures IsRect(r, h, w)
  {
    seq(w, y requires 0 <= y < w => seq(h, x requires 0 <= x < h => g[h - 1 - x][y]))
  }

  /** Turns a quarter to the right: a `w` by `h` grid becomes `h` by `w`, old `(x, y)` at `(y, w - 1 - x)`. */
  function TurnRight(g: Grid, w: nat, h: nat): (r: Grid)
    requires IsRect(g, w, h)
    ensures IsRect(r, h, w)
  {
    seq(w, y requires 0 <= y < w => seq(h, x requires 0 <= x < h => g[x][w - 1 - y]))
  }

  /** Turns half a turn: old `(x, y)` at `(w - 1 - x, h - 1 - y)`. */
  function TurnHalf(g: Grid, w: nat, h: nat): (r: Grid)
    requires IsRect(g, w, h)
    ensures IsRect(r, w, h)
  {
    seq(h, y requires 0 <= y < h => seq(w, x requires 0 <= x < w => g[h - 1 - y][w - 1 - x]))
  }

  /** Doubles the width: old `(x, y)` at `(2x, y)` and `(2x + 1, y)`. */
  function StretchColumns(g: Grid, w: nat, h: nat): (r: Grid)
    requires IsRect(g, w, h)
    ensures IsRect(r, 2 * w, h)
  {
    seq(h, y requires 0 <= y < h => seq(2 * w, x requires 0 <= x < 2 * w => g[y][x / 2]))
  }

  /** Doubles the height: old `(x, y)` at `(x, 2y)` and `(x, 2y + 1)`. */
  function StretchRows(g: Grid, w: nat, h: nat): (r: Grid)
    requires IsRect(g, w, h)
    ensures IsRect(r, w, 2 * h)
  {
    seq(2 * h, y requires 0 <= y < 2 * h => g[y / 2])
  }

  /** Keeps the even columns: the reading of a stretched grid that recovers the original. */
  function EvenColumns(g: Grid, w: nat, h: nat): (r: Grid)
    requires IsRect(g, 2 * w, h)
    ensures IsRect(r, w, h)
  {
    seq(h, y requires 0 <= y < h => seq(w, x requires 0 <= x < w => g[y][2 * x]))
  }

  /** Keeps the even rows: the reading of a stretched grid that recovers the original. */
  function EvenRows(g: Grid, w: nat, h: nat): (r: Grid)
    requires IsRect(g, w, 2 * h)
    ensures IsRect(r, w, h)
  {
    seq(h, y requires 0 <= y < h => g[2 * y])
  }

  /** The `cw` by `ch` block whose top-left corner is `(x0, y0)`. */
  function Block(g: Grid, w: nat, h: nat, x0: nat, y0: nat, cw: nat, ch: nat): (r: Grid)
    requires IsRect(g, w, h) && x0 + cw <= w && y0 + ch <= h
    ensures IsRect(r, cw, ch)
  {
    seq(ch, y requires 0 <= y < ch => seq(cw, x requires 0 <= x < cw => g[y0 + y][x0 + x]))
  }

  /** Applies `f` to every pixel. */
  function Recolor(g: Grid, f: Color -> Color): (r: Grid)
    ensures |r| == |g| && forall y :: 0 <= y < |g| ==> |r[y]| == |g[y]|
  {
    seq(|g|, y requires 0 <= y < |g| => seq(|g[y]|, x requires 0 <= x < |g[y]| => f(g[y][x])))
  }

  /** Mirroring the rows twice gives the grid back. */
  lemma FlipRowsTwice(g: Grid)
    ensures FlipRows(FlipRows(g)) == g
  {
    var r := FlipRows(FlipRows(g));
    forall y | 0 <= y < |g|
      ensures r[y] == g[y]
    {
      assert FlipRows(g)[|g| - 1 - y] == g[y];
    }
  }

  /** Mirroring the columns twice gives the grid back. */
  lemma FlipColumnsTwice(g: Grid)
    ensures FlipColumns(FlipColumns(g)) == g
  {
    var once := FlipColumns(g);
    var r := FlipColumns(once);
    forall y | 0 <= y < |g|
      ensures r[y] == g[y]
    {
      assert |once[y]| == |g[y]|;
      forall x | 0 <= x < |g[y]|
        ensures r[y][x] == g[y][x]
      {
        assert once[y][|g[y]| - 1 - x] == g[y][x];
      }
    }
  }

  /** A half turn is both mirrors, in either order. */
  lemma TurnHalfIsBothFlips(g: Grid, w: nat, h: nat)
    requires IsRect(g, w, h)
    ensures TurnHalf(g, w, h) == FlipRows(FlipColumns(g)) == FlipColumns(FlipRows(g))
  {
    var half := TurnHalf(g, w, h);
    var rc := FlipRows(FlipColumns(g));
    var cr := FlipColumns(FlipRows(g));
    assert IsRect(rc, w, h) && IsRect(cr, w, h) by {
      assert IsRect(FlipColumns(g), w, h);
      assert IsRect(FlipRows(g), w, h);
    }
    forall y, x | 0 <= y < h && 0 <= x < w
      ensures half[y][x] == rc[y][x] && half[y][x] == cr[y][x]
    {
      assert rc[y] == FlipColumns(g)[h - 1 - y];
      assert FlipRows(g)[y] == g[h - 1 - y];
    }
    PointwiseEqual(half, rc, w, h);
    PointwiseEqual(half, cr, w, h);
  }

  /** A quarter turn right undoes a quarter turn left, and the other way round. */
  lemma QuarterTurnsUndo(g: Grid, w: nat, h: nat)
    requires IsRect(g, w, h)
    ensures TurnRight(TurnLeft(g, w, h), h, w) == g
    ensures TurnLeft(TurnRight(g, w, h), h, w) == g
  {
    var lr := TurnRight(TurnLeft(g, w, h), h, w);
    var rl := TurnLeft(TurnRight(g, w, h), h, w);
    forall y, x | 0 <= y < h && 0 <= x < w
      ensures lr[y][x] == g[y][x] && rl[y][x] == g[y][x]
    {
      assert lr[y][x] == TurnLeft(g, w, h)[x][h - 1 - y];
      assert rl[y][x] == TurnRight(g, w, h)[w - 1 - x][y];
    }
    PointwiseEqual(lr, g, w, h);
    PointwiseEqual(rl, g, w, h);
  }

  /** Two quarter turns to the left are a half turn. */
  lemma TwoLeftTurnsAreHalf(g: Grid, w: nat, h: nat)
    requires IsRect(g, w, h)
    ensures TurnLeft(TurnLeft(g, w, h), h, w) == TurnHalf(g, w, h)
  {
    var ll := TurnLeft(TurnLeft(g, w, h), h, w);
    var half := TurnHalf(g, w, h);
    forall y, x | 0 <= y < h && 0 <= x < w
      ensures ll[y][x] == half[y][x]
    {
      assert ll[y][x] == TurnLeft(g, w, h)[w - 1 - x][y];
    }
    PointwiseEqual(ll, half, w, h);
  }

  /** Reading the even columns of a widened grid recovers the original. */
  lemma StretchColumnsUndone(g: Grid, w: nat, h: nat)
    requires IsRect(g, w, h)
    ensures EvenColumns(StretchColumns(g, w, h), w, h) == g
  {
    var r := EvenColumns(StretchColumns(g, w, h), w, h);
    forall y, x | 0 <= y < h && 0 <= x < w
      ensures r[y][x] == g[y][x]
    {
      assert r[y][x] == StretchColumns(g, w, h)[y][2 * x];
    }
    PointwiseEqual(r, g, w, h);
  }

  /** Reading the even rows of a heightened grid recovers the original. */
  lemma StretchRowsUndone(g: Grid, w: nat, h: nat)
    requires IsRect(g, w, h)
    ensures EvenRows(StretchRows(g, w, h), w, h) == g
  {
    var r := EvenRows(StretchRows(g, w, h), w, h);
    forall y | 0 <= y < h
      ensures r[y] == g[y]
    {
      assert r[y] == StretchRows(g, w, h)[2 * y];
    }
  }

  /** A block of a block is one block at the summed offset. */
  lemma BlockOfBlock(g: Grid, w: nat, h: nat, x1: nat, y1: nat, w1: nat, h1: nat, x2: nat, y2: nat, w2: nat, h2: nat)
    requires IsRect(g, w, h) && x1 + w1 <= w && y1 + h1 <= h
    requires x2 + w2 <= w1 && y2 + h2 <= h1
    ensures Block(Block(g, w, h, x1, y1, w1, h1), w1, h1, x2, y2, w2, h2) == Block(g, w, h, x1 + x2, y1 + y2, w2, h2)
  {
    var inner := Block(g, w, h, x1, y1, w1, h1);
    var twice := Block(inner, w1, h1, x2, y2, w2, h2);
    var once := Block(g, w, h, x1 + x2, y1 + y2, w2, h2);
    forall y, x | 0 <= y < h2 && 0 <= x < w2
      ensures twice[y][x] == once[y][x]
    {
      assert twice[y][x] == inner[y2 + y][x2 + x];
    }
    PointwiseEqual(twice, once, w2, h2);
  }

  /** Recolouring twice with `f` gives the grid back when `f` undoes itself on its pixels. */
  lemma RecolorTwice(g: Grid, f: Color -> Color)
    requires forall y, x :: 0 <= y < |g| && 0 <= x < |g[y]| ==> f(f(g[y][x])) == g[y][x]
    ensures Recolor(Recolor(g, f), f) == g
  {
    var once := Recolor(g, f);
    var r := Recolor(once, f);
    forall y | 0 <= y < |g|
      ensures r[y] == g[y]
    {
      forall x | 0 <= x < |g[y]|
        ensures r[y][x] == g[y][x]
      {
        assert once[y][x] == f(g[y][x]);
      }
    }
  }

  /**
   * Swaps the top-left corner block of `w / 2` by `h / 2` pixels with the bottom-right one, each
   * pixel with its half-turn partner; everything else stays.
   */
  function TurnCorners(g: Grid, w: nat, h: nat): (r: Grid)
    requires IsRect(g, w, h)
    ensures IsRect(r, w, h)
  {
    seq(h, y requires 0 <= y < h => seq(w, x requires 0 <= x < w =>
      if InCorners(w, h, x, y) then g[h - 1 - y][w - 1 - x] else g[y][x]))
  }

  /** `(x, y)` lies in the top-left `w / 2` by `h / 2` block or in its half-turn image. */
  predicate InCorners(w: int, h: int, x: int, y: int) {
    (x < w / 2 && y < h / 2) || (w - 1 - x < w / 2 && h - 1 - y < h / 2)
  }

  /** Swapping the corners twice gives the grid back. */
  lemma TurnCornersTwice(g: Grid, w: nat, h: nat)
    requires IsRect(g, w, h)
    ensures TurnCorners(TurnCorners(g, w, h), w, h) == g
  {
    var once := TurnCorners(g, w, h);
    var twice := TurnCorners(once, w, h);
    forall y, x | 0 <= y < h && 0 <= x < w
      ensures twice[y][x] == g[y][x]
    {
      if InCorners(w, h, x, y) {
        assert InCorners(w, h, w - 1 - x, h - 1 - y);
        assert twice[y][x] == once[h - 1 - y][w - 1 - x];
      }
    }
    PointwiseEqual(twice, g, w, h);
  }

  /** On the two corner blocks, swapping the corners is the half turn. */
  lemma TurnCornersAgreesOnCorners(g: Grid, w: nat, h: nat, x: int, y: int)
    requires IsRect(g, w, h) && 0 <= x < w && 0 <= y < h && InCorners(w, h, x, y)
    ensures TurnCorners(g, w, h)[y][x] == TurnHalf(g, w, h)[y][x]
  {
  }

  /** Paints the inclusive block of columns `x0..x1` and rows `y0..y1` with `c`. */
  function FillBlock(g: Grid, x0: int, y0: int, x1: int, y1: int, c: Color): (r: Grid)
    ensures |r| == |g| && forall y :: 0 <= y < |g| ==> |r[y]| == |g[y]|
  {
    seq(|g|, y requires 0 <= y < |g| => seq(|g[y]|, x requires 0 <= x < |g[y]| =>
      if x0 <= x <= x1 && y0 <= y <= y1 then c else g[y][x]))
  }

  /** Painting the same block twice is painting it once. */
  lemma FillBlockTwice(g: Grid, x0: int, y0: int, x1: int, y1: int, c: Color)
    ensures FillBlock(FillBlock(g, x0, y0, x1, y1, c), x0, y0, x1, y1, c) == FillBlock(g, x0, y0, x1, y1, c)
  {
    var once := FillBlock(g, x0, y0, x1, y1, c);
    var twice := FillBlock(once, x0, y0, x1, y1, c);
    forall y | 0 <= y < |g|
      ensures twice[y] == once[y]
    {
      assert forall x :: 0 <= x < |g[y]| ==> twice[y][x] == once[y][x];
    }
  }
}
