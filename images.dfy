/**
 * An image is a fixed grid of colours stored row by row: the cell `grid[y, x]` holds the pixel in
 * column `x` of row `y`. The grid is allocated once, so width and height never change.
 */
module Images {
  import opened Colors
  import opened Grids

  /** Sets every cell of `g` to `c`, row by row: the nested loops of both constructors. */
  method Fill(g: array2<Color>, c: Color)
    modifies g
    ensures forall y, x :: 0 <= y < g.Length0 && 0 <= x < g.Length1 ==> g[y, x] == c
  {
    var y := 0;
    while y < g.Length0
      invariant 0 <= y <= g.Length0
      invariant forall yy, x :: 0 <= yy < y && 0 <= x < g.Length1 ==> g[yy, x] == c
    {
      var x := 0;
      while x < g.Length1
        invariant 0 <= x <= g.Length1
        invariant forall yy, xx :: 0 <= yy < y && 0 <= xx < g.Length1 ==> g[yy, xx] == c
        invariant forall xx :: 0 <= xx < x ==> g[y, xx] == c
      {
        g[y, x] := c;
        x := x + 1;
      }
      y := y + 1;
    }
  }

  class Image {
    /** `Color[height][width]`: row `y`, column `x`. */
    const grid: array2<Color>

    /** width(): the length of a row. */
    function Width(): nat {
      grid.Length1
    }

    /** height(): the number of rows. */
    function Height(): nat {
      grid.Length0
    }

    /** Both dimensions are positive, as both constructors assert. */
    predicate Valid() {
      Width() > 0 && Height() > 0
    }

    /** The image as a value: its rows from top to bottom. */
    ghost function Rows(): (g: Grid)
      reads grid
      ensures IsRect(g, Width(), Height())
      ensures forall y, x :: 0 <= y < Height() && 0 <= x < Width() ==> g[y][x] == grid[y, x]
    {
      seq(grid.Length0, y requires 0 <= y < grid.Length0 reads grid =>
        seq(grid.Length1, x requires 0 <= x < grid.Length1 reads grid => grid[y, x]))
    }

    /** Image(width, height): both positive; every pixel is BLACK. */
    constructor (width: int, height: int)
      requires width > 0 && height > 0
      ensures Valid() && Width() == width && Height() == height
      ensures Rows() == Filled(width, height, Color(BLACK))
      ensures fresh(grid)
    {
      grid := new Color[height, width];
      new;
      Fill(grid, Color(BLACK));
      PointwiseEqual(Rows(), Filled(width, height, Color(BLACK)), width, height);
    }

    /** Image(width, height, bg): both positive; every pixel is a colour with `bg`'s packed value. */
    constructor WithBackground(width: int, height: int, bg: Color)
      requires width > 0 && height > 0
      ensures Valid() && Width() == width && Height() == height
      ensures Rows() == Filled(width, height, Color(bg.rgb))
      ensures fresh(grid)
    {
      grid := new Color[height, width];
      new;
      Fill(grid, Color(bg.rgb));
      PointwiseEqual(Rows(), Filled(width, height, Color(bg.rgb)), width, height);
    }

    /** pixel(x, y): asserts that `(x, y)` is inside the image and answers the colour stored there. */
    function Pixel(x: int, y: int): (c: Color)
      requires 0 <= x < Width() && 0 <= y < Height()
      reads grid
      ensures c == Rows()[y][x]
    {
      grid[y, x]
    }

    /** setPixel(x, y, c): asserts that `(x, y)` is inside the image; stores `c` there and nowhere else. */
    method SetPixel(x: int, y: int, c: Color)
      requires 0 <= x < Width() && 0 <= y < Height()
      modifies grid
      ensures grid[y, x] == c
      ensures forall yy, xx :: 0 <= yy < Height() && 0 <= xx < Width() && (yy != y || xx != x) ==> grid[yy, xx] == old(grid[yy, xx])
    {
      grid[y, x] := c;
    }
  }

  /** Setting a pixel changes the image's value in that one place. */
  lemma SetPixelUpdatesRows(before: Grid, after: Grid, w: nat, h: nat, x: int, y: int, c: Color)
    requires IsRect(before, w, h) && IsRect(after, w, h) && 0 <= x < w && 0 <= y < h
    requires after[y][x] == c
    requires forall yy, xx :: 0 <= yy < h && 0 <= xx < w && (yy != y || xx != x) ==> after[yy][xx] == before[yy][xx]
    ensures after == before[y := before[y][x := c]]
  {
    PointwiseEqual(after, before[y := before[y][x := c]], w, h);
  }
}
