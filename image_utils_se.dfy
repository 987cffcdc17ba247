/**
 * Transforms that change the image they are given: mirrors and a corner swap by exchanging
 * pixel pairs, channel swaps and greyscale pixel by pixel, and painting a rectangle or a disc.
 */
module ImageUtilsSE {
  import opened Arithmetic
  import opened Colors
  import opened Grids
  import opened Images

  /** flipHorizontal: exchanges row `y` with row `h - 1 - y` for every `y < h / 2`, mirroring the rows. */
  method FlipHorizontal(img: Image)
    modifies img.grid
    ensures img.Rows() == FlipRows(old(img.Rows()))
  {
    var h := img.Height();
    var y := 0;
    while y < h / 2
      invariant 0 <= y <= h / 2
      invariant forall yy, x :: 0 <= yy < img.grid.Length0 && 0 <= x < img.grid.Length1 ==>
        img.grid[yy, x] == if yy < y || h - 1 - yy < y then old(img.grid[h - 1 - yy, x]) else old(img.grid[yy, x])
    {
      ExchangeRows(img, y);
      y := y + 1;
    }
    PointwiseEqual(img.Rows(), FlipRows(old(img.Rows())), img.Width(), h);
  }

  /** The inner loop of `flipHorizontal`: exchanges row `y` with row `h - 1 - y`, pixel by pixel. */
  method ExchangeRows(img: Image, y: int)
    requires 0 <= y < img.grid.Length0 / 2
    modifies img.grid
    ensures forall yy, x :: 0 <= yy < img.grid.Length0 && 0 <= x < img.grid.Length1 ==>
      img.grid[yy, x] == if yy == y || yy == img.grid.Length0 - 1 - y then old(img.grid[img.grid.Length0 - 1 - yy, x]) else old(img.grid[yy, x])
  {
    var h := img.Height();
    var x := 0;
    while x < img.Width()
      invariant 0 <= x <= img.Width()
      invariant forall yy, xx :: 0 <= yy < h && 0 <= xx < img.grid.Length1 ==>
        img.grid[yy, xx] == if (yy == y || yy == h - 1 - y) && xx < x then old(img.grid[h - 1 - yy, xx]) else old(img.grid[yy, xx])
    {
      var temp := img.Pixel(x, y);
      img.SetPixel(x, y, img.Pixel(x, h - 1 - y));
      img.SetPixel(x, h - 1 - y, temp);
      x := x + 1;
    }
  }

  /** flipVirtical: exchanges column `x` with column `w - 1 - x` in every row, for every `x < w / 2`. */
  method FlipVirtical(img: Image)
    modifies img.grid
    ensures img.Rows() == FlipColumns(old(img.Rows()))
  {
    var y := 0;
    while y < img.Height()
      invariant 0 <= y <= img.Height()
      invariant forall yy, x :: 0 <= yy < img.grid.Length0 && 0 <= x < img.grid.Length1 ==>
        img.grid[yy, x] == if yy < y then old(img.grid[yy, img.grid.Length1 - 1 - x]) else old(img.grid[yy, x])
    {
      MirrorRow(img, y);
      y := y + 1;
    }
    ghost var flipped := FlipColumns(old(img.Rows()));
    assert IsRect(flipped, img.Width(), img.Height());
    PointwiseEqual(img.Rows(), flipped, img.Width(), img.Height());
  }

  /** The inner loop of `flipVirtical`: mirrors row `y`. */
  method MirrorRow(img: Image, y: int)
    requires 0 <= y < img.grid.Length0
    modifies img.grid
    ensures forall yy, x :: 0 <= yy < img.grid.Length0 && 0 <= x < img.grid.Length1 ==>
      img.grid[yy, x] == if yy == y then old(img.grid[yy, img.grid.Length1 - 1 - x]) else old(img.grid[yy, x])
  {
    var w := img.Width();
    var x := 0;
    while x < w / 2
      invariant 0 <= x <= w / 2
      invariant forall yy, xx :: 0 <= yy < img.grid.Length0 && 0 <= xx < w ==>
        img.grid[yy, xx] == if yy == y && (xx < x || w - 1 - xx < x) then old(img.grid[yy, w - 1 - xx]) else old(img.grid[yy, xx])
    {
      var temp := img.Pixel(x, y);
      img.SetPixel(x, y, img.Pixel(w - 1 - x, y));
      img.SetPixel(w - 1 - x, y, temp);
      x := x + 1;
    }
  }

  /**
   * rotateHalf: exchanges every pixel of the top-left `w / 2` by `h / 2` block with its half-turn
   * partner in the bottom-right block; the other two corners and any middle row or column keep
   * their pixels.
   */
  method RotateHalf(img: Image)
    modifies img.grid
    ensures img.Rows() == TurnCorners(old(img.Rows()), img.Width(), img.Height())
  {
    var w, h := img.Width(), img.Height();
    ghost var before := img.Rows();
    var y := 0;
    while y < h / 2
      invariant 0 <= y <= h / 2
      invariant forall yy, x :: 0 <= yy < h && 0 <= x < w ==> img.grid[yy, x] == Exchanged(before, w, h, y, x, yy)
    {
      ghost var mid := img.Rows();
      ExchangeCornerRows(img, y);
      forall yy, x | 0 <= yy < h && 0 <= x < w
        ensures img.grid[yy, x] == Exchanged(before, w, h, y + 1, x, yy)
      {
        if (yy == y && x < w / 2) || (yy == h - 1 - y && w - 1 - x < w / 2) {
          assert img.grid[yy, x] == mid[h - 1 - yy][w - 1 - x];
        } else {
          assert img.grid[yy, x] == mid[yy][x];
        }
      }
      y := y + 1;
    }
    CornersExchanged(before, img.Rows(), w, h);
  }

  /**
   * The pixel at `(x, yy)` once the first `rows` rows of the top-left block have been exchanged
   * with their partners in the bottom-right block.
   */
  ghost function Exchanged(before: Grid, w: nat, h: nat, rows: int, x: int, yy: int): Color
    requires IsRect(before, w, h) && 0 <= yy < h && 0 <= x < w
  {
    if (yy < rows && x < w / 2) || (h - 1 - yy < rows && w - 1 - x < w / 2) then before[h - 1 - yy][w - 1 - x] else before[yy][x]
  }

  /** Once every row above the middle has been exchanged, the corners are swapped. */
  lemma CornersExchanged(before: Grid, after: Grid, w: nat, h: nat)
    requires IsRect(before, w, h) && IsRect(after, w, h)
    requires forall yy, x :: 0 <= yy < h && 0 <= x < w ==> after[yy][x] == Exchanged(before, w, h, h / 2, x, yy)
    ensures after == TurnCorners(before, w, h)
  {
    var turned := TurnCorners(before, w, h);
    forall yy, x | 0 <= yy < h && 0 <= x < w
      ensures after[yy][x] == turned[yy][x]
    {
      if InCorners(w, h, x, yy) {
        assert turned[yy][x] == before[h - 1 - yy][w - 1 - x];
      } else {
        assert turned[yy][x] == before[yy][x];
      }
    }
    PointwiseEqual(after, turned, w, h);
  }

  /** The inner loop of `rotateHalf`: exchanges the first `w / 2` pixels of row `y` with their partners. */
  method ExchangeCornerRows(img: Image, y: int)
    requires 0 <= y < img.grid.Length0 / 2
    modifies img.grid
    ensures forall yy, x :: 0 <= yy < img.grid.Length0 && 0 <= x < img.grid.Length1 ==>
      img.grid[yy, x] ==
        if (yy == y && x < img.grid.Length1 / 2) || (yy == img.grid.Length0 - 1 - y && img.grid.Length1 - 1 - x < img.grid.Length1 / 2)
        then old(img.grid[img.grid.Length0 - 1 - yy, img.grid.Length1 - 1 - x])
        else old(img.grid[yy, x])
  {
    var w, h := img.Width(), img.Height();
    var x := 0;
    while x < w / 2
      invariant 0 <= x <= w / 2
      invariant forall yy, xx :: 0 <= yy < h && 0 <= xx < w ==>
        img.grid[yy, xx] ==
          if (yy == y && xx < x) || (yy == h - 1 - y && w - 1 - xx < x) then old(img.grid[h - 1 - yy, w - 1 - xx])
          else old(img.grid[yy, xx])
    {
      var temp := img.Pixel(x, y);
      img.SetPixel(x, y, img.Pixel(w - 1 - x, h - 1 - y));
      img.SetPixel(w - 1 - x, h - 1 - y, temp);
      x := x + 1;
    }
  }

  /** The loops shared by the pixel-by-pixel transforms: every pixel becomes `f` of itself. */
  method RecolorInPlace(img: Image, f: Color -> Color)
    modifies img.grid
    ensures img.Rows() == Recolor(old(img.Rows()), f)
  {
    var y := 0;
    while y < img.Height()
      invariant 0 <= y <= img.Height()
      invariant forall yy, x :: 0 <= yy < img.grid.Length0 && 0 <= x < img.grid.Length1 ==>
        img.grid[yy, x] == if yy < y then f(old(img.grid[yy, x])) else old(img.grid[yy, x])
    {
      RecolorRow(img, y, f);
      y := y + 1;
    }
    PointwiseEqual(img.Rows(), Recolor(old(img.Rows()), f), img.Width(), img.Height());
  }

  /** The inner loop of `RecolorInPlace`: recolours row `y`. */
  method RecolorRow(img: Image, y: int, f: Color -> Color)
    requires 0 <= y < img.grid.Length0
    modifies img.grid
    ensures forall yy, x :: 0 <= yy < img.grid.Length0 && 0 <= x < img.grid.Length1 ==>
      img.grid[yy, x] == if yy == y then f(old(img.grid[yy, x])) else old(img.grid[yy, x])
  {
    var x := 0;
    while x < img.Width()
      invariant 0 <= x <= img.Width()
      invariant forall yy, xx :: 0 <= yy < img.grid.Length0 && 0 <= xx < img.grid.Length1 ==>
        img.grid[yy, xx] == if yy == y && xx < x then f(old(img.grid[yy, xx])) else old(img.grid[yy, xx])
    {
      img.SetPixel(x, y, f(img.Pixel(x, y)));
      x := x + 1;
    }
  }

  /** switchRedGreen: exchanges red and green in every pixel. */
  method SwitchRedGreen(img: Image)
    modifies img.grid
    ensures img.Rows() == Recolor(old(img.Rows()), SwapRedGreen)
  {
    RecolorInPlace(img, SwapRedGreen);
  }

  /** switchRedBlue: exchanges red and blue in every pixel. */
  method SwitchRedBlue(img: Image)
    modifies img.grid
    ensures img.Rows() == Recolor(old(img.Rows()), SwapRedBlue)
  {
    RecolorInPlace(img, SwapRedBlue);
  }

  /** switchGreenBlue: exchanges green and blue in every pixel. */
  method SwitchGreenBlue(img: Image)
    modifies img.grid
    ensures img.Rows() == Recolor(old(img.Rows()), SwapGreenBlue)
  {
    RecolorInPlace(img, SwapGreenBlue);
  }

  /**
   * grayscaleAverage as written: it reads the three components and stores Color(blue, green,
   * red), which exchanges red and blue instead of averaging them.
   */
  method GrayscaleAverageAsWritten(img: Image)
    modifies img.grid
    ensures img.Rows() == Recolor(old(img.Rows()), SwapRedBlue)
  {
    RecolorInPlace(img, SwapRedBlue);
  }

  /** As written, pure red comes out pure blue: no grey at all. */
  lemma GrayscaleAverageAsWrittenNotGrey()
    ensures !IsGrey(SwapRedBlue(Color(RED)))
    ensures Blue(SwapRedBlue(Color(RED))) == 255 && Red(SwapRedBlue(Color(RED))) == 0
  {
    var c := Color(RED);
    assert Red(c) == 255 && Green(c) == 0 && Blue(c) == 0;
    assert SwapRedBlue(c) == Compose(0, 0, 255);
  }

  /** grayscaleAverage as documented: every pixel becomes the grey of its truncated mean. */
  method GrayscaleAverage(img: Image)
    modifies img.grid
    ensures img.Rows() == Recolor(old(img.Rows()), GreyAverage)
    ensures forall y, x :: 0 <= y < img.Height() && 0 <= x < img.Width() ==> IsGrey(img.Pixel(x, y))
  {
    RecolorInPlace(img, GreyAverage);
    forall y, x | 0 <= y < img.Height() && 0 <= x < img.Width()
      ensures IsGrey(img.Pixel(x, y))
    {
      assert img.Pixel(x, y) == GreyAverage(old(img.Rows())[y][x]);
    }
  }

  /** grayscaleLightness: every pixel becomes the grey halfway between its largest and smallest component. */
  method GrayscaleLightness(img: Image)
    modifies img.grid
    ensures img.Rows() == Recolor(old(img.Rows()), GreyLightness)
    ensures forall y, x :: 0 <= y < img.Height() && 0 <= x < img.Width() ==> IsGrey(img.Pixel(x, y))
  {
    RecolorInPlace(img, GreyLightness);
    forall y, x | 0 <= y < img.Height() && 0 <= x < img.Width()
      ensures IsGrey(img.Pixel(x, y))
    {
      assert img.Pixel(x, y) == GreyLightness(old(img.Rows())[y][x]);
    }
  }

  /**
   * addRectangle(image, x, y, width, height, color): asserts that `x >= 0`, `x + width < w`,
   * `y >= 0` and `y + height < h`, then paints the inclusive block of columns `x..x + width` and
   * rows `y..y + height`.
   */
  method AddRectangle(img: Image, x: int, y: int, width: int, height: int, color: Color)
    requires x >= 0 && x + width < img.Width() && y >= 0 && y + height < img.Height()
    modifies img.grid
    ensures img.Rows() == FillBlock(old(img.Rows()), x, y, x + width, y + height, color)
  {
    var i := 0;
    while i <= height
      invariant 0 <= i <= height + 1 || (height < 0 && i == 0)
      invariant forall yy, xx :: 0 <= yy < img.grid.Length0 && 0 <= xx < img.grid.Length1 ==>
        img.grid[yy, xx] == if x <= xx <= x + width && y <= yy < y + i then color else old(img.grid[yy, xx])
    {
      PaintSpan(img, y + i, x, x + width, color);
      i := i + 1;
    }
    PointwiseEqual(img.Rows(), FillBlock(old(img.Rows()), x, y, x + width, y + height, color), img.Width(), img.Height());
  }

  /** Paints columns `from..to` of row `y`, left to right: the inner loop of `addRectangle`. */
  method PaintSpan(img: Image, y: int, from: int, to: int, color: Color)
    requires 0 <= y < img.grid.Length0 && 0 <= from && to < img.grid.Length1
    modifies img.grid
    ensures forall yy, xx :: 0 <= yy < img.grid.Length0 && 0 <= xx < img.grid.Length1 ==>
      img.grid[yy, xx] == if yy == y && from <= xx <= to then color else old(img.grid[yy, xx])
  {
    var j := from;
    while j <= to
      invariant from <= j <= to + 1 || (to < from && j == from)
      invariant forall yy, xx :: 0 <= yy < img.grid.Length0 && 0 <= xx < img.grid.Length1 ==>
        img.grid[yy, xx] == if yy == y && from <= xx < j then color else old(img.grid[yy, xx])
    {
      img.SetPixel(j, y, color);
      j := j + 1;
    }
  }

  /**
   * addCircle(image, centerX, centerY, radius, color): asserts a positive radius and that the
   * square of side `2 * radius + 1` around the centre lies inside the image, then fills the circle
   * with the midpoint algorithm: for each step `(x, y)` of the octant walk it paints the rows
   * `centerY +- y` across `centerX +- x` and, off the diagonal, the rows `centerY +- x` across
   * `centerX +- y`. Nothing outside the square changes, the centre row is painted across the
   * whole diameter and so is the centre column.
   */
  method AddCircle(img: Image, centerX: int, centerY: int, radius: int, color: Color)
    requires radius > 0
    requires centerX - radius >= 0 && centerX + radius < img.Width()
    requires centerY - radius >= 0 && centerY + radius < img.Height()
    modifies img.grid
    ensures forall yy, xx :: 0 <= yy < img.grid.Length0 && 0 <= xx < img.grid.Length1 ==>
      img.grid[yy, xx] == old(img.grid[yy, xx]) ||
      (InSquare(centerX, centerY, radius, xx, yy) && img.grid[yy, xx] == color)
    ensures forall xx :: centerX - radius <= xx <= centerX + radius ==> img.grid[centerY, xx] == color
    ensures forall yy :: centerY - radius <= yy <= centerY + radius ==> img.grid[yy, centerX] == color
  {
    var x := radius;
    var y := 0;
    var t := 1 - radius;
    while x >= y
      invariant 0 <= y && x <= radius && (y == 0 ==> x == radius)
      invariant forall yy, xx :: 0 <= yy < img.grid.Length0 && 0 <= xx < img.grid.Length1 ==>
        img.grid[yy, xx] == old(img.grid[yy, xx]) ||
        (InSquare(centerX, centerY, radius, xx, yy) && img.grid[yy, xx] == color)
      invariant y > 0 ==> forall xx :: centerX - radius <= xx <= centerX + radius ==> img.grid[centerY, xx] == color
      invariant forall yy :: centerY - radius <= yy <= centerY + radius && (Distance(yy, centerY) < y || x < Distance(yy, centerY)) ==>
        img.grid[yy, centerX] == color
      decreases x - y + 1
    {
      PaintOctantStep(img, centerX, centerY, radius, x, y, color);
      y := y + 1;
      if t < 0 {
        t := t + 2 * y + 1;
      } else {
        x := x - 1;
        t := t + 2 * (y - x) + 1;
      }
    }
  }

  /** How far apart two coordinates are. */
  function Distance(a: int, b: int): nat {
    if a < b then b - a else a - b
  }

  /**
   * The painting done by one step `(x, y)` of `addCircle`'s walk: the rows `centerY +- y` across
   * `centerX +- x` and, when `y != x`, the rows `centerY +- x` across `centerX +- y`.
   */
  method PaintOctantStep(img: Image, centerX: int, centerY: int, radius: int, x: int, y: int, color: Color)
    requires 0 <= y <= x <= radius
    requires centerX - radius >= 0 && centerX + radius < img.grid.Length1
    requires centerY - radius >= 0 && centerY + radius < img.grid.Length0
    modifies img.grid
    ensures forall yy, xx :: 0 <= yy < img.grid.Length0 && 0 <= xx < img.grid.Length1 ==>
      img.grid[yy, xx] == old(img.grid[yy, xx]) ||
      (InSquare(centerX, centerY, radius, xx, yy) && img.grid[yy, xx] == color)
    ensures forall yy, xx :: 0 <= yy < img.grid.Length0 && 0 <= xx < img.grid.Length1 && old(img.grid[yy, xx]) == color ==>
      img.grid[yy, xx] == color
    ensures y == 0 ==> forall xx :: centerX - x <= xx <= centerX + x ==> img.grid[centerY, xx] == color
    ensures img.grid[centerY + x, centerX] == color && img.grid[centerY - x, centerX] == color
    ensures img.grid[centerY + y, centerX] == color && img.grid[centerY - y, centerX] == color
  {
    PaintMirroredSpans(img, centerY, y, centerX - x, centerX + x, color);
    if y != x {
      PaintMirroredSpans(img, centerY, x, centerX - y, centerX + y, color);
    }
  }

  /** `(x, y)` lies in the square of side `2 * radius + 1` centred on `(centerX, centerY)`. */
  predicate InSquare(centerX: int, centerY: int, radius: int, x: int, y: int) {
    centerX - radius <= x <= centerX + radius && centerY - radius <= y <= centerY + radius
  }

  /**
   * One inner loop of `addCircle`: paints columns `from..to` of the rows `centerY + dy` and
   * `centerY - dy`, column by column.
   */
  method PaintMirroredSpans(img: Image, centerY: int, dy: int, from: int, to: int, color: Color)
    requires 0 <= dy && 0 <= centerY - dy && centerY + dy < img.grid.Length0 && 0 <= from && to < img.grid.Length1
    modifies img.grid
    ensures forall yy, xx :: 0 <= yy < img.grid.Length0 && 0 <= xx < img.grid.Length1 ==>
      img.grid[yy, xx] == if (yy == centerY + dy || yy == centerY - dy) && from <= xx <= to then color else old(img.grid[yy, xx])
  {
    var i := from;
    while i <= to
      invariant from <= i <= to + 1 || (to < from && i == from)
      invariant forall yy, xx :: 0 <= yy < img.grid.Length0 && 0 <= xx < img.grid.Length1 ==>
        img.grid[yy, xx] == if (yy == centerY + dy || yy == centerY - dy) && from <= xx < i then color else old(img.grid[yy, xx])
    {
      img.SetPixel(i, centerY + dy, color);
      img.SetPixel(i, centerY - dy, color);
      i := i + 1;
    }
  }
}
