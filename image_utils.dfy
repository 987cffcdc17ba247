/**
 * Transforms that build a new image and leave their input as it was: mirrors, turns, stretches,
 * a crop, channel swaps, two greyscale conversions, the average colour and a resampling.
 */
module ImageUtils {
  import opened Arithmetic
  import opened Colors
  import opened Grids
  import opened Images

  /** Where a transform reads each new pixel from, or writes each old pixel to. */
  datatype Placement =
    | Shift(dx: int, dy: int)     // (x + dx, y + dy)
    | MirrorRows(h: int)          // (x, h - 1 - y)
    | MirrorColumns(w: int)       // (w - 1 - x, y)
    | HalfTurn(w: int, h: int)    // (w - 1 - x, h - 1 - y)
    | LeftTurn(h: int)            // (h - 1 - y, x)
    | RightTurn(w: int)           // (y, w - 1 - x)

  function Place(p: Placement, x: int, y: int): (int, int) {
    match p
    case Shift(dx, dy) => (x + dx, y + dy)
    case MirrorRows(h) => (x, h - 1 - y)
    case MirrorColumns(w) => (w - 1 - x, y)
    case HalfTurn(w, h) => (w - 1 - x, h - 1 - y)
    case LeftTurn(h) => (h - 1 - y, x)
    case RightTurn(w) => (y, w - 1 - x)
  }

  /**
   * The nested loops shared by the transforms that fill a new `w` by `h` image in its own
   * row-major order: the new pixel at `(x, y)` is `f` of the old pixel at `Place(at, x, y)`.
   */
  method Gather(img: Image, w: int, h: int, at: Placement, f: Color -> Color) returns (r: Image)
    requires w > 0 && h > 0
    requires forall x, y :: 0 <= x < w && 0 <= y < h ==> 0 <= Place(at, x, y).0 < img.grid.Length1 && 0 <= Place(at, x, y).1 < img.grid.Length0
    ensures fresh(r.grid) && r.Valid() && r.grid.Length1 == w && r.grid.Length0 == h
    ensures forall y, x :: 0 <= y < h && 0 <= x < w ==> r.grid[y, x] == f(img.grid[Place(at, x, y).1, Place(at, x, y).0])
  {
    r := new Image(w, h);
    var y := 0;
    while y < h
      invariant 0 <= y <= h
      invariant forall yy, x :: 0 <= yy < y && 0 <= x < w ==> r.grid[yy, x] == f(img.grid[Place(at, x, yy).1, Place(at, x, yy).0])
    {
      GatherRow(img, r, y, at, f);
      y := y + 1;
    }
  }

  /** The inner loop of `Gather`: fills row `y` of `r`. */
  method GatherRow(img: Image, r: Image, y: int, at: Placement, f: Color -> Color)
    requires r.grid != img.grid && 0 <= y < r.grid.Length0
    requires forall x, y :: 0 <= x < r.grid.Length1 && 0 <= y < r.grid.Length0 ==> 0 <= Place(at, x, y).0 < img.grid.Length1 && 0 <= Place(at, x, y).1 < img.grid.Length0
    modifies r.grid
    ensures forall x :: 0 <= x < r.grid.Length1 ==> r.grid[y, x] == f(img.grid[Place(at, x, y).1, Place(at, x, y).0])
    ensures forall yy, x :: 0 <= yy < r.grid.Length0 && yy != y && 0 <= x < r.grid.Length1 ==> r.grid[yy, x] == old(r.grid[yy, x])
  {
    var x := 0;
    while x < r.grid.Length1
      invariant 0 <= x <= r.grid.Length1
      invariant forall xx :: 0 <= xx < x ==> r.grid[y, xx] == f(img.grid[Place(at, xx, y).1, Place(at, xx, y).0])
      invariant forall yy, xx :: 0 <= yy < r.grid.Length0 && yy != y && 0 <= xx < r.grid.Length1 ==> r.grid[yy, xx] == old(r.grid[yy, xx])
    {
      var src := Place(at, x, y);
      r.SetPixel(x, y, f(img.Pixel(src.0, src.1)));
      x := x + 1;
    }
  }

  /**
   * The nested loops shared by the quarter turns, which walk the old image in its row-major order
   * and write the new `w` by `h` image at `Place(to, x, y)`; `to` sends no two old pixels to one place.
   */
  method Scatter(img: Image, w: int, h: int, to: Placement) returns (r: Image)
    requires img.Valid() && w > 0 && h > 0
    requires forall x, y :: 0 <= x < img.grid.Length1 && 0 <= y < img.grid.Length0 ==> 0 <= Place(to, x, y).0 < w && 0 <= Place(to, x, y).1 < h
    requires forall x, y, x', y' ::
      0 <= x < img.grid.Length1 && 0 <= y < img.grid.Length0 && 0 <= x' < img.grid.Length1 && 0 <= y' < img.grid.Length0 && Place(to, x, y) == Place(to, x', y')
      ==> x == x' && y == y'
    ensures fresh(r.grid) && r.Valid() && r.grid.Length1 == w && r.grid.Length0 == h
    ensures forall y, x :: 0 <= y < img.grid.Length0 && 0 <= x < img.grid.Length1 ==> r.grid[Place(to, x, y).1, Place(to, x, y).0] == img.grid[y, x]
  {
    r := new Image(w, h);
    var y := 0;
    while y < img.grid.Length0
      invariant 0 <= y <= img.grid.Length0
      invariant forall yy, x :: 0 <= yy < y && 0 <= x < img.grid.Length1 ==> r.grid[Place(to, x, yy).1, Place(to, x, yy).0] == img.grid[yy, x]
    {
      ScatterRow(img, r, y, to);
      y := y + 1;
    }
  }

  /** The inner loop of `Scatter`: writes every pixel of old row `y` to its new place. */
  method ScatterRow(img: Image, r: Image, y: int, to: Placement)
    requires r.grid != img.grid && 0 <= y < img.grid.Length0
    requires forall x, y :: 0 <= x < img.grid.Length1 && 0 <= y < img.grid.Length0 ==> 0 <= Place(to, x, y).0 < r.grid.Length1 && 0 <= Place(to, x, y).1 < r.grid.Length0
    requires forall x, y, x', y' ::
      0 <= x < img.grid.Length1 && 0 <= y < img.grid.Length0 && 0 <= x' < img.grid.Length1 && 0 <= y' < img.grid.Length0 && Place(to, x, y) == Place(to, x', y')
      ==> x == x' && y == y'
    modifies r.grid
    ensures forall x :: 0 <= x < img.grid.Length1 ==> r.grid[Place(to, x, y).1, Place(to, x, y).0] == img.grid[y, x]
    ensures forall yy, x :: 0 <= yy < img.grid.Length0 && yy != y && 0 <= x < img.grid.Length1 ==>
      r.grid[Place(to, x, yy).1, Place(to, x, yy).0] == old(r.grid[Place(to, x, yy).1, Place(to, x, yy).0])
  {
    var x := 0;
    while x < img.grid.Length1
      invariant 0 <= x <= img.grid.Length1
      invariant forall xx :: 0 <= xx < x ==> r.grid[Place(to, xx, y).1, Place(to, xx, y).0] == img.grid[y, xx]
      invariant forall yy, xx :: 0 <= yy < img.grid.Length0 && 0 <= xx < img.grid.Length1 && (yy != y || xx >= x) ==>
        r.grid[Place(to, xx, yy).1, Place(to, xx, yy).0] == old(r.grid[Place(to, xx, yy).1, Place(to, xx, yy).0])
    {
      var dst := Place(to, x, y);
      r.SetPixel(dst.0, dst.1, img.Pixel(x, y));
      x := x + 1;
    }
  }

  /** flipHorizontal: despite its name, mirrors the rows, so new `(x, y)` is old `(x, h - 1 - y)`. */
  method FlipHorizontal(img: Image) returns (r: Image)
    requires img.Valid()
    ensures fresh(r.grid) && r.Valid()
    ensures r.Rows() == FlipRows(img.Rows())
  {
    var w, h := img.Width(), img.Height();
    r := Gather(img, w, h, MirrorRows(h), c => c);
    PointwiseEqual(r.Rows(), FlipRows(img.Rows()), w, h);
  }

  /** flipVirtical: mirrors every row, so new `(x, y)` is old `(w - 1 - x, y)`. */
  method FlipVirtical(img: Image) returns (r: Image)
    requires img.Valid()
    ensures fresh(r.grid) && r.Valid()
    ensures r.Rows() == FlipColumns(img.Rows())
  {
    var w, h := img.Width(), img.Height();
    r := Gather(img, w, h, MirrorColumns(w), c => c);
    PointwiseEqual(r.Rows(), FlipColumns(img.Rows()), w, h);
  }

  /** rotateLeft: a `h` by `w` image with old `(x, y)` at `(h - 1 - y, x)`. */
  method RotateLeft(img: Image) returns (r: Image)
    requires img.Valid()
    ensures fresh(r.grid) && r.Valid()
    ensures r.Rows() == TurnLeft(img.Rows(), img.Width(), img.Height())
  {
    var w, h := img.Width(), img.Height();
    r := Scatter(img, h, w, LeftTurn(h));
    var turned := TurnLeft(img.Rows(), w, h);
    forall y, x | 0 <= y < w && 0 <= x < h
      ensures r.Rows()[y][x] == turned[y][x]
    {
      assert r.grid[y, x] == img.grid[h - 1 - x, y];
    }
    PointwiseEqual(r.Rows(), turned, h, w);
  }

  /** rotateRight: a `h` by `w` image with old `(x, y)` at `(y, w - 1 - x)`. */
  method RotateRight(img: Image) returns (r: Image)
    requires img.Valid()
    ensures fresh(r.grid) && r.Valid()
    ensures r.Rows() == TurnRight(img.Rows(), img.Width(), img.Height())
  {
    var w, h := img.Width(), img.Height();
    r := Scatter(img, h, w, RightTurn(w));
    var turned := TurnRight(img.Rows(), w, h);
    forall y, x | 0 <= y < w && 0 <= x < h
      ensures r.Rows()[y][x] == turned[y][x]
    {
      assert r.grid[y, x] == img.grid[x, w - 1 - y];
    }
    PointwiseEqual(r.Rows(), turned, h, w);
  }

  /** rotateHalf: new `(x, y)` is old `(w - 1 - x, h - 1 - y)`. */
  method RotateHalf(img: Image) returns (r: Image)
    requires img.Valid()
    ensures fresh(r.grid) && r.Valid()
    ensures r.Rows() == TurnHalf(img.Rows(), img.Width(), img.Height())
  {
    var w, h := img.Width(), img.Height();
    r := Gather(img, w, h, HalfTurn(w, h), (c: Color) => Color(c.rgb));
    PointwiseEqual(r.Rows(), TurnHalf(img.Rows(), w, h), w, h);
  }

  /** strechHorizontal: twice as wide, each old pixel written to two neighbouring columns. */
  method StrechHorizontal(img: Image) returns (r: Image)
    requires img.Valid()
    ensures fresh(r.grid) && r.Valid()
    ensures r.Rows() == StretchColumns(img.Rows(), img.Width(), img.Height())
  {
    var w, h := img.Width(), img.Height();
    r := new Image(w * 2, h);
    var y := 0;
    while y < h
      invariant 0 <= y <= h
      invariant forall yy, x :: 0 <= yy < y && 0 <= x < r.grid.Length1 ==> r.grid[yy, x] == img.grid[yy, x / 2]
    {
      WidenRow(img, r, y);
      y := y + 1;
    }
    PointwiseEqual(r.Rows(), StretchColumns(img.Rows(), w, h), 2 * w, h);
  }

  /** The inner loop of `strechHorizontal`: writes row `y` of `img` twice as wide into `r`. */
  method WidenRow(img: Image, r: Image, y: int)
    requires r.grid != img.grid && 0 <= y < img.grid.Length0 == r.grid.Length0
    requires r.grid.Length1 == 2 * img.grid.Length1
    modifies r.grid
    ensures forall x :: 0 <= x < r.grid.Length1 ==> r.grid[y, x] == img.grid[y, x / 2]
    ensures forall yy, x :: 0 <= yy < r.grid.Length0 && yy != y && 0 <= x < r.grid.Length1 ==> r.grid[yy, x] == old(r.grid[yy, x])
  {
    var x := 0;
    while x < img.Width()
      invariant 0 <= x <= img.Width()
      invariant forall xx :: 0 <= xx < 2 * x ==> r.grid[y, xx] == img.grid[y, xx / 2]
      invariant forall yy, xx :: 0 <= yy < r.grid.Length0 && yy != y && 0 <= xx < r.grid.Length1 ==> r.grid[yy, xx] == old(r.grid[yy, xx])
    {
      var originalPixel := img.Pixel(x, y);
      r.SetPixel(x * 2, y, originalPixel);
      r.SetPixel(x * 2 + 1, y, originalPixel);
      x := x + 1;
    }
  }

  /** strechVertical: twice as high, each old pixel written to two neighbouring rows. */
  method StrechVertical(img: Image) returns (r: Image)
    requires img.Valid()
    ensures fresh(r.grid) && r.Valid()
    ensures r.Rows() == StretchRows(img.Rows(), img.Width(), img.Height())
  {
    var w, h := img.Width(), img.Height();
    r := new Image(w, h * 2);
    var y := 0;
    while y < h
      invariant 0 <= y <= h
      invariant forall yy, x :: 0 <= yy < 2 * y && 0 <= x < w ==> r.grid[yy, x] == img.grid[yy / 2, x]
    {
      HeightenRow(img, r, y);
      y := y + 1;
    }
    PointwiseEqual(r.Rows(), StretchRows(img.Rows(), w, h), w, 2 * h);
  }

  /** The inner loop of `strechVertical`: writes row `y` of `img` to rows `2y` and `2y + 1` of `r`. */
  method HeightenRow(img: Image, r: Image, y: int)
    requires r.grid != img.grid && 0 <= y < img.grid.Length0 && r.grid.Length0 == 2 * img.grid.Length0
    requires r.grid.Length1 == img.grid.Length1
    modifies r.grid
    ensures forall x :: 0 <= x < r.grid.Length1 ==> r.grid[2 * y, x] == img.grid[y, x] && r.grid[2 * y + 1, x] == img.grid[y, x]
    ensures forall yy, x :: 0 <= yy < r.grid.Length0 && yy != 2 * y && yy != 2 * y + 1 && 0 <= x < r.grid.Length1 ==>
      r.grid[yy, x] == old(r.grid[yy, x])
  {
    var x := 0;
    while x < img.Width()
      invariant 0 <= x <= img.Width()
      invariant forall xx :: 0 <= xx < x ==> r.grid[2 * y, xx] == img.grid[y, xx] && r.grid[2 * y + 1, xx] == img.grid[y, xx]
      invariant forall yy, xx :: 0 <= yy < r.grid.Length0 && yy != 2 * y && yy != 2 * y + 1 && 0 <= xx < r.grid.Length1 ==>
        r.grid[yy, xx] == old(r.grid[yy, xx])
    {
      r.SetPixel(x, y * 2, img.Pixel(x, y));
      r.SetPixel(x, y * 2 + 1, img.Pixel(x, y));
      x := x + 1;
    }
  }

  /**
   * crop(image, x, y, width, height): asserts that `(x, y)` is inside the image and that the
   * block is non-empty and ends strictly before the right and bottom edges; answers the block.
   */
  method Crop(img: Image, x: int, y: int, width: int, height: int) returns (r: Image)
    requires 0 <= x < img.Width() && 0 <= y < img.Height()
    requires 0 < width < img.Width() - x && 0 < height < img.Height() - y
    ensures fresh(r.grid) && r.Valid()
    ensures r.Rows() == Block(img.Rows(), img.Width(), img.Height(), x, y, width, height)
  {
    r := Gather(img, width, height, Shift(x, y), c => c);
    PointwiseEqual(r.Rows(), Block(img.Rows(), img.Width(), img.Height(), x, y, width, height), width, height);
  }

  /**
   * The channel swaps, which allocate `Image(height, width)` and then write it at `(x, y)`:
   * every write is in bounds only when the image is square.
   */
  method RecolorSquare(img: Image, f: Color -> Color) returns (r: Image)
    requires img.Valid() && img.Width() == img.Height()
    ensures fresh(r.grid) && r.Valid()
    ensures r.Rows() == Recolor(img.Rows(), f)
  {
    var w, h := img.Width(), img.Height();
    r := Gather(img, h, w, Shift(0, 0), f);
    PointwiseEqual(r.Rows(), Recolor(img.Rows(), f), w, h);
  }

  /** switchRedGreen: every pixel with red and green exchanged; the image must be square. */
  method SwitchRedGreen(img: Image) returns (r: Image)
    requires img.Valid() && img.Width() == img.Height()
    ensures fresh(r.grid) && r.Valid()
    ensures r.Rows() == Recolor(img.Rows(), SwapRedGreen)
  {
    r := RecolorSquare(img, SwapRedGreen);
  }

  /** switchRedBlue: every pixel with red and blue exchanged; the image must be square. */
  method SwitchRedBlue(img: Image) returns (r: Image)
    requires img.Valid() && img.Width() == img.Height()
    ensures fresh(r.grid) && r.Valid()
    ensures r.Rows() == Recolor(img.Rows(), SwapRedBlue)
  {
    r := RecolorSquare(img, SwapRedBlue);
  }

  /** switchGreenBlue: every pixel with green and blue exchanged; the image must be square. */
  method SwitchGreenBlue(img: Image) returns (r: Image)
    requires img.Valid() && img.Width() == img.Height()
    ensures fresh(r.grid) && r.Valid()
    ensures r.Rows() == Recolor(img.Rows(), SwapGreenBlue)
  {
    r := RecolorSquare(img, SwapGreenBlue);
  }

  /** grayscaleAverage: a same-size image of the greys `(r + g + b) / 3`. */
  method GrayscaleAverage(img: Image) returns (r: Image)
    requires img.Valid()
    ensures fresh(r.grid) && r.Valid()
    ensures r.Rows() == Recolor(img.Rows(), GreyAverage)
  {
    var w, h := img.Width(), img.Height();
    r := Gather(img, w, h, Shift(0, 0), GreyAverage);
    PointwiseEqual(r.Rows(), Recolor(img.Rows(), GreyAverage), w, h);
  }

  /** grayscaleLightness: a same-size image of the greys `(max + min) / 2`. */
  method GrayscaleLightness(img: Image) returns (r: Image)
    requires img.Valid()
    ensures fresh(r.grid) && r.Valid()
    ensures r.Rows() == Recolor(img.Rows(), GreyLightness)
  {
    var w, h := img.Width(), img.Height();
    r := Gather(img, w, h, Shift(0, 0), GreyLightness);
    PointwiseEqual(r.Rows(), Recolor(img.Rows(), GreyLightness), w, h);
  }

  /** The sum of `channel` over a row. */
  function RowTotal(row: seq<Color>, channel: Color -> int): int {
    if |row| == 0 then 0 else RowTotal(row[..|row| - 1], channel) + channel(row[|row| - 1])
  }

  /** The sum of `channel` over every pixel of a grid. */
  function Total(g: Grid, channel: Color -> int): int {
    if |g| == 0 then 0 else Total(g[..|g| - 1], channel) + RowTotal(g[|g| - 1], channel)
  }

  /**
   * averageColor: sums the three components over the whole image, counting the pixels, and
   * answers the colour of the three truncated means.
   */
  method AverageColor(img: Image) returns (c: Color)
    requires img.Valid()
    ensures Red(c) == Total(img.Rows(), Red) / (img.Width() * img.Height())
    ensures Green(c) == Total(img.Rows(), Green) / (img.Width() * img.Height())
    ensures Blue(c) == Total(img.Rows(), Blue) / (img.Width() * img.Height())
  {
    var count, red, green, blue := SumImage(img);
    assert count > 0 by {
      ProductGrows(img.Width(), img.Height());
    }
    MeanIsComponent(red, count);
    MeanIsComponent(green, count);
    MeanIsComponent(blue, count);
    c := Compose(red / count, green / count, blue / count);
  }

  /** The nested loops of `averageColor`: the pixel count and the three component sums. */
  method SumImage(img: Image) returns (count: int, red: int, green: int, blue: int)
    ensures count == img.Width() * img.Height()
    ensures red == Total(img.Rows(), Red) && 0 <= red <= 255 * count
    ensures green == Total(img.Rows(), Green) && 0 <= green <= 255 * count
    ensures blue == Total(img.Rows(), Blue) && 0 <= blue <= 255 * count
  {
    ghost var rows := img.Rows();
    count, red, green, blue := 0, 0, 0, 0;
    var y := 0;
    while y < img.Height()
      invariant 0 <= y <= img.Height() && count == img.Width() * y
      invariant red == Total(rows[..y], Red) && green == Total(rows[..y], Green) && blue == Total(rows[..y], Blue)
      invariant 0 <= red <= 255 * count && 0 <= green <= 255 * count && 0 <= blue <= 255 * count
    {
      TotalStep(rows, y, Red);
      TotalStep(rows, y, Green);
      TotalStep(rows, y, Blue);
      count, red, green, blue := SumRow(img, y, count, red, green, blue);
      assert count == img.Width() * (y + 1) by {
        assert img.Width() * (y + 1) == img.Width() * y + img.Width();
      }
      y := y + 1;
    }
    assert rows[..y] == rows;
  }

  /** The inner loop of `averageColor`: adds row `y`'s components to the sums, counting its pixels. */
  method SumRow(img: Image, y: int, count: int, red: int, green: int, blue: int)
    returns (count': int, red': int, green': int, blue': int)
    requires 0 <= y < img.Height()
    requires 0 <= red <= 255 * count && 0 <= green <= 255 * count && 0 <= blue <= 255 * count
    ensures count' == count + img.Width()
    ensures red' == red + RowTotal(img.Rows()[y], Red) && 0 <= red' <= 255 * count'
    ensures green' == green + RowTotal(img.Rows()[y], Green) && 0 <= green' <= 255 * count'
    ensures blue' == blue + RowTotal(img.Rows()[y], Blue) && 0 <= blue' <= 255 * count'
  {
    ghost var row := img.Rows()[y];
    count', red', green', blue' := count, red, green, blue;
    var x := 0;
    while x < img.Width()
      invariant 0 <= x <= img.Width() && count' == count + x
      invariant red' == red + RowTotal(row[..x], Red) && 0 <= red' <= 255 * count'
      invariant green' == green + RowTotal(row[..x], Green) && 0 <= green' <= 255 * count'
      invariant blue' == blue + RowTotal(row[..x], Blue) && 0 <= blue' <= 255 * count'
    {
      var pixel := img.Pixel(x, y);
      assert row[..x + 1][..x] == row[..x];
      red' := red' + Red(pixel);
      green' := green' + Green(pixel);
      blue' := blue' + Blue(pixel);
      count' := count' + 1;
      x := x + 1;
    }
    assert row[..x] == row;
  }

  /** Adding row `y` to the rows above it adds its sum to theirs. */
  lemma TotalStep(rows: Grid, y: int, channel: Color -> int)
    requires 0 <= y < |rows|
    ensures Total(rows[..y + 1], channel) == Total(rows[..y], channel) + RowTotal(rows[y], channel)
  {
    assert rows[..y + 1][..y] == rows[..y];
  }

  /** The truncated mean of `n` components is a component. */
  lemma MeanIsComponent(sum: int, n: int)
    requires n > 0 && 0 <= sum <= 255 * n
    ensures IsComponent(sum / n)
  {
    var q := sum / n;
    assert n * q <= sum;
    assert sum < n * 256;
  }

  /** A row of `n` copies of one colour sums to `n` times its channel. */
  lemma {:induction false} RowTotalFilled(row: seq<Color>, c: Color, channel: Color -> int)
    requires forall x :: 0 <= x < |row| ==> row[x] == c
    ensures RowTotal(row, channel) == |row| * channel(c)
  {
    if |row| > 0 {
      RowTotalFilled(row[..|row| - 1], c, channel);
    }
  }

  /** A grid of `h` rows of `w` copies of one colour sums to `w * h` times its channel. */
  lemma {:induction false} TotalFilled(g: Grid, w: nat, c: Color, channel: Color -> int)
    requires IsRect(g, w, |g|)
    requires forall y, x :: 0 <= y < |g| && 0 <= x < w ==> g[y][x] == c
    ensures Total(g, channel) == w * |g| * channel(c)
  {
    if |g| > 0 {
      var n := |g| - 1;
      TotalFilled(g[..n], w, c, channel);
      RowTotalFilled(g[n], c, channel);
      assert w * |g| * channel(c) == w * n * channel(c) + w * channel(c);
    }
  }

  /** The average colour of an image of one colour has that colour's components. */
  lemma AverageOfFilled(w: nat, h: nat, c: Color)
    requires w > 0 && h > 0
    ensures Total(Filled(w, h, c), Red) / (w * h) == Red(c)
    ensures Total(Filled(w, h, c), Green) / (w * h) == Green(c)
    ensures Total(Filled(w, h, c), Blue) / (w * h) == Blue(c)
  {
    var g := Filled(w, h, c);
    TotalFilled(g, w, c, Red);
    TotalFilled(g, w, c, Green);
    TotalFilled(g, w, c, Blue);
    MultipleDivides(w * h, Red(c));
    MultipleDivides(w * h, Green(c));
    MultipleDivides(w * h, Blue(c));
  }

  /** Dividing a multiple of `n` by `n` gives the factor back. */
  lemma MultipleDivides(n: int, v: int)
    requires n > 0
    ensures (n * v) / n == v
  {
    DivMod(n * v, n, v, 0);
  }

  /**
   * The pixels `resample` writes: the centres of the 3 by 3 blocks starting at `(1, 1)` and
   * stepping by two, none of them on the border.
   */
  predicate Sampled(w: int, h: int, x: int, y: int) {
    1 <= x < w - 1 && 1 <= y < h - 1 && x % 2 == 1 && y % 2 == 1
  }

  /** Three running component sums, as `resample` keeps them. */
  datatype Sums = Sums(red: int, green: int, blue: int)

  /** The sums with one more pixel added. */
  function AddPixel(s: Sums, c: Color): Sums {
    Sums(s.red + Red(c), s.green + Green(c), s.blue + Blue(c))
  }

  /** Each sum lies between 0 and `255 * n`: what `n` components can add up to. */
  predicate Bounded(s: Sums, n: int) {
    0 <= s.red <= 255 * n && 0 <= s.green <= 255 * n && 0 <= s.blue <= 255 * n
  }

  /** The sums over column `cx`, rows `y - 1` up to but excluding `rowEnd`. */
  function ColumnSum(g: Grid, w: nat, h: nat, cx: int, y: int, rowEnd: int): (s: Sums)
    requires IsRect(g, w, h) && 0 <= cx < w && 1 <= y < h - 1 && y - 1 <= rowEnd <= y + 2
    ensures Bounded(s, rowEnd - y + 1)
    decreases rowEnd - y
  {
    if rowEnd == y - 1 then Sums(0, 0, 0) else AddPixel(ColumnSum(g, w, h, cx, y, rowEnd - 1), g[rowEnd - 1][cx])
  }

  /**
   * The sums over columns `x - 1` up to but excluding `colEnd` of the 3 by 3 block centred on
   * `(x, y)`.
   */
  function BlockSum(g: Grid, w: nat, h: nat, x: int, y: int, colEnd: int): (s: Sums)
    requires IsRect(g, w, h) && 1 <= x < w - 1 && 1 <= y < h - 1 && x - 1 <= colEnd <= x + 2
    ensures Bounded(s, 3 * (colEnd - x + 1))
    decreases colEnd - x
  {
    if colEnd == x - 1 then Sums(0, 0, 0)
    else
      var s, t := BlockSum(g, w, h, x, y, colEnd - 1), ColumnSum(g, w, h, colEnd - 1, y, y + 2);
      Sums(s.red + t.red, s.green + t.green, s.blue + t.blue)
  }

  /** The colour of the truncated means of the nine pixels of the block centred on `(x, y)`. */
  function BlockMean(g: Grid, w: nat, h: nat, x: int, y: int): (c: Color)
    requires IsRect(g, w, h) && 1 <= x < w - 1 && 1 <= y < h - 1
    ensures IsPacked(c)
  {
    var s := BlockSum(g, w, h, x, y, x + 2);
    MeanIsComponent(s.red, 9);
    MeanIsComponent(s.green, 9);
    MeanIsComponent(s.blue, 9);
    Compose(s.red / 9, s.green / 9, s.blue / 9)
  }

  /** What `resample` answers: block means at the sampled pixels, BLACK everywhere else. */
  function Resampled(g: Grid, w: nat, h: nat): (r: Grid)
    requires IsRect(g, w, h)
    ensures IsRect(r, w, h)
  {
    seq(h, y requires 0 <= y < h =>
      seq(w, x requires 0 <= x < w => if Sampled(w, h, x, y) then BlockMean(g, w, h, x, y) else Color(BLACK)))
  }

  /**
   * resample: a new image of the same size, BLACK but for the centre of every 3 by 3 block
   * stepping by two from `(1, 1)`, which gets the block's mean colour.
   */
  method Resample(img: Image) returns (r: Image)
    requires img.Valid()
    ensures fresh(r.grid) && r.Valid()
    ensures r.Rows() == Resampled(img.Rows(), img.Width(), img.Height())
  {
    var w, h := img.Width(), img.Height();
    ghost var g := img.Rows();
    ghost var want := Resampled(g, w, h);
    r := new Image(w, h);
    assert forall yy, x :: 0 <= yy < h && 0 <= x < w ==> r.grid[yy, x] == r.Rows()[yy][x];
    ResampleRows(img, r, g, want);
    PointwiseEqual(r.Rows(), want, w, h);
  }

  /** The outer loop of `resample`: fills every sampled row of the BLACK image `r`. */
  method ResampleRows(img: Image, r: Image, ghost g: Grid, ghost want: Grid)
    requires img.Valid() && r.grid != img.grid && g == img.Rows()
    requires r.grid.Length0 == img.Height() && r.grid.Length1 == img.Width()
    requires want == Resampled(g, img.Width(), img.Height())
    requires forall yy, x :: 0 <= yy < img.Height() && 0 <= x < img.Width() ==> r.grid[yy, x] == Color(BLACK)
    modifies r.grid
    ensures forall yy, x :: 0 <= yy < img.Height() && 0 <= x < img.Width() ==> r.grid[yy, x] == want[yy][x]
  {
    var w, h := img.Width(), img.Height();
    var y := 1;
    while y < h - 1
      invariant 1 <= y <= h && y % 2 == 1
      invariant forall yy, x :: 0 <= yy < y && 0 <= x < w ==> r.grid[yy, x] == want[yy][x]
      invariant forall yy, x :: y <= yy < h && 0 <= x < w ==> r.grid[yy, x] == Color(BLACK)
    {
      ResampleRow(img, r, y, g, want);
      NextIsEven(y);
      if y + 1 < h {
        UnsampledRow(g, w, h, y + 1);
      }
      forall yy, x | 0 <= yy < y + 2 && yy < h && 0 <= x < w
        ensures r.grid[yy, x] == want[yy][x]
      {
        if yy == y + 1 {
          assert r.grid[yy, x] == Color(BLACK);
        }
      }
      y := y + 2;
    }
    if y < h {
      UnsampledRow(g, w, h, y);
    }
    if y - 1 < h {
      UnsampledRow(g, w, h, y - 1);
    }
  }

  /**
   * The inner loop of `resample`: writes the block means of the sampled pixels of row `y`, which
   * is still BLACK, leaving the other pixels BLACK.
   */
  method ResampleRow(img: Image, r: Image, y: int, ghost g: Grid, ghost want: Grid)
    requires img.Valid() && r.grid != img.grid && g == img.Rows()
    requires r.grid.Length0 == img.Height() && r.grid.Length1 == img.Width()
    requires want == Resampled(g, img.Width(), img.Height())
    requires 1 <= y < img.Height() - 1 && y % 2 == 1
    requires forall x :: 0 <= x < img.Width() ==> r.grid[y, x] == Color(BLACK)
    modifies r.grid
    ensures forall x :: 0 <= x < img.Width() ==> r.grid[y, x] == want[y][x]
    ensures forall yy, x :: 0 <= yy < r.grid.Length0 && yy != y && 0 <= x < r.grid.Length1 ==> r.grid[yy, x] == old(r.grid[yy, x])
  {
    var w, h := img.Width(), img.Height();
    var x := 1;
    while x < w - 1
      invariant 1 <= x <= w && x % 2 == 1
      invariant forall xx :: 0 <= xx < x ==> r.grid[y, xx] == want[y][xx]
      invariant forall xx :: x <= xx < w ==> r.grid[y, xx] == Color(BLACK)
      invariant forall yy, xx :: 0 <= yy < r.grid.Length0 && yy != y && 0 <= xx < r.grid.Length1 ==> r.grid[yy, xx] == old(r.grid[yy, xx])
    {
      var c := BlockColor(img, x, y, g);
      assert want[y][x] == c;
      NextIsEven(x);
      r.SetPixel(x, y, c);
      x := x + 2;
    }
  }

  /** A row that holds no block centre is BLACK in the resampled image. */
  lemma UnsampledRow(g: Grid, w: nat, h: nat, y: int)
    requires IsRect(g, w, h) && 0 <= y < h && !(1 <= y < h - 1 && y % 2 == 1)
    ensures forall x :: 0 <= x < w ==> Resampled(g, w, h)[y][x] == Color(BLACK)
  {
  }

  /** The step of two from an odd coordinate skips an even one, which is never sampled. */
  lemma NextIsEven(v: int)
    requires v % 2 == 1
    ensures (v + 1) % 2 == 0 && (v + 2) % 2 == 1
  {
  }

  /** The body of `resample`'s inner loop: the colour of the block means around `(x, y)`. */
  method BlockColor(img: Image, x: int, y: int, ghost g: Grid) returns (c: Color)
    requires img.Valid() && g == img.Rows() && 1 <= x < img.Width() - 1 && 1 <= y < img.Height() - 1
    ensures c == BlockMean(g, img.Width(), img.Height(), x, y)
  {
    var w, h := img.Width(), img.Height();
    var red, green, blue := 0, 0, 0;
    for i := -1 to 2
      invariant Sums(red, green, blue) == BlockSum(g, w, h, x, y, x + i)
    {
      var r, gr, b := ColumnTotals(img, x + i, y, g);
      red, green, blue := red + r, green + gr, blue + b;
    }
    MeanIsComponent(red, 9);
    MeanIsComponent(green, 9);
    MeanIsComponent(blue, 9);
    c := Compose(red / 9, green / 9, blue / 9);
  }

  /** The innermost loop of `resample`: the component sums over rows `y - 1` to `y + 1` of column `cx`. */
  method ColumnTotals(img: Image, cx: int, y: int, ghost g: Grid) returns (red: int, green: int, blue: int)
    requires img.Valid() && g == img.Rows() && 0 <= cx < img.Width() && 1 <= y < img.Height() - 1
    ensures Sums(red, green, blue) == ColumnSum(g, img.Width(), img.Height(), cx, y, y + 2)
  {
    var w, h := img.Width(), img.Height();
    red, green, blue := 0, 0, 0;
    for j := -1 to 2
      invariant Sums(red, green, blue) == ColumnSum(g, w, h, cx, y, y + j)
    {
      var pixel := img.Pixel(cx, y + j);
      red := red + Red(pixel);
      green := green + Green(pixel);
      blue := blue + Blue(pixel);
    }
  }

  /** Every column of a block of an image of one colour sums to three times its components. */
  lemma ColumnOfFilled(w: nat, h: nat, c: Color, cx: int, y: int)
    requires 0 <= cx < w && 1 <= y < h - 1
    ensures ColumnSum(Filled(w, h, c), w, h, cx, y, y + 2) == Sums(3 * Red(c), 3 * Green(c), 3 * Blue(c))
  {
    var g := Filled(w, h, c);
    assert ColumnSum(g, w, h, cx, y, y) == Sums(Red(c), Green(c), Blue(c));
  }

  /** Every block of an image of one colour sums to nine times its components. */
  lemma BlockOfFilled(w: nat, h: nat, c: Color, x: int, y: int)
    requires 1 <= x < w - 1 && 1 <= y < h - 1
    ensures BlockSum(Filled(w, h, c), w, h, x, y, x + 2) == Sums(9 * Red(c), 9 * Green(c), 9 * Blue(c))
  {
    var g := Filled(w, h, c);
    ColumnOfFilled(w, h, c, x - 1, y);
    ColumnOfFilled(w, h, c, x, y);
    ColumnOfFilled(w, h, c, x + 1, y);
    assert BlockSum(g, w, h, x, y, x) == Sums(3 * Red(c), 3 * Green(c), 3 * Blue(c));
  }

  /**
   * Resampling an image of one colour gives that colour at every sampled pixel and BLACK
   * everywhere else.
   */
  lemma ResampledFilled(w: nat, h: nat, c: Color)
    requires IsPacked(c)
    ensures forall y, x :: 0 <= y < h && 0 <= x < w ==>
      Resampled(Filled(w, h, c), w, h)[y][x] == if Sampled(w, h, x, y) then c else Color(BLACK)
  {
    var g := Filled(w, h, c);
    forall y, x | 0 <= y < h && 0 <= x < w && Sampled(w, h, x, y)
      ensures BlockMean(g, w, h, x, y) == c
    {
      BlockOfFilled(w, h, c, x, y);
      MultipleDivides(9, Red(c));
      MultipleDivides(9, Green(c));
      MultipleDivides(9, Blue(c));
      ComposeComponents(c);
    }
  }
}
