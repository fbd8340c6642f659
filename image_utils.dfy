/** Padding, tiling and brightness of images (image/Utils.java).
    Luminance is computed over the reals: the source's doubles are not
    modelled bit for bit. */
module ImageUtils {
  import opened Raster

  // ---------------------------------------------------------------------
  // Powers of two

  function Pow2(e: nat): (p: int)
    ensures p >= 1
  {
    if e == 0 then 1 else 2 * Pow2(e - 1)
  }

  ghost predicate IsPowerOfTwo(n: int) {
    exists e: nat :: Pow2(e) == n
  }

  /** The number of doublings that take 1 to at least n. */
  function Log2Ceil(n: int): nat
    decreases n
  {
    if n <= 1 then 0 else 1 + Log2Ceil((n + 1) / 2)
  }

  /** The smallest power of two that is at least n (1 when n <= 1). */
  function NextPowerOfTwo(n: int): int {
    Pow2(Log2Ceil(n))
  }

  lemma {:induction false} Pow2Increasing(a: nat, b: nat)
    requires a < b
    ensures Pow2(a) < Pow2(b)
  {
    if a < b - 1 {
      Pow2Increasing(a, b - 1);
    }
  }

  /** Pow2 preserves and reflects the order of exponents. */
  lemma Pow2Order(a: nat, b: nat)
    ensures a < b <==> Pow2(a) < Pow2(b)
    ensures a <= b <==> Pow2(a) <= Pow2(b)
  {
    if a < b { Pow2Increasing(a, b); }
    if b < a { Pow2Increasing(b, a); }
  }

  /** NextPowerOfTwo(n) is a power of two, at least n, and its half is
      below n; it is 1 exactly for n <= 1. */
  lemma {:induction false} NextPowerOfTwoBounds(n: int)
    ensures NextPowerOfTwo(n) >= n && NextPowerOfTwo(n) >= 1
    ensures NextPowerOfTwo(n) == 1 <==> n <= 1
    ensures NextPowerOfTwo(n) > 1 ==> NextPowerOfTwo(n) / 2 < n
    ensures NextPowerOfTwo(n) > 1 ==> NextPowerOfTwo(n) % 2 == 0
  {
    if n > 1 {
      var m := (n + 1) / 2;
      NextPowerOfTwoBounds(m);
    }
  }

  /** No power of two that is at least n lies below NextPowerOfTwo(n). */
  lemma {:induction false} NextPowerOfTwoLeast(n: int, e: nat)
    requires Pow2(e) >= n
    ensures NextPowerOfTwo(n) <= Pow2(e)
  {
    if n > 1 {
      var m := (n + 1) / 2;
      assert e >= 1;
      assert Pow2(e - 1) >= m;
      NextPowerOfTwoLeast(m, e - 1);
    }
  }

  /** A power of two is its own next power of two. */
  lemma PowerOfTwoIsFixed(n: int)
    requires IsPowerOfTwo(n)
    ensures NextPowerOfTwo(n) == n
  {
    var e: nat :| Pow2(e) == n;
    NextPowerOfTwoLeast(n, e);
    NextPowerOfTwoBounds(n);
  }

  /** Doubles 1 until it reaches size (findSqrt). */
  method FindSqrt(size: int) returns (square: int)
    ensures square == NextPowerOfTwo(size)
    ensures square >= size && square >= 1
  {
    square := 1;
    ghost var e: nat := 0;
    while square < size
      invariant square == Pow2(e)
      invariant e == 0 || Pow2(e - 1) < size
      decreases size - square
    {
      square := square * 2;
      e := e + 1;
    }
    NextPowerOfTwoLeast(size, e);
    NextPowerOfTwoBounds(size);
    if e > 0 {
      Pow2Order(e - 1, Log2Ceil(size));
      Pow2Order(e, Log2Ceil(size));
    }
  }

  // ---------------------------------------------------------------------
  // Padding

  /** The colour of padded pixel (row, col): white outside the window that
      starts at half of each gap, else the original pixel shifted back. The
      source passes non-negative gaps only, where its integer division and
      Dafny's agree. */
  function PixelDecision(image: Image, row: int, col: int, heightGap: int,
                         widthGap: int, oldRows: int, oldCols: int): (c: Color)
    requires image.WellFormed() && oldRows == image.height && oldCols == image.width
    requires heightGap >= 0 && widthGap >= 0
  {
    if row < heightGap / 2 || row >= heightGap / 2 + oldRows then White
    else if col < widthGap / 2 || col >= widthGap / 2 + oldCols then White
    else image.GetPixel(row - heightGap / 2, col - widthGap / 2)
  }

  /** The image WrapImage produces. */
  function Padded(image: Image): (r: Image)
    requires image.WellFormed()
  {
    var height := NextPowerOfTwo(image.height);
    var width := NextPowerOfTwo(image.width);
    NextPowerOfTwoBounds(image.height);
    NextPowerOfTwoBounds(image.width);
    Image(seq(height, row =>
            seq(width, col =>
              PixelDecision(image, row, col, height - image.height,
                            width - image.width, image.height, image.width))),
          width, height)
  }

  /** The padded image is well formed, each side the next power of two of
      the original side, and keeps valid colours valid. */
  lemma PaddedShape(image: Image)
    requires image.WellFormed()
    ensures Padded(image).WellFormed()
    ensures Padded(image).height == NextPowerOfTwo(image.height) >= image.height
    ensures Padded(image).width == NextPowerOfTwo(image.width) >= image.width
    ensures image.Valid() ==> Padded(image).Valid()
  {
    NextPowerOfTwoBounds(image.height);
    NextPowerOfTwoBounds(image.width);
  }

  /** A padded pixel outside the centred window is white. */
  lemma PaddedBorderIsWhite(image: Image, row: int, col: int)
    requires image.WellFormed()
    requires 0 <= row < NextPowerOfTwo(image.height) && 0 <= col < NextPowerOfTwo(image.width)
    requires var gapH := NextPowerOfTwo(image.height) - image.height;
             var gapW := NextPowerOfTwo(image.width) - image.width;
             row < gapH / 2 || row >= gapH / 2 + image.height ||
             col < gapW / 2 || col >= gapW / 2 + image.width
    ensures Padded(image).pixels[row][col] == White
  {
  }

  /** Inside the window a padded pixel is the original pixel at the
      position shifted back by half of each gap. */
  lemma PaddedInteriorIsOriginal(image: Image, row: int, col: int)
    requires image.WellFormed()
    requires var gapH := NextPowerOfTwo(image.height) - image.height;
             var gapW := NextPowerOfTwo(image.width) - image.width;
             gapH / 2 <= row < gapH / 2 + image.height &&
             gapW / 2 <= col < gapW / 2 + image.width
    ensures var gapH := NextPowerOfTwo(image.height) - image.height;
            var gapW := NextPowerOfTwo(image.width) - image.width;
            0 <= row < Padded(image).height && 0 <= col < Padded(image).width &&
            Padded(image).pixels[row][col] == image.pixels[row - gapH / 2][col - gapW / 2]
  {
    NextPowerOfTwoBounds(image.height);
    NextPowerOfTwoBounds(image.width);
  }

  /** Padding an image whose sides are already powers of two reproduces it
      pixel for pixel. */
  lemma PaddingPowerOfTwoIsIdentity(image: Image)
    requires image.WellFormed()
    requires IsPowerOfTwo(image.height) && IsPowerOfTwo(image.width)
    ensures Padded(image) == image
  {
    PowerOfTwoIsFixed(image.height);
    PowerOfTwoIsFixed(image.width);
    var p := Padded(image);
    forall row | 0 <= row < image.height
      ensures p.pixels[row] == image.pixels[row]
    {
      assert |p.pixels[row]| == |image.pixels[row]|;
      forall col | 0 <= col < image.width
        ensures p.pixels[row][col] == image.pixels[row][col]
      {
      }
    }
    assert p.pixels == image.pixels;
  }

  /** Pads an image to power-of-two sides, centred on white (WrapImage). */
  method WrapImage(image: Image) returns (wrapped: Image)
    requires image.WellFormed()
    ensures wrapped == Padded(image)
  {
    var oldHeight := image.height;
    var oldWidth := image.width;
    var height := FindSqrt(oldHeight);
    var width := FindSqrt(oldWidth);
    var grid := new Color[height, width];
    for row := 0 to height
      invariant forall r, c :: 0 <= r < row && 0 <= c < width ==>
        grid[r, c] == PixelDecision(image, r, c, height - oldHeight, width - oldWidth, oldHeight, oldWidth)
    {
      for col := 0 to width
        invariant forall r, c :: 0 <= r < row && 0 <= c < width ==>
          grid[r, c] == PixelDecision(image, r, c, height - oldHeight, width - oldWidth, oldHeight, oldWidth)
        invariant forall c :: 0 <= c < col ==>
          grid[row, c] == PixelDecision(image, row, c, height - oldHeight, width - oldWidth, oldHeight, oldWidth)
      {
        grid[row, col] := PixelDecision(image, row, col, height - oldHeight, width - oldWidth,
                                        oldHeight, oldWidth);
      }
    }
    wrapped := ArrayImage(grid);
    PaddedArray(grid, image);
  }

  /** The image a two-dimensional pixel array holds, rows first. */
  function ArrayImage(grid: array2<Color>): Image
    reads grid
  {
    Image(seq(grid.Length0, r requires 0 <= r < grid.Length0 reads grid =>
            seq(grid.Length1, c requires 0 <= c < grid.Length1 reads grid => grid[r, c])),
          grid.Length1, grid.Length0)
  }

  /** An array of the padded sides filled with the pixel decisions holds
      the padded image. */
  lemma PaddedArray(grid: array2<Color>, image: Image)
    requires image.WellFormed()
    requires grid.Length0 == NextPowerOfTwo(image.height) >= image.height
    requires grid.Length1 == NextPowerOfTwo(image.width) >= image.width
    requires forall r, c :: 0 <= r < grid.Length0 && 0 <= c < grid.Length1 ==>
               grid[r, c] == PixelDecision(image, r, c, grid.Length0 - image.height,
                                           grid.Length1 - image.width, image.height, image.width)
    ensures ArrayImage(grid) == Padded(image)
  {
    var a, p := ArrayImage(grid), Padded(image);
    forall r | 0 <= r < grid.Length0 ensures a.pixels[r] == p.pixels[r] {
    }
  }

  // ---------------------------------------------------------------------
  // Tiling

  lemma TileFits(t: int, count: int, side: int, total: int)
    requires 0 <= t < count && side >= 0 && count * side <= total
    ensures t * side + side <= total
  {
    var rest := count - t - 1;
    assert rest * side >= 0 by { MulNonNegative(rest, side); }
    assert count * side == t * side + side + rest * side;
  }

  lemma MulNonNegative(a: int, b: int)
    requires a >= 0 && b >= 0
    ensures a * b >= 0
  {
  }

  /** Sub-image (t, i) of the given side: the side-by-side block whose top
      left pixel is (t * side, i * side). */
  function Tile(image: Image, side: int, t: int, i: int): (sub: Image)
    requires image.WellFormed() && side >= 1 && t >= 0 && i >= 0
    requires t * side + side <= image.height && i * side + side <= image.width
  {
    Image(seq(side, j requires 0 <= j < side =>
            seq(side, k requires 0 <= k < side => image.pixels[j + t * side][k + i * side])),
          side, side)
  }

  /** The side length splitToSubImages uses. */
  function TileSide(image: Image, resolution: int): int
    requires resolution >= 1
  {
    image.height / resolution
  }

  lemma TileSideFacts(image: Image, resolution: int)
    requires image.WellFormed() && 1 <= resolution <= image.height
    ensures TileSide(image, resolution) >= 1
    ensures resolution * TileSide(image, resolution) <= image.height
    ensures image.width / TileSide(image, resolution) * TileSide(image, resolution) <= image.width
  {
  }

  /** The grid of sub-images splitToSubImages returns. */
  function Tiles(image: Image, resolution: int): (grid: seq<seq<Image>>)
    requires image.WellFormed() && 1 <= resolution <= image.height
  {
    var side := TileSide(image, resolution);
    TileSideFacts(image, resolution);
    seq(resolution, t requires 0 <= t < resolution =>
      seq(image.width / side, i requires 0 <= i < image.width / side =>
        TileFits(t, resolution, side, image.height);
        TileFits(i, image.width / side, side, image.width);
        Tile(image, side, t, i)))
  }

  /** The grid has `resolution` rows, each of width / side sub-images. */
  lemma TilesShape(image: Image, resolution: int)
    requires image.WellFormed() && 1 <= resolution <= image.height
    ensures TileSide(image, resolution) >= 1
    ensures |Tiles(image, resolution)| == resolution
    ensures forall t :: 0 <= t < resolution ==>
              |Tiles(image, resolution)[t]| == image.width / TileSide(image, resolution)
  {
    TileSideFacts(image, resolution);
  }

  /** The grid has `resolution` rows of width / side square sub-images of
      the given side, and pixel (j, k) of sub-image (t, i) is source pixel
      (j + t * side, k + i * side). */
  lemma TilesGeometry(image: Image, resolution: int, t: int, i: int, j: int, k: int)
    requires image.WellFormed() && 1 <= resolution <= image.height
    requires 0 <= t < resolution
    requires 0 <= i < image.width / TileSide(image, resolution)
    requires 0 <= j < TileSide(image, resolution) && 0 <= k < TileSide(image, resolution)
    ensures var grid := Tiles(image, resolution);
            var side := TileSide(image, resolution);
            |grid| == resolution && |grid[t]| == image.width / side &&
            grid[t][i].WellFormed() && grid[t][i].width == side && grid[t][i].height == side &&
            j + t * side < image.height && k + i * side < image.width &&
            grid[t][i].pixels[j][k] == image.pixels[j + t * side][k + i * side]
  {
    var side := TileSide(image, resolution);
    TileSideFacts(image, resolution);
    TileFits(t, resolution, side, image.height);
    TileFits(i, image.width / side, side, image.width);
  }

  /** Sub-images of a valid image are valid. */
  lemma TilesValid(image: Image, resolution: int)
    requires image.Valid() && 1 <= resolution <= image.height
    ensures forall t, i :: 0 <= t < resolution && 0 <= i < |Tiles(image, resolution)[t]| ==>
      Tiles(image, resolution)[t][i].Valid()
  {
    var side := TileSide(image, resolution);
    TileSideFacts(image, resolution);
    forall t, i | 0 <= t < resolution && 0 <= i < |Tiles(image, resolution)[t]|
      ensures Tiles(image, resolution)[t][i].Valid()
    {
      TileFits(t, resolution, side, image.height);
      TileFits(i, image.width / side, side, image.width);
      var sub := Tiles(image, resolution)[t][i];
      forall j, k | 0 <= j < |sub.pixels| && 0 <= k < |sub.pixels[j]|
        ensures sub.pixels[j][k].Valid()
      {
        TilesGeometry(image, resolution, t, i, j, k);
      }
    }
  }

  /** Copies sub-image (t, i) pixel by pixel (the two inner loops of
      splitToSubImages). */
  method CopyTile(image: Image, side: int, t: int, i: int) returns (sub: Image)
    requires image.WellFormed() && side >= 1 && t >= 0 && i >= 0
    requires t * side + side <= image.height && i * side + side <= image.width
    ensures sub == Tile(image, side, t, i)
  {
    var subImage := new Color[side, side];
    for j := 0 to side
      invariant forall jj, kk :: 0 <= jj < j && 0 <= kk < side ==>
        subImage[jj, kk] == image.pixels[jj + t * side][kk + i * side]
    {
      for k := 0 to side
        invariant forall jj, kk :: 0 <= jj < j && 0 <= kk < side ==>
          subImage[jj, kk] == image.pixels[jj + t * side][kk + i * side]
        invariant forall kk :: 0 <= kk < k ==>
          subImage[j, kk] == image.pixels[j + t * side][kk + i * side]
      {
        subImage[j, k] := image.GetPixel(j + t * side, k + i * side);
      }
    }
    sub := Image(seq(side, j requires 0 <= j < side reads subImage =>
                   seq(side, k requires 0 <= k < side reads subImage => subImage[j, k])),
                 side, side);
    var tile := Tile(image, side, t, i);
    forall j | 0 <= j < side ensures sub.pixels[j] == tile.pixels[j] {
    }
  }

  /** Splits an image into `resolution` rows of square sub-images whose side
      is height / resolution (splitToSubImages). The side must be at least
      one, otherwise the source divides by zero. */
  method SplitToSubImages(image: Image, resolution: int) returns (subImages: seq<seq<Image>>)
    requires image.WellFormed()
    requires 1 <= resolution <= image.height
    ensures subImages == Tiles(image, resolution)
  {
    var sizeOfImage := image.height / resolution;
    TileSideFacts(image, resolution);
    var columns := image.width / sizeOfImage;
    var grid := new Image[resolution, columns];
    for t := 0 to resolution
      invariant forall tt, ii :: 0 <= tt < t && 0 <= ii < columns ==>
        grid[tt, ii] == Tiles(image, resolution)[tt][ii]
    {
      for i := 0 to columns
        invariant forall tt, ii :: 0 <= tt < t && 0 <= ii < columns ==>
          grid[tt, ii] == Tiles(image, resolution)[tt][ii]
        invariant forall ii :: 0 <= ii < i ==> grid[t, ii] == Tiles(image, resolution)[t][ii]
      {
        TileFits(t, resolution, sizeOfImage, image.height);
        TileFits(i, columns, sizeOfImage, image.width);
        var sub := CopyTile(image, sizeOfImage, t, i);
        grid[t, i] := sub;
      }
    }
    subImages := seq(resolution, t requires 0 <= t < resolution reads grid =>
                   seq(columns, i requires 0 <= i < columns reads grid => grid[t, i]));
    forall t | 0 <= t < resolution ensures subImages[t] == Tiles(image, resolution)[t] {
    }
  }

  // ---------------------------------------------------------------------
  // Brightness

  /** Luminance of a colour, 0.2126 R + 0.7152 G + 0.0722 B (convertToGrayScale). */
  function Gray(pixel: Color): real {
    pixel.red as real * 0.2126 + pixel.green as real * 0.7152 + pixel.blue as real * 0.0722
  }

  /** Sum of the luminance of a row of pixels. */
  function RowGray(row: seq<Color>): real {
    if row == [] then 0.0 else RowGray(row[..|row| - 1]) + Gray(row[|row| - 1])
  }

  /** Sum of the luminance of a grid of pixels. */
  function GridGray(rows: seq<seq<Color>>): real {
    if rows == [] then 0.0 else GridGray(rows[..|rows| - 1]) + RowGray(rows[|rows| - 1])
  }

  /** Mean luminance of an image divided by 255. */
  function Brightness(image: Image): real
    requires image.height >= 1 && image.width >= 1
  {
    GridGray(image.pixels) / (image.height * image.width) as real / 255.0
  }

  /** Sums the luminance of every pixel and divides by the pixel count and
      by 255 (calculateBrightness). An empty image would divide zero by
      zero. */
  method CalculateBrightness(image: Image) returns (brightness: real)
    requires image.WellFormed() && image.height >= 1 && image.width >= 1
    ensures brightness == Brightness(image)
  {
    var sum := 0.0;
    for i := 0 to image.height
      invariant sum == GridGray(image.pixels[..i])
    {
      for j := 0 to image.width
        invariant sum == GridGray(image.pixels[..i]) + RowGray(image.pixels[i][..j])
      {
        assert image.pixels[i][..j + 1][..j] == image.pixels[i][..j];
        sum := sum + Gray(image.GetPixel(i, j));
      }
      assert image.pixels[i][..image.width] == image.pixels[i];
      assert image.pixels[..i + 1][..i] == image.pixels[..i];
    }
    assert image.pixels[..image.height] == image.pixels;
    sum := sum / (image.height * image.width) as real;
    brightness := sum / 255.0;
  }

  lemma GrayRange(pixel: Color)
    requires pixel.Valid()
    ensures 0.0 <= Gray(pixel) <= 255.0
  {
  }

  lemma {:induction false} RowGrayRange(row: seq<Color>)
    requires forall y :: 0 <= y < |row| ==> row[y].Valid()
    ensures 0.0 <= RowGray(row) <= 255.0 * |row| as real
  {
    if row != [] {
      RowGrayRange(row[..|row| - 1]);
      GrayRange(row[|row| - 1]);
    }
  }

  lemma {:induction false} GridGrayRange(rows: seq<seq<Color>>, width: nat)
    requires forall x :: 0 <= x < |rows| ==> |rows[x]| == width
    requires forall x, y :: 0 <= x < |rows| && 0 <= y < |rows[x]| ==> rows[x][y].Valid()
    ensures 0.0 <= GridGray(rows) <= 255.0 * (|rows| * width) as real
  {
    if rows != [] {
      var n := |rows|;
      GridGrayRange(rows[..n - 1], width);
      RowGrayRange(rows[n - 1]);
      assert (n - 1) * width + width == n * width;
    }
  }

  lemma MeanBounds(total: real, count: int)
    requires count >= 1 && 0.0 <= total <= 255.0 * count as real
    ensures 0.0 <= total / count as real / 255.0 <= 1.0
  {
    var c := count as real;
    assert total / c <= 255.0 by {
      assert total / c * c == total;
    }
  }

  /** The brightness of a valid image lies in [0, 1]. */
  lemma BrightnessRange(image: Image)
    requires image.Valid() && image.height >= 1 && image.width >= 1
    ensures 0.0 <= Brightness(image) <= 1.0
  {
    GridGrayRange(image.pixels, image.width);
    MeanBounds(GridGray(image.pixels), image.height * image.width);
  }

  lemma {:induction false} RowGrayUniform(row: seq<Color>, g: real)
    requires forall y :: 0 <= y < |row| ==> Gray(row[y]) == g
    ensures RowGray(row) == |row| as real * g
  {
    if row != [] {
      RowGrayUniform(row[..|row| - 1], g);
    }
  }

  lemma {:induction false} GridGrayUniform(rows: seq<seq<Color>>, r: real)
    requires forall x :: 0 <= x < |rows| ==> RowGray(rows[x]) == r
    ensures GridGray(rows) == |rows| as real * r
  {
    if rows != [] {
      GridGrayUniform(rows[..|rows| - 1], r);
    }
  }

  /** An image whose every pixel has luminance g sums to height * width * g. */
  lemma ImageGrayUniform(image: Image, g: real)
    requires image.WellFormed()
    requires forall x, y :: 0 <= x < image.height && 0 <= y < image.width ==>
               Gray(image.pixels[x][y]) == g
    ensures GridGray(image.pixels) == image.height as real * (image.width as real * g)
  {
    RowsGrayUniform(image.pixels, image.width, g);
    GridGrayUniform(image.pixels, image.width as real * g);
  }

  lemma RowsGrayUniform(rows: seq<seq<Color>>, width: int, g: real)
    requires forall x :: 0 <= x < |rows| ==> |rows[x]| == width
    requires forall x, y :: 0 <= x < |rows| && 0 <= y < width ==> Gray(rows[x][y]) == g
    ensures forall x :: 0 <= x < |rows| ==> RowGray(rows[x]) == width as real * g
  {
    forall x | 0 <= x < |rows|
      ensures RowGray(rows[x]) == width as real * g
    {
      RowGrayUniform(rows[x], g);
    }
  }

  /** An all-white image has brightness 1. */
  lemma BrightnessOfWhiteImage(image: Image)
    requires image.WellFormed() && image.height >= 1 && image.width >= 1
    requires forall x, y :: 0 <= x < image.height && 0 <= y < image.width ==>
               image.pixels[x][y] == White
    ensures Brightness(image) == 1.0
  {
    assert Gray(White) == 255.0;
    ImageGrayUniform(image, 255.0);
    var h, w := image.height as real, image.width as real;
    var area := (image.height * image.width) as real;
    assert area == h * w;
    assert GridGray(image.pixels) == area * 255.0;
    assert GridGray(image.pixels) / area == 255.0;
  }

  /** An all-black image has brightness 0. */
  lemma BrightnessOfBlackImage(image: Image)
    requires image.WellFormed() && image.height >= 1 && image.width >= 1
    requires forall x, y :: 0 <= x < image.height && 0 <= y < image.width ==>
               image.pixels[x][y] == Black
    ensures Brightness(image) == 0.0
  {
    ImageGrayUniform(image, 0.0);
  }
}
