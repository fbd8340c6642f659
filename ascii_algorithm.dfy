/** The conversion of an image into characters
    (ascii_art/AsciiArtAlgorithm.java): pad the image to power-of-two
    sides, cut it into square sub-images, and replace each sub-image with
    the character whose brightness matches the sub-image's brightness. */
module AsciiArt {
  import opened JavaText
  import opened Raster
  import opened ImageUtils
  import opened CharMatching

  /** Sub-images that each hold at least one pixel. */
  ghost predicate NonEmptyImages(row: seq<Image>) {
    forall j :: 0 <= j < |row| ==> row[j].WellFormed() && row[j].height >= 1 && row[j].width >= 1
  }

  /** Sub-images whose every pixel is a valid colour. */
  ghost predicate ValidImages(row: seq<Image>) {
    forall j :: 0 <= j < |row| ==> row[j].Valid()
  }

  /** The brightness of each sub-image of a row. */
  function Brightnesses(row: seq<Image>): (qs: seq<real>)
    requires NonEmptyImages(row)
    ensures |qs| == |row|
  {
    seq(|row|, j requires 0 <= j < |row| => Brightness(row[j]))
  }

  /** The matched character of each brightness, in order. */
  function MatchAll(buckets: map<real, set<Code>>, qs: seq<real>): (cs: seq<Code>)
    requires buckets.Keys != {} && NoEmptyBucket(buckets)
    ensures |cs| == |qs|
  {
    if qs == [] then [] else MatchAll(buckets, qs[..|qs| - 1]) + [Match(buckets, qs[|qs| - 1])]
  }

  lemma {:induction false} MatchAllAt(buckets: map<real, set<Code>>, qs: seq<real>, j: int)
    requires buckets.Keys != {} && NoEmptyBucket(buckets)
    requires 0 <= j < |qs|
    ensures MatchAll(buckets, qs)[j] == Match(buckets, qs[j])
  {
    if j < |qs| - 1 {
      MatchAllAt(buckets, qs[..|qs| - 1], j);
    }
  }

  /** The sub-image grid of the padded image. */
  function SubImages(image: Image, resolution: int): (grid: seq<seq<Image>>)
    requires image.WellFormed() && 1 <= resolution <= NextPowerOfTwo(image.height)
    ensures |grid| == resolution
    ensures forall i :: 0 <= i < |grid| ==> NonEmptyImages(grid[i])
    ensures TileSide(Padded(image), resolution) >= 1
    ensures forall i :: 0 <= i < |grid| ==>
              |grid[i]| == NextPowerOfTwo(image.width) / TileSide(Padded(image), resolution)
    ensures image.Valid() ==> forall i :: 0 <= i < |grid| ==> ValidImages(grid[i])
  {
    PaddedShape(image);
    var grid := Tiles(Padded(image), resolution);
    TilesShape(Padded(image), resolution);
    assert image.Valid() ==> forall i :: 0 <= i < |grid| ==> ValidImages(grid[i]) by {
      if image.Valid() {
        TilesValid(Padded(image), resolution);
      }
    }
    forall i, j | 0 <= i < |grid| && 0 <= j < |grid[i]|
      ensures grid[i][j].WellFormed() && grid[i][j].height >= 1 && grid[i][j].width >= 1
    {
      TilesGeometry(Padded(image), resolution, i, j, 0, 0);
    }
    grid
  }

  /** The character grid for an image at a resolution, given the matcher's
      buckets: row i holds the matches of the brightnesses of row i of the
      sub-images of the padded image. */
  function Art(image: Image, resolution: int, buckets: map<real, set<Code>>): seq<seq<Code>>
    requires image.WellFormed() && 1 <= resolution <= NextPowerOfTwo(image.height)
    requires buckets.Keys != {} && NoEmptyBucket(buckets)
  {
    var grid := SubImages(image, resolution);
    seq(|grid|, i requires 0 <= i < |grid| => MatchAll(buckets, Brightnesses(grid[i])))
  }

  /** The grid has `resolution` rows, each as long as the padded width holds
      whole sub-images, and cell (i, j) is the character matched to the
      brightness of sub-image (i, j). */
  lemma ArtCell(image: Image, resolution: int, buckets: map<real, set<Code>>, i: int, j: int)
    requires image.WellFormed() && 1 <= resolution <= NextPowerOfTwo(image.height)
    requires buckets.Keys != {} && NoEmptyBucket(buckets)
    requires 0 <= i < resolution
    ensures var art := Art(image, resolution, buckets);
            var side := TileSide(Padded(image), resolution);
            |art| == resolution && side >= 1 &&
            |art[i]| == NextPowerOfTwo(image.width) / side &&
            (0 <= j < |art[i]| ==>
               art[i][j] == Match(buckets, Brightness(Tiles(Padded(image), resolution)[i][j])))
  {
    var grid := SubImages(image, resolution);
    if 0 <= j < |grid[i]| {
      MatchAllAt(buckets, Brightnesses(grid[i]), j);
    }
  }

  /** Every character of the grid belongs to the charset. */
  lemma ArtInCharset(image: Image, resolution: int, chars: set<Code>, luma: Code -> real)
    requires image.WellFormed() && 1 <= resolution <= NextPowerOfTwo(image.height)
    requires chars != {}
    ensures Buckets(chars, luma).Keys != {} && NoEmptyBucket(Buckets(chars, luma))
    ensures var art := Art(image, resolution, Buckets(chars, luma));
            forall i, j :: 0 <= i < |art| && 0 <= j < |art[i]| ==> art[i][j] in chars
  {
    MatchInCharset(chars, luma, 0.0);
    var buckets := Buckets(chars, luma);
    var art := Art(image, resolution, buckets);
    var grid := SubImages(image, resolution);
    forall i, j | 0 <= i < |art| && 0 <= j < |art[i]| ensures art[i][j] in chars {
      MatchAllAt(buckets, Brightnesses(grid[i]), j);
      MatchInCharset(chars, luma, Brightness(grid[i][j]));
    }
  }

  /** The array holds exactly the character grid `art`. */
  ghost predicate Depicts(grid: array2<Code>, art: seq<seq<Code>>)
    reads grid
  {
    grid.Length0 == |art| &&
    (forall i :: 0 <= i < |art| ==> grid.Length1 == |art[i]|) &&
    (forall i, j :: 0 <= i < |art| && 0 <= j < |art[i]| ==> grid[i, j] == art[i][j])
  }

  /** Converts one sub-image into its character, cell (i, j) of the grid
      (the body of the inner loop of run). */
  method FillCell(matcher: SubImgCharMatcher, asciiImage: array2<Code>, i: int, j: int, tile: Image, ghost buckets: map<real, set<Code>>)
    requires 0 <= i < asciiImage.Length0 && 0 <= j < asciiImage.Length1
    requires tile.Valid() && tile.height >= 1 && tile.width >= 1
    requires matcher.Valid() && matcher.setToPrint != {} && matcher.charTreeSet == buckets
    requires buckets.Keys != {} && NoEmptyBucket(buckets)
    modifies asciiImage, matcher`stretched, matcher`stretchedSet
    ensures matcher.Valid()
    ensures asciiImage[i, j] == Match(buckets, Brightness(tile))
    ensures forall r, c :: 0 <= r < asciiImage.Length0 && 0 <= c < asciiImage.Length1 && (r != i || c != j) ==>
              asciiImage[r, c] == old(asciiImage[r, c])
  {
    var brightness := CalculateBrightness(tile);
    BrightnessRange(tile);
    asciiImage[i, j] := matcher.GetCharByImageBrightness(brightness);
  }

  /** Fills row i of the character grid from row i of the sub-images. */
  method FillRow(matcher: SubImgCharMatcher, asciiImage: array2<Code>, i: int, row: seq<Image>, ghost buckets: map<real, set<Code>>)
    requires 0 <= i < asciiImage.Length0 && |row| == asciiImage.Length1
    requires NonEmptyImages(row) && ValidImages(row)
    requires matcher.Valid() && matcher.setToPrint != {} && matcher.charTreeSet == buckets
    requires buckets.Keys != {} && NoEmptyBucket(buckets)
    modifies asciiImage, matcher`stretched, matcher`stretchedSet
    ensures matcher.Valid()
    ensures forall j :: 0 <= j < |row| ==> asciiImage[i, j] == MatchAll(buckets, Brightnesses(row))[j]
    ensures forall r, c :: 0 <= r < asciiImage.Length0 && 0 <= c < asciiImage.Length1 && r != i ==>
              asciiImage[r, c] == old(asciiImage[r, c])
  {
    ghost var qs := Brightnesses(row);
    for j := 0 to |row|
      invariant matcher.Valid()
      invariant forall c :: 0 <= c < j ==> asciiImage[i, c] == Match(buckets, qs[c])
      invariant forall r, c :: 0 <= r < asciiImage.Length0 && 0 <= c < asciiImage.Length1 && r != i ==>
                  asciiImage[r, c] == old(asciiImage[r, c])
    {
      FillCell(matcher, asciiImage, i, j, row[j], buckets);
    }
    forall j | 0 <= j < |row|
      ensures asciiImage[i, j] == MatchAll(buckets, qs)[j]
    {
      MatchAllAt(buckets, qs, j);
    }
  }

  /** Fills the whole character grid from the grid of sub-images, row by
      row. */
  method FillGrid(matcher: SubImgCharMatcher, asciiImage: array2<Code>, grid: seq<seq<Image>>, ghost buckets: map<real, set<Code>>)
    requires asciiImage.Length0 == |grid|
    requires forall i :: 0 <= i < |grid| ==> |grid[i]| == asciiImage.Length1 && NonEmptyImages(grid[i]) && ValidImages(grid[i])
    requires matcher.Valid() && matcher.setToPrint != {} && matcher.charTreeSet == buckets
    requires buckets.Keys != {} && NoEmptyBucket(buckets)
    modifies asciiImage, matcher`stretched, matcher`stretchedSet
    ensures matcher.Valid()
    ensures forall r, c :: 0 <= r < |grid| && 0 <= c < asciiImage.Length1 ==>
              asciiImage[r, c] == MatchAll(buckets, Brightnesses(grid[r]))[c]
  {
    for i := 0 to |grid|
      invariant matcher.Valid()
      invariant forall r, c :: 0 <= r < i && 0 <= c < asciiImage.Length1 ==>
                  asciiImage[r, c] == MatchAll(buckets, Brightnesses(grid[r]))[c]
    {
      FillRow(matcher, asciiImage, i, grid[i], buckets);
    }
  }

  /** A grid filled row by row from the sub-images of the padded image
      holds the character grid of the image. */
  lemma ArtDepicted(asciiImage: array2<Code>, image: Image, resolution: int, buckets: map<real, set<Code>>)
    requires image.WellFormed() && 1 <= resolution <= NextPowerOfTwo(image.height)
    requires buckets.Keys != {} && NoEmptyBucket(buckets)
    requires asciiImage.Length0 == resolution && asciiImage.Length1 == |SubImages(image, resolution)[0]|
    requires forall r, c :: 0 <= r < resolution && 0 <= c < asciiImage.Length1 ==>
               asciiImage[r, c] == MatchAll(buckets, Brightnesses(SubImages(image, resolution)[r]))[c]
    ensures Depicts(asciiImage, Art(image, resolution, buckets))
  {
  }

  class AsciiArtAlgorithm {
    const resolution: int
    const matcher: SubImgCharMatcher
    const image: Image

    constructor (image: Image, resolution: int, matcher: SubImgCharMatcher)
      ensures this.image == image && this.resolution == resolution && this.matcher == matcher
    {
      this.image := image;
      this.resolution := resolution;
      this.matcher := matcher;
    }

    /** The character grid of the image (run). */
    method Run() returns (asciiImage: array2<Code>)
      requires image.Valid() && 1 <= resolution <= NextPowerOfTwo(image.height)
      requires matcher.Valid() && matcher.setToPrint != {}
      modifies matcher`stretched, matcher`stretchedSet
      ensures fresh(asciiImage)
      ensures matcher.Valid() && matcher.charTreeSet.Keys != {} && NoEmptyBucket(matcher.charTreeSet)
      ensures Depicts(asciiImage, Art(image, resolution, matcher.charTreeSet))
    {
      MatchInCharset(matcher.setToPrint, matcher.luma, 0.0);
      ghost var buckets := matcher.charTreeSet;
      var wrapImage := WrapImage(image);
      var subImages := SplitToSubImages(wrapImage, resolution);
      assert subImages == SubImages(image, resolution);
      asciiImage := new Code[|subImages|, |subImages[0]|];
      FillGrid(matcher, asciiImage, subImages, buckets);
      ArtDepicted(asciiImage, image, resolution, buckets);
    }
  }
}
