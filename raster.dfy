/** The immutable pixel grid of the rendering pipeline (image/Image.java).
    A datatype value never changes, which is what the source's final fields
    and missing mutators give it. Loading from and saving to files is not
    part of this model. */
module Raster {

  /** A colour as its three channel intensities (java.awt.Color). */
  datatype Color = Color(red: int, green: int, blue: int) {
    /** Every channel is an 8-bit intensity. */
    predicate Valid() {
      0 <= red <= 255 && 0 <= green <= 255 && 0 <= blue <= 255
    }
  }

  const White := Color(255, 255, 255)
  const Black := Color(0, 0, 0)

  /** An image built from a pixel grid and its declared width and height,
      stored exactly as given; pixels[x][y] is row x, column y. */
  datatype Image = Image(pixels: seq<seq<Color>>, width: int, height: int) {

    /** The grid really has `height` rows of `width` pixels each. The source
        does not check this when it builds an image from an array. */
    ghost predicate WellFormed() {
      width >= 0 && |pixels| == height &&
      forall x :: 0 <= x < |pixels| ==> |pixels[x]| == width
    }

    /** Well formed and every pixel a valid colour. */
    ghost predicate Valid() {
      WellFormed() &&
      forall x, y :: 0 <= x < |pixels| && 0 <= y < |pixels[x]| ==> pixels[x][y].Valid()
    }

    /** The pixel in row x, column y; the grid is indexed directly, so the
        position must lie inside the stored grid. */
    function GetPixel(x: int, y: int): (c: Color)
      requires 0 <= x < |pixels| && 0 <= y < |pixels[x]|
      ensures Valid() ==> c.Valid()
      ensures WellFormed() ==> x < height && y < width
    {
      pixels[x][y]
    }
  }
}
