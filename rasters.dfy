/** Decoded rasters: `image::RgbImage` as width, height and a flat RGB8 buffer. */
module Rasters {
  import opened Luma

  /** One more than the largest `u32`, the type of the image crate's dimensions. */
  const U32_LIMIT: nat := 0x1_0000_0000

  /** An RGB8 image buffer: rows of pixels without padding, three bytes per
      pixel in R, G, B order. */
  datatype RgbImage = RgbImage(width: nat, height: nat, data: seq<Byte>)

  /** A well-formed raster: `u32` dimensions and a buffer of exactly
      width * height * 3 bytes. */
  type Raster = img: RgbImage
    | img.width < U32_LIMIT && img.height < U32_LIMIT && |img.data| == img.width * img.height * 3
    witness RgbImage(0, 0, [])

  predicate SameDimensions(a: Raster, b: Raster) {
    a.width == b.width && a.height == b.height
  }

  /** Pixel (x, y) is pixel number y * width + x of the buffer. */
  lemma PixelIndexInRange(w: nat, h: nat, x: nat, y: nat)
    requires x < w && y < h
    ensures y * w + x < w * h
  {
    assert y * w + x < (y + 1) * w;
    assert (y + 1) * w <= h * w;
  }

  /** The i-th three-byte group of the buffer. */
  function TripleAt(img: Raster, i: nat): Rgb
    requires i < img.width * img.height
  {
    Rgb(img.data[3 * i], img.data[3 * i + 1], img.data[3 * i + 2])
  }

  /** `get_pixel(x, y)`: the triple at byte offset (y * width + x) * 3. */
  function PixelAt(img: Raster, x: nat, y: nat): (p: Rgb)
    requires x < img.width && y < img.height
    ensures (y * img.width + x) * 3 + 2 < |img.data|
    ensures var o := (y * img.width + x) * 3;
      p == Rgb(img.data[o], img.data[o + 1], img.data[o + 2])
  {
    PixelIndexInRange(img.width, img.height, x, y);
    TripleAt(img, y * img.width + x)
  }
}
