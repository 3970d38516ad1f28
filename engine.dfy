/** `load_image`: obtain two rasters, refuse different dimensions, and sum the
    per-pixel absolute luma differences with x in the outer loop and y in the
    inner loop. Opening and decoding a file are abstracted into `ImageFile`. */
module Engine {
  import opened Wrappers
  import opened Luma
  import opened Rasters
  import opened Metric

  /** What opening and decoding one path yields: the file cannot be opened
      (`ImageReader::open` fails and `?` returns the I/O error), its content
      cannot be decoded (the source panics), or an RGB8 raster. */
  datatype ImageFile = Unopenable | Undecodable | Image(raster: Raster)

  /** The reasons for which the source panics instead of returning. */
  datatype PanicReason = DecodeFailed | DifferentWidths | DifferentHeights | IndexOutOfBounds

  /** A returned `std::io::Error`, or a panic that aborts the whole computation. */
  datatype Failure = IoError | Panic(reason: PanicReason)

  /** The pair `(diff, width * height)` that `load_image` returns. */
  datatype DiffCount = DiffCount(diff: nat, count: nat)

  /** Open and decode one file. */
  function Decode(f: ImageFile): (r: Result<Raster, Failure>)
    ensures r.Success? <==> f.Image?
    ensures r.Success? ==> r.value == f.raster
    ensures r == Failure(IoError) <==> f.Unopenable?
    ensures r == Failure(Panic(DecodeFailed)) <==> f.Undecodable?
  {
    match f
    case Unopenable => Failure(IoError)
    case Undecodable => Failure(Panic(DecodeFailed))
    case Image(r) => Success(r)
  }

  /** What `load_image(file1, file2)` produces: the first file is opened and
      decoded before the second, widths are checked before heights, and only
      then is the difference summed. */
  function Comparison(f1: ImageFile, f2: ImageFile): (r: Result<DiffCount, Failure>)
    ensures r.Success? ==> r.value.diff <= 255 * r.value.count
  {
    var a :- Decode(f1);
    var b :- Decode(f2);
    if a.width != b.width then Failure(Panic(DifferentWidths))
    else if a.height != b.height then Failure(Panic(DifferentHeights))
    else
      DiffBound(a, b);
      Success(DiffCount(TotalDiff(a, b), a.width * a.height))
  }

  /** The loops of `load_image` with an accumulator that cannot overflow. */
  method Accumulate(a: Raster, b: Raster) returns (diff: nat)
    requires SameDimensions(a, b)
    ensures diff == TotalDiff(a, b)
  {
    diff := 0;
    for x := 0 to a.width
      invariant diff == GridDiff(a, b, x, a.height)
    {
      for y := 0 to a.height
        invariant diff == GridDiff(a, b, x, a.height) + ColumnDiff(a, b, x, y)
      {
        var lum1 := Luminance(PixelAt(a, x, y));
        var lum2 := Luminance(PixelAt(b, x, y));
        diff := diff + Abs(lum1 - lum2);
      }
    }
  }

  /** Adding to a wrapped sum wraps the full sum. */
  lemma WrappingAdd(s: nat, d: nat)
    ensures (s % U32_LIMIT + d) % U32_LIMIT == (s + d) % U32_LIMIT
  {
    var q := s / U32_LIMIT;
    assert s == q * U32_LIMIT + s % U32_LIMIT;
    assert s + d == q * U32_LIMIT + (s % U32_LIMIT + d);
  }

  /** The loops of `load_image` as written: `diff` is a `u32` and `+=` wraps
      around at 2^32 (a release build; a debug build panics at the same point). */
  method AccumulateU32(a: Raster, b: Raster) returns (diff: nat)
    requires SameDimensions(a, b)
    ensures diff < U32_LIMIT
    ensures diff == TotalDiff(a, b) % U32_LIMIT
  {
    diff := 0;
    ghost var exact := 0;
    for x := 0 to a.width
      invariant exact == GridDiff(a, b, x, a.height)
      invariant diff == exact % U32_LIMIT
    {
      for y := 0 to a.height
        invariant exact == GridDiff(a, b, x, a.height) + ColumnDiff(a, b, x, y)
        invariant diff == exact % U32_LIMIT
      {
        var lum1 := Luminance(PixelAt(a, x, y));
        var lum2 := Luminance(PixelAt(b, x, y));
        WrappingAdd(exact, Abs(lum1 - lum2));
        diff := (diff + Abs(lum1 - lum2)) % U32_LIMIT;
        exact := exact + Abs(lum1 - lum2);
      }
    }
  }

  /** `load_image` over two opened-or-not files. */
  method LoadImage(f1: ImageFile, f2: ImageFile) returns (r: Result<DiffCount, Failure>)
    ensures r == Comparison(f1, f2)
  {
    var a :- Decode(f1);
    var b :- Decode(f2);
    if a.width != b.width {
      return Failure(Panic(DifferentWidths));
    }
    if a.height != b.height {
      return Failure(Panic(DifferentHeights));
    }
    var diff := Accumulate(a, b);
    return Success(DiffCount(diff, a.width * a.height));
  }

  // ---------------------------------------------------------------------------
  // Properties of one comparison

  /** Two decodable files compare exactly when their dimensions agree; widths
      are checked first, and nothing is summed on a mismatch. */
  lemma DimensionGuard(a: Raster, b: Raster)
    ensures Comparison(Image(a), Image(b)).Success? <==> SameDimensions(a, b)
    ensures a.width != b.width ==> Comparison(Image(a), Image(b)) == Failure(Panic(DifferentWidths))
    ensures a.width == b.width && a.height != b.height ==>
      Comparison(Image(a), Image(b)) == Failure(Panic(DifferentHeights))
  {
  }

  /** On success, the difference is the sum over every pixel, the count is the
      pixel count of the first raster and, the dimensions being equal, of the
      second one as well. */
  lemma ComparisonCountsPixels(f1: ImageFile, f2: ImageFile)
    requires Comparison(f1, f2).Success?
    ensures f1.Image? && f2.Image? && SameDimensions(f1.raster, f2.raster)
    ensures Comparison(f1, f2).value.diff == TotalDiff(f1.raster, f2.raster)
    ensures Comparison(f1, f2).value.count == f1.raster.width * f1.raster.height
                                          == f2.raster.width * f2.raster.height
  {
  }

  /** A raster compared with itself: no difference, every pixel counted. */
  lemma ComparisonIdentity(a: Raster)
    ensures Comparison(Image(a), Image(a)) == Success(DiffCount(0, a.width * a.height))
  {
    DiffSelf(a);
  }

  /** Swapping two decodable files changes nothing: not the outcome, not the
      failure reason. */
  lemma ComparisonSymmetric(a: Raster, b: Raster)
    ensures Comparison(Image(a), Image(b)) == Comparison(Image(b), Image(a))
  {
    if SameDimensions(a, b) {
      DiffSymmetric(a, b);
    }
  }

  // ---------------------------------------------------------------------------
  // The u32 accumulator

  /** As long as 255 * width * height fits in a u32, the wrapping accumulator of
      the source agrees with the exact sum. */
  lemma NoWrapWhenSmall(a: Raster, b: Raster)
    requires SameDimensions(a, b) && 255 * (a.width * a.height) < U32_LIMIT
    ensures TotalDiff(a, b) % U32_LIMIT == TotalDiff(a, b)
  {
    DiffBound(a, b);
  }

  /** A raster of one colour everywhere. */
  function Uniform(w: nat, h: nat, v: Byte): (img: Raster)
    requires w < U32_LIMIT && h < U32_LIMIT
    ensures img.width == w && img.height == h
    ensures forall i :: 0 <= i < |img.data| ==> img.data[i] == v
  {
    RgbImage(w, h, seq(w * h * 3, _ => v))
  }

  /** A 5000 x 5000 all-white raster against an all-black one: the exact sum
      is 6,375,000,000, which a u32 cannot hold; the source's accumulator wraps
      it to 2,080,032,704, so the reported per-pixel average is about 83.2
      instead of 255. */
  lemma WrapsOnLargeImage()
    ensures var white, black := Uniform(5000, 5000, 255), Uniform(5000, 5000, 0);
      && SameDimensions(white, black)
      && TotalDiff(white, black) == 6_375_000_000
      && TotalDiff(white, black) % U32_LIMIT == 2_080_032_704
  {
    var white, black := Uniform(5000, 5000, 255), Uniform(5000, 5000, 0);
    assert 6_375_000_000 % U32_LIMIT == 2_080_032_704;
    forall x: nat, y: nat | x < 5000 && y < 5000
      ensures PixelDelta(white, black, x, y) == 255
    {
      LuminanceOfGray(255);
      LuminanceOfGray(0);
      PixelIndexInRange(5000, 5000, x, y);
      assert PixelAt(white, x, y) == Rgb(255, 255, 255);
      assert PixelAt(black, x, y) == Rgb(0, 0, 0);
    }
    DiffUniform(white, black, 255);
  }
}
