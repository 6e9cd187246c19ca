/** Raw pixel buffers: the flat, row-major, channel-interleaved layout, the single-sample
    accessor and nearest-neighbour resampling (`Interpreter::get_pixel_value` and
    `Interpreter::resize_image` in ascii_art.cpp). */
module Images {
  import opened Numeric

  /** An unsigned 8-bit sample (`uint8_t`). */
  type Byte = b: int | 0 <= b < 256

  /** A raster of `width` x `height` pixels with `channels` samples each, stored row by row,
      the samples of one pixel next to each other. */
  datatype Image = Image(width: int, height: int, channels: int, data: seq<Byte>)
  {
    /** The buffer holds one sample per pixel and channel, as `Image(w, h, c)` allocates it. */
    predicate WellFormed()
    {
      |data| == width * height * channels
    }

    /** What `convert` accepts: a non-empty buffer and positive dimensions. */
    predicate Renderable()
    {
      |data| > 0 && width > 0 && height > 0
    }

    /** `(x, y, c)` names a sample of this image. */
    predicate InBounds(x: int, y: int, c: int)
    {
      0 <= x < width && 0 <= y < height && 0 <= c < channels
    }
  }

  lemma MulMonotone(a: int, b: int, k: int)
    requires a <= b && 0 <= k
    ensures a * k <= b * k
  {
  }

  /** The flat position of sample `c` of pixel `(x, y)`: `(y * width + x) * channels + c`.
      Every in-bounds triple lands inside a buffer of `width * height * channels` samples. */
  function Offset(width: int, height: int, channels: int, x: int, y: int, c: int): (i: nat)
    requires 0 <= x < width && 0 <= y < height && 0 <= c < channels
    ensures i < width * height * channels
  {
    OffsetBound(width, height, channels, x, y, c);
    (y * width + x) * channels + c
  }

  lemma OffsetBound(width: int, height: int, channels: int, x: int, y: int, c: int)
    requires 0 <= x < width && 0 <= y < height && 0 <= c < channels
    ensures 0 <= (y * width + x) * channels + c < width * height * channels
  {
    var p := y * width + x;
    MulMonotone(0, y, width);
    MulMonotone(y + 1, height, width);
    assert (y + 1) * width == p - x + width;
    assert 0 <= p < height * width;
    MulMonotone(0, p, channels);
    MulMonotone(p + 1, height * width, channels);
    assert (p + 1) * channels == p * channels + channels;
    assert height * width * channels == width * height * channels;
  }

  /** Division with remainder has a unique answer. */
  lemma DivModUnique(i: int, d: int, q: int, r: int)
    requires 0 < d && 0 <= r < d && i == q * d + r
    ensures i / d == q && i % d == r
  {
    var q', r' := i / d, i % d;
    assert q' * d + r' == q * d + r;
    if q' < q {
      MulMonotone(q' + 1, q, d);
    } else if q < q' {
      MulMonotone(q + 1, q', d);
    }
  }

  /** Below `m * d`, the quotient by `d` stays below `m`. */
  lemma QuotientBelow(i: int, d: int, m: int)
    requires 0 < d && 0 <= i < m * d
    ensures i / d < m
  {
    if i / d >= m {
      MulMonotone(m, i / d, d);
    }
  }

  /** The pixel and channel a flat position belongs to: the inverse of `Offset`. */
  function Coordinates(width: int, height: int, channels: int, i: int): (p: (int, int, int))
    requires 0 < width && 0 < channels && 0 <= i < width * height * channels
    ensures 0 <= p.0 < width && 0 <= p.1 < height && 0 <= p.2 < channels
    ensures Offset(width, height, channels, p.0, p.1, p.2) == i
  {
    var pixel := i / channels;
    QuotientBelow(i, channels, width * height);
    QuotientBelow(pixel, width, height);
    (pixel % width, pixel / width, i % channels)
  }

  /** `Offset` and `Coordinates` are mutually inverse, so distinct samples never share a slot. */
  lemma CoordinatesOfOffset(width: int, height: int, channels: int, x: int, y: int, c: int)
    requires 0 <= x < width && 0 <= y < height && 0 <= c < channels
    ensures Coordinates(width, height, channels, Offset(width, height, channels, x, y, c)) == (x, y, c)
  {
    var i := Offset(width, height, channels, x, y, c);
    DivModUnique(i, channels, y * width + x, c);
    DivModUnique(y * width + x, width, y, x);
  }

  /** Two in-bounds samples share a flat position only when they are the same sample. */
  lemma OffsetInjective(width: int, height: int, channels: int,
                        x: int, y: int, c: int, x': int, y': int, c': int)
    requires 0 <= x < width && 0 <= y < height && 0 <= c < channels
    requires 0 <= x' < width && 0 <= y' < height && 0 <= c' < channels
    requires Offset(width, height, channels, x, y, c) == Offset(width, height, channels, x', y', c')
    ensures x == x' && y == y' && c == c'
  {
    CoordinatesOfOffset(width, height, channels, x, y, c);
    CoordinatesOfOffset(width, height, channels, x', y', c');
  }

  /** `get_pixel_value`: sample `c` of pixel `(x, y)`. */
  function PixelValue(img: Image, x: int, y: int, c: int): Byte
    requires img.WellFormed() && img.InBounds(x, y, c)
  {
    img.data[Offset(img.width, img.height, img.channels, x, y, c)]
  }

  /** All samples of pixel `(x, y)`, channel by channel. */
  function Pixel(img: Image, x: int, y: int): (p: seq<Byte>)
    requires img.WellFormed() && 0 <= x < img.width && 0 <= y < img.height && 0 <= img.channels
    ensures |p| == img.channels
    ensures forall c | 0 <= c < img.channels :: p[c] == PixelValue(img, x, y, c)
  {
    seq(img.channels, c requires 0 <= c < img.channels => PixelValue(img, x, y, c))
  }

  /** The source coordinate that target coordinate `dst` samples when a dimension of
      `srcSize` is stretched to `dstSize`: `static_cast<int>(dst * ratio)` clamped into the
      source. In exact arithmetic it is the floor of `dst * srcSize / dstSize`, which already
      lies in range. */
  function SourceIndex(dst: int, dstSize: int, srcSize: int): (s: int)
    requires 0 <= dst < dstSize && 0 < srcSize
    ensures 0 <= s < srcSize
    ensures s * dstSize <= dst * srcSize < (s + 1) * dstSize
  {
    StretchBracket(dst, dstSize, srcSize);
    ClampInt(dst * srcSize / dstSize, 0, srcSize - 1)
  }

  /** The floor of `dst * srcSize / dstSize` lies in `0..srcSize - 1` and brackets the product. */
  lemma StretchBracket(dst: int, dstSize: int, srcSize: int)
    requires 0 <= dst < dstSize && 0 < srcSize
    ensures var q := dst * srcSize / dstSize;
      0 <= q < srcSize && q * dstSize <= dst * srcSize < (q + 1) * dstSize
  {
    var n := dst * srcSize;
    MulMonotone(0, dst, srcSize);
    MulMonotone(dst + 1, dstSize, srcSize);
    assert n < srcSize * dstSize;
    QuotientBelow(n, dstSize, srcSize);
    var q, r := n / dstSize, n % dstSize;
    assert n == q * dstSize + r && 0 <= r < dstSize;
    assert (q + 1) * dstSize == q * dstSize + dstSize;
    if q < 0 {
      MulMonotone(q, -1, dstSize);
    }
  }

  /** A well-formed image with positive dimensions has no negative channel count. */
  lemma ChannelsNonNegative(img: Image)
    requires img.WellFormed() && img.width > 0 && img.height > 0
    ensures img.channels >= 0
  {
    if img.channels < 0 {
      MulMonotone(img.channels, -1, img.width * img.height);
    }
  }

  /** Sample `i` of the resampled buffer: find the pixel and channel it belongs to and copy
      the matching sample of the source pixel it maps onto. */
  function ResampledSample(img: Image, newWidth: int, newHeight: int, i: int): Byte
    requires img.WellFormed() && img.width > 0 && img.height > 0 && newWidth >= 0
    requires 0 <= i < newWidth * newHeight * img.channels
  {
    ChannelsNonNegative(img);
    assert newWidth > 0 && newHeight > 0 && img.channels > 0 by {
      if newWidth == 0 {
        MulMonotone(newWidth * newHeight, 0, img.channels);
      }
      if newHeight <= 0 {
        MulMonotone(newHeight, 0, newWidth);
        MulMonotone(newWidth * newHeight, 0, img.channels);
      }
      if img.channels <= 0 {
        MulMonotone(newWidth * newHeight, 0, 0);
      }
    }
    var (x, y, c) := Coordinates(newWidth, newHeight, img.channels, i);
    PixelValue(img, SourceIndex(x, newWidth, img.width), SourceIndex(y, newHeight, img.height), c)
  }

  /** `resize_image`: nearest-neighbour resampling to `newWidth` x `newHeight`. The result keeps
      the channel count, has a buffer of exactly the right size, and every sample of every
      target pixel is copied from the one source pixel its coordinates scale down to. */
  function Resize(img: Image, newWidth: int, newHeight: int): (r: Image)
    requires img.WellFormed() && img.width > 0 && img.height > 0
    requires newWidth >= 0 && newHeight >= 0
    ensures r.width == newWidth && r.height == newHeight && r.channels == img.channels
    ensures r.WellFormed()
    ensures forall x, y, c | r.InBounds(x, y, c) ::
      PixelValue(r, x, y, c)
        == PixelValue(img, SourceIndex(x, newWidth, img.width), SourceIndex(y, newHeight, img.height), c)
  {
    var n := newWidth * newHeight * img.channels;
    ChannelsNonNegative(img);
    MulMonotone(0, newWidth * newHeight, img.channels);
    var data := seq(n, i requires 0 <= i < n => ResampledSample(img, newWidth, newHeight, i));
    var r := Image(newWidth, newHeight, img.channels, data);
    assert forall x, y, c | r.InBounds(x, y, c) ::
      PixelValue(r, x, y, c)
        == PixelValue(img, SourceIndex(x, newWidth, img.width), SourceIndex(y, newHeight, img.height), c)
    by {
      forall x, y, c | r.InBounds(x, y, c)
        ensures PixelValue(r, x, y, c)
          == PixelValue(img, SourceIndex(x, newWidth, img.width), SourceIndex(y, newHeight, img.height), c)
      {
        CoordinatesOfOffset(newWidth, newHeight, img.channels, x, y, c);
      }
    }
    r
  }

  /** A resampled pixel is, sample for sample, the source pixel its coordinates scale to. */
  lemma ResizedPixel(img: Image, newWidth: int, newHeight: int, x: int, y: int)
    requires img.WellFormed() && img.width > 0 && img.height > 0 && 0 <= img.channels
    requires 0 <= x < newWidth && 0 <= y < newHeight
    ensures Pixel(Resize(img, newWidth, newHeight), x, y)
      == Pixel(img, SourceIndex(x, newWidth, img.width), SourceIndex(y, newHeight, img.height))
  {
    var r := Resize(img, newWidth, newHeight);
    assert forall c | 0 <= c < img.channels :: r.InBounds(x, y, c);
  }
}
