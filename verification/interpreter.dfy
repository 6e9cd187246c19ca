/** `ascii_art::Interpreter`: the rendering configuration, its setters, and `convert`, which
    validates the image, derives the target height, resamples, tone-maps every cell, picks
    its glyph and assembles the text. */
module Interpreter {
  import opened Wrappers
  import opened Numeric
  import opened Images
  import opened Tone
  import opened Glyphs
  import opened Frame

  /** The fields of `Config` that `convert` and the setters touch. */
  datatype Config = Config(
    targetWidth: int,
    targetHeight: int,
    maintainAspect: bool,
    charAspectRatio: real,
    contrast: real,
    brightness: real,
    gamma: real,
    useGammaCorrection: bool,
    mode: Mode,
    useColor: bool)

  /** `std::invalid_argument` and its message. */
  datatype Error = InvalidArgument(message: string)

  /** `set_mode`: only the mode changes; putting the old mode back restores the configuration. */
  function SetMode(cfg: Config, mode: Mode): (r: Config)
    ensures r.mode == mode
    ensures r.(mode := cfg.mode) == cfg
  {
    cfg.(mode := mode)
  }

  /** `set_target_size`: only the two target dimensions change. */
  function SetTargetSize(cfg: Config, width: int, height: int): (r: Config)
    ensures r.targetWidth == width && r.targetHeight == height
    ensures r.(targetWidth := cfg.targetWidth, targetHeight := cfg.targetHeight) == cfg
  {
    cfg.(targetWidth := width, targetHeight := height)
  }

  /** `set_contrast`: only the contrast changes. */
  function SetContrast(cfg: Config, contrast: real): (r: Config)
    ensures r.contrast == contrast
    ensures r.(contrast := cfg.contrast) == cfg
  {
    cfg.(contrast := contrast)
  }

  /** `set_brightness`: only the brightness changes. */
  function SetBrightness(cfg: Config, brightness: real): (r: Config)
    ensures r.brightness == brightness
    ensures r.(brightness := cfg.brightness) == cfg
  {
    cfg.(brightness := brightness)
  }

  /** `set_color`: only the colour switch changes. */
  function SetColor(cfg: Config, useColor: bool): (r: Config)
    ensures r.useColor == useColor
    ensures r.(useColor := cfg.useColor) == cfg
  {
    cfg.(useColor := useColor)
  }

  /** Whether `convert` derives the height from the aspect ratio. */
  predicate DerivesHeight(cfg: Config)
  {
    cfg.maintainAspect && cfg.targetHeight == 0
  }

  /** Truncating `p / w` for positive `w` finds the multiple of `w` next to `p` on the side
      of zero. */
  lemma TruncOfQuotient(p: real, w: real)
    requires 0.0 < w
    ensures var h := Trunc(p / w);
      && (0.0 <= p ==> 0 <= h && h as real * w <= p < (h + 1) as real * w)
      && (p < 0.0 ==> h <= 0 && (h - 1) as real * w < p <= h as real * w)
  {
    var h := Trunc(p / w);
    QuotientSign(p, w);
    if 0.0 <= p {
      QuotientBetween(p, w, h as real, (h + 1) as real);
    } else {
      QuotientBetween(p, w, (h - 1) as real, h as real);
    }
  }

  /** If `p / w` lies between `lo` and `hi = lo + 1` then `p` lies between the corresponding
      multiples of positive `w`, strictly so where the quotient avoids the ends. */
  lemma QuotientBetween(p: real, w: real, lo: real, hi: real)
    requires 0.0 < w && hi == lo + 1.0 && lo <= p / w <= hi
    ensures lo * w <= p <= hi * w
    ensures lo < p / w ==> lo * w < p
    ensures p / w < hi ==> p < hi * w
  {
    QuotientSign(p, w);
    BetweenMultiples(p / w, w, lo, hi);
  }

  /** Dividing by a positive `w` keeps the sign, and multiplying back undoes it. */
  lemma QuotientSign(p: real, w: real)
    requires 0.0 < w
    ensures (p / w) * w == p
    ensures 0.0 <= p <==> 0.0 <= p / w
  {
    if 0.0 <= p {
      MulNonNegative(p, 1.0 / w);
      assert p / w == p * (1.0 / w);
    } else {
      MulPositive(-p, 1.0 / w);
      assert -(p / w) == (-p) * (1.0 / w);
    }
  }

  /** If `lo <= q <= hi = lo + 1` then `q * w` lies between the neighbouring multiples of
      positive `w`, strictly so where `q` avoids the ends. */
  lemma BetweenMultiples(q: real, w: real, lo: real, hi: real)
    requires 0.0 < w && hi == lo + 1.0 && lo <= q <= hi
    ensures lo * w <= q * w <= hi * w
    ensures lo < q ==> lo * w < q * w
    ensures q < hi ==> q * w < hi * w
  {
    assert q * w - lo * w == (q - lo) * w;
    MulNonNegative(q - lo, w);
    assert hi * w - q * w == (hi - q) * w;
    MulNonNegative(hi - q, w);
    if lo < q {
      MulPositive(q - lo, w);
    }
    if q < hi {
      MulPositive(hi - q, w);
    }
  }

  /** The height `convert` renders at. A configured height is used as it is; when the height is
      0 and the aspect is kept, it is `target_width * height * char_aspect_ratio / width`
      truncated toward zero: the integer `h` with `h * width` at or below the product and
      `(h + 1) * width` above it (mirrored for a negative product). */
  function RenderHeight(cfg: Config, img: Image): (h: int)
    requires img.Renderable()
    ensures !DerivesHeight(cfg) ==> h == cfg.targetHeight
    ensures DerivesHeight(cfg) ==>
      var p := (cfg.targetWidth * img.height) as real * cfg.charAspectRatio;
      var w := img.width as real;
      && (0.0 <= p ==> 0 <= h && h as real * w <= p < (h + 1) as real * w)
      && (p < 0.0 ==> h <= 0 && (h - 1) as real * w < p <= h as real * w)
  {
    if DerivesHeight(cfg) then
      var p := (cfg.targetWidth * img.height) as real * cfg.charAspectRatio;
      var w := img.width as real;
      TruncOfQuotient(p, w);
      var h := Trunc(p / w);
      h
    else
      cfg.targetHeight
  }

  /** The intensity a luminance ends up as: gamma correction when enabled, then contrast and
      brightness with the clamp, then the perceptual curve. Always in the unit interval; a
      black cell stays 0 and a white one 1 at unit contrast and zero brightness. */
  function Intensity(cfg: Config, curve: (real, real) -> real, luminance: real): (i: real)
    ensures 0.0 <= i <= 1.0
    ensures cfg.contrast == 1.0 && cfg.brightness == 0.0 && luminance == 0.0 ==> i == 0.0
    ensures cfg.contrast == 1.0 && cfg.brightness == 0.0 && luminance == 1.0 ==> i == 1.0
  {
    var l := if cfg.useGammaCorrection then Gamma(luminance, cfg.gamma, curve) else luminance;
    Smoothstep(AdjustContrast(l, cfg.contrast, cfg.brightness))
  }

  /** Without gamma correction and with non-negative contrast, a higher luminance never gives a
      lower intensity. */
  lemma IntensityMonotone(cfg: Config, curve: (real, real) -> real, a: real, b: real)
    requires a <= b && 0.0 <= cfg.contrast && !cfg.useGammaCorrection
    ensures Intensity(cfg, curve, a) <= Intensity(cfg, curve, b)
  {
    AdjustContrastMonotone(a, b, cfg.contrast, cfg.brightness);
    SmoothstepMonotone(AdjustContrast(a, cfg.contrast, cfg.brightness),
                       AdjustContrast(b, cfg.contrast, cfg.brightness));
  }

  /** A well-formed, renderable image has at least one channel. */
  lemma ChannelsPositive(img: Image)
    requires img.WellFormed() && img.Renderable()
    ensures img.channels >= 1
  {
    ChannelsNonNegative(img);
  }

  /** The luminance `convert` reads off a pixel with samples `px`: with three or more channels
      the BT.601 luminance of the first three samples, with fewer the first sample scaled to the
      unit interval. */
  function SampleLuminance(px: seq<Byte>): (l: real)
    requires 1 <= |px|
    ensures 0.0 <= l <= 1.0
  {
    if |px| >= 3 then Luminance(px[0], px[1], px[2]) else px[0] as real / 255.0
  }

  /** The glyph `convert` draws for a luminance. */
  function ShadeGlyph(cfg: Config, curve: (real, real) -> real, luminance: real): char
  {
    MapIntensityToChar(cfg.mode, Intensity(cfg, curve, luminance))
  }

  /** The cell for a pixel of three or more channels: the glyph for the BT.601 luminance of its
      first three samples, coloured with those samples. */
  function ColorCell(cfg: Config, curve: (real, real) -> real, r: Byte, g: Byte, b: Byte): Cell
  {
    Cell(ShadeGlyph(cfg, curve, Luminance(r, g, b)), r, g, b)
  }

  /** The cell for a pixel of one or two channels: the glyph for its first sample scaled to the
      unit interval, coloured with that luminance converted back to a byte in all three
      components. */
  function GreyCell(cfg: Config, curve: (real, real) -> real, s: Byte): Cell
  {
    var luminance := s as real / 255.0;
    var v := Trunc(luminance * 255.0);
    Cell(ShadeGlyph(cfg, curve, luminance), v, v, v)
  }

  /** The cell `convert` draws for a pixel with samples `px`. */
  function SampleCell(cfg: Config, curve: (real, real) -> real, px: seq<Byte>): Cell
    requires 1 <= |px|
  {
    if |px| >= 3 then ColorCell(cfg, curve, px[0], px[1], px[2]) else GreyCell(cfg, curve, px[0])
  }

  /** The cell `convert` draws for pixel `(x, y)`. */
  function PixelCell(cfg: Config, curve: (real, real) -> real, img: Image, x: int, y: int): Cell
    requires img.WellFormed() && 0 <= x < img.width && 0 <= y < img.height && 1 <= img.channels
  {
    SampleCell(cfg, curve, Pixel(img, x, y))
  }

  /** The cells of an image, row by row: a rectangle of glyph cells of the image's size. */
  function Cells(cfg: Config, curve: (real, real) -> real, img: Image): (grid: seq<seq<Cell>>)
    requires img.WellFormed() && 0 <= img.width && 0 <= img.height && 1 <= img.channels
    ensures Rectangular(grid, img.width, img.height) && GlyphCells(grid)
    ensures forall y, x | 0 <= y < img.height && 0 <= x < img.width ::
      grid[y][x] == PixelCell(cfg, curve, img, x, y)
  {
    seq(img.height, y requires 0 <= y < img.height =>
      seq(img.width, x requires 0 <= x < img.width => PixelCell(cfg, curve, img, x, y)))
  }

  /** What `convert` demands of the configuration beyond what it checks itself: a
      non-negative target width and render height (a negative one would size the image buffer
      from a negative count). */
  predicate Renders(cfg: Config, img: Image)
    requires img.Renderable()
  {
    cfg.targetWidth >= 0 && RenderHeight(cfg, img) >= 0
  }

  /** `convert`: rejects an image with no data or a non-positive dimension with
      `invalid_argument`, and otherwise renders it. */
  function Convert(cfg: Config, curve: (real, real) -> real, img: Image): (r: Result<string, Error>)
    requires img.WellFormed()
    requires img.Renderable() ==> Renders(cfg, img)
    ensures r.Failure? <==> !img.Renderable()
    ensures r.Failure? ==> r.error == InvalidArgument("Invalid image data")
  {
    if !img.Renderable() then
      Failure(InvalidArgument("Invalid image data"))
    else
      ChannelsPositive(img);
      var resized := Resize(img, cfg.targetWidth, RenderHeight(cfg, img));
      Success(FrameText(Cells(cfg, curve, resized), cfg.useColor))
  }

  /** A resampled pixel is drawn exactly like the source pixel it was copied from. */
  lemma ResizedCell(cfg: Config, curve: (real, real) -> real, img: Image, w: int, h: int, x: int, y: int)
    requires img.WellFormed() && img.Renderable() && w >= 0 && h >= 0
    requires 0 <= x < w && 0 <= y < h && 1 <= img.channels
    ensures PixelCell(cfg, curve, Resize(img, w, h), x, y)
        == PixelCell(cfg, curve, img, SourceIndex(x, w, img.width), SourceIndex(y, h, img.height))
  {
    ResizedPixel(img, w, h, x, y);
  }

  /** Without colour a render is the uncoloured text of the cells of the resized image. */
  lemma ConvertPlainText(cfg: Config, curve: (real, real) -> real, img: Image)
    requires img.WellFormed() && img.Renderable() && Renders(cfg, img) && !cfg.useColor
    requires 1 <= img.channels
    ensures Convert(cfg, curve, img)
        == Success(FrameText(Cells(cfg, curve, Resize(img, cfg.targetWidth, RenderHeight(cfg, img))), false))
  {
  }

  /** `out` is `h` lines of exactly `w` glyphs each: `(w + 1) * h` bytes of which exactly `h`
      are line breaks. */
  predicate PlainLines(out: string, w: nat, h: nat)
  {
    |out| == (w + 1) * h && Occurrences(out, '\n') == h
  }

  /** Without colour a render succeeds and is `h` lines of exactly `w` glyphs, `w` being the
      target width and `h` the render height. (The channel requirement follows from the
      others.) */
  lemma ConvertPlain(cfg: Config, curve: (real, real) -> real, img: Image)
    requires img.WellFormed() && img.Renderable() && Renders(cfg, img) && !cfg.useColor
    requires 1 <= img.channels
    ensures Convert(cfg, curve, img).Success?
    ensures PlainLines(Convert(cfg, curve, img).value, cfg.targetWidth, RenderHeight(cfg, img))
  {
    var w, h := cfg.targetWidth, RenderHeight(cfg, img);
    ConvertPlainText(cfg, curve, img);
    PlainGridShape(Cells(cfg, curve, Resize(img, w, h)), w, h);
  }

  /** A rectangle of glyph cells, drawn without colour, is one line per row. */
  lemma PlainGridShape(grid: seq<seq<Cell>>, w: nat, h: nat)
    requires Rectangular(grid, w, h) && GlyphCells(grid)
    ensures PlainLines(FrameText(grid, false), w, h)
  {
    PlainFrameShape(grid, w, h);
    PlainFrameLineCount(grid);
  }

  /** `out` is the uncoloured drawing of `img` at `w` x `h`: line `y` holds glyph `(x, y)` at
      `LineStart(y) + x`, drawn from the source pixel its coordinates scale to, and is closed by
      `'\n'` right after its `w` glyphs. */
  predicate DrawnPlain(out: string, cfg: Config, curve: (real, real) -> real, img: Image, w: nat, h: nat)
    requires img.WellFormed() && img.Renderable() && 1 <= img.channels
  {
    && |out| == (w + 1) * h
    && (forall y, x | 0 <= y < h && 0 <= x < w ::
          out[LineStart(y, w, h) + x]
            == PixelCell(cfg, curve, img, SourceIndex(x, w, img.width), SourceIndex(y, h, img.height)).glyph)
    && (forall y | 0 <= y < h :: out[LineStart(y, w, h) + w] == '\n')
  }

  /** Without colour a render is the uncoloured drawing of the image at the target width and the
      render height. */
  lemma ConvertPlainLayout(cfg: Config, curve: (real, real) -> real, img: Image)
    requires img.WellFormed() && img.Renderable() && Renders(cfg, img) && !cfg.useColor
    requires 1 <= img.channels
    ensures Convert(cfg, curve, img).Success?
    ensures DrawnPlain(Convert(cfg, curve, img).value, cfg, curve, img, cfg.targetWidth, RenderHeight(cfg, img))
  {
    var w, h := cfg.targetWidth, RenderHeight(cfg, img);
    var grid := Cells(cfg, curve, Resize(img, w, h));
    ConvertPlainText(cfg, curve, img);
    ResizedCells(cfg, curve, img, w, h);
    GridDrawnPlain(grid, cfg, curve, img, w, h);
  }

  /** The uncoloured text of a grid holding, at every position, the cell of the source pixel
      that position scales to is the uncoloured drawing of the image. */
  lemma GridDrawnPlain(grid: seq<seq<Cell>>, cfg: Config, curve: (real, real) -> real, img: Image,
                       w: nat, h: nat)
    requires img.WellFormed() && img.Renderable() && 1 <= img.channels
    requires Rectangular(grid, w, h)
    requires forall y, x | 0 <= y < h && 0 <= x < w ::
      grid[y][x] == PixelCell(cfg, curve, img, SourceIndex(x, w, img.width), SourceIndex(y, h, img.height))
    ensures DrawnPlain(FrameText(grid, false), cfg, curve, img, w, h)
  {
    PlainFrameShape(grid, w, h);
  }

  /** Every cell of the resized grid is drawn from the source pixel its coordinates scale to. */
  lemma ResizedCells(cfg: Config, curve: (real, real) -> real, img: Image, w: int, h: int)
    requires img.WellFormed() && img.Renderable() && w >= 0 && h >= 0 && 1 <= img.channels
    ensures forall y, x | 0 <= y < h && 0 <= x < w ::
      Cells(cfg, curve, Resize(img, w, h))[y][x]
        == PixelCell(cfg, curve, img, SourceIndex(x, w, img.width), SourceIndex(y, h, img.height))
  {
    var grid := Cells(cfg, curve, Resize(img, w, h));
    forall y, x | 0 <= y < h && 0 <= x < w
      ensures grid[y][x]
        == PixelCell(cfg, curve, img, SourceIndex(x, w, img.width), SourceIndex(y, h, img.height))
    {
      ResizedCell(cfg, curve, img, w, h, x, y);
    }
  }

  /** With colour a successful render is, byte for byte, the spelling of the tokens of the cells
      of the resized image, row by row: each colour sequence is `Escape` of its cell's colour, in
      plain decimal without padding. It reads back as tokens in exactly one way, those same
      tokens, so each colour sequence carries the colour of its cell and each glyph is that
      cell's glyph (`ResizedCells` ties every cell to its source pixel). That reading holds as many colour starts and as many resets as glyphs, `w * h` of
      each, one line break per row, and every glyph sits between its colour start and a
      reset. (The channel requirement follows from the others.) */
  lemma ConvertColored(cfg: Config, curve: (real, real) -> real, img: Image)
    requires img.WellFormed() && img.Renderable() && Renders(cfg, img) && cfg.useColor
    requires 1 <= img.channels
    ensures var r := Convert(cfg, curve, img);
      var w, h := cfg.targetWidth, RenderHeight(cfg, img);
      && r.Success?
      && Lex(r.value).Some?
      && var ts := Lex(r.value).value;
      && Count(ts, ColorStart) == w * h
      && Count(ts, ResetKind) == w * h
      && Count(ts, GlyphKind) == w * h
      && Count(ts, BreakKind) == h
      && Wrapped(ts)
    ensures Lex(Convert(cfg, curve, img).value)
      == Some(FrameTokens(Cells(cfg, curve, Resize(img, cfg.targetWidth, RenderHeight(cfg, img))), true))
    ensures Convert(cfg, curve, img).value
      == Spelling(FrameTokens(Cells(cfg, curve, Resize(img, cfg.targetWidth, RenderHeight(cfg, img))), true))
  {
    var w, h := cfg.targetWidth, RenderHeight(cfg, img);
    var grid := Cells(cfg, curve, Resize(img, w, h));
    var ts := FrameTokens(grid, true);
    FrameTokensSpelling(grid, true);
    FrameTokensReadable(grid, true);
    LexSpelling(ts);
    FrameCounts(grid, w, h, true);
    FrameWrapped(grid);
  }

  /** The two branches agree on grey: the three-channel cell for `(v, v, v)` is the one-channel
      cell for `v`, glyph and colour alike. */
  lemma GreyBranchesAgree(cfg: Config, curve: (real, real) -> real, v: Byte)
    ensures ColorCell(cfg, curve, v, v, v) == GreyCell(cfg, curve, v)
  {
    ColorCellOfGrey(cfg, curve, v);
    GreyCellOfByte(cfg, curve, v);
  }

  lemma ColorCellOfGrey(cfg: Config, curve: (real, real) -> real, v: Byte)
    ensures ColorCell(cfg, curve, v, v, v) == Cell(ShadeGlyph(cfg, curve, v as real / 255.0), v, v, v)
  {
    var l := Luminance(v, v, v);
    assert l == v as real / 255.0;
    assert ShadeGlyph(cfg, curve, l) == ShadeGlyph(cfg, curve, v as real / 255.0);
  }

  lemma GreyCellOfByte(cfg: Config, curve: (real, real) -> real, v: Byte)
    ensures GreyCell(cfg, curve, v) == Cell(ShadeGlyph(cfg, curve, v as real / 255.0), v, v, v)
  {
    ByteScaleRoundTrip(v);
  }

  /** A byte scaled to the unit interval and back, truncated, is the byte again. */
  lemma ByteScaleRoundTrip(v: Byte)
    ensures Trunc(v as real / 255.0 * 255.0) == v
  {
    assert v as real / 255.0 * 255.0 == v as real;
  }

  /** The samples `convert` looks at (the first three, or the only one) are all `value`. */
  predicate Uniform(px: seq<Byte>, value: Byte)
  {
    forall c | 0 <= c < |px| && c < 3 :: px[c] == value
  }

  /** At unit contrast and zero brightness a black pixel is drawn as a space and a white one
      as the last byte of the ramp, in every mode and with or without gamma correction. */
  lemma BlackAndWhite(cfg: Config, curve: (real, real) -> real, px: seq<Byte>)
    requires 1 <= |px| && cfg.contrast == 1.0 && cfg.brightness == 0.0
    ensures Uniform(px, 0) ==> SampleCell(cfg, curve, px).glyph == ' '
    ensures Uniform(px, 255) ==>
      SampleCell(cfg, curve, px).glyph == Charset(cfg.mode)[|Charset(cfg.mode)| - 1]
  {
    if Uniform(px, 0) {
      GreyLuminance(px, 0);
    }
    if Uniform(px, 255) {
      GreyLuminance(px, 255);
    }
  }

  /** The ramp position a pixel's samples select. */
  function RampPosition(cfg: Config, curve: (real, real) -> real, px: seq<Byte>): (k: nat)
    requires 1 <= |px|
    ensures k < |Charset(cfg.mode)|
    ensures SampleCell(cfg, curve, px).glyph == Charset(cfg.mode)[k]
  {
    GlyphIndex(Intensity(cfg, curve, SampleLuminance(px)), |Charset(cfg.mode)|)
  }

  /** A grey pixel has its value scaled to the unit interval as luminance, whether it arrives as
      one channel or three. */
  lemma GreyLuminance(px: seq<Byte>, v: Byte)
    requires 1 <= |px| && Uniform(px, v)
    ensures SampleLuminance(px) == v as real / 255.0
  {
    if |px| >= 3 {
      assert px[0] == v && px[1] == v && px[2] == v;
    } else {
      assert px[0] == v;
    }
  }

  /** Without gamma correction and with non-negative contrast, a brighter grey never selects an
      earlier (sparser) ramp position, whether it arrives as one channel or three. */
  lemma BrighterGreyNeverSparser(cfg: Config, curve: (real, real) -> real, px: seq<Byte>, px': seq<Byte>,
                                 u: Byte, v: Byte)
    requires u <= v && 0.0 <= cfg.contrast && !cfg.useGammaCorrection
    requires 1 <= |px| && Uniform(px, u) && 1 <= |px'| && Uniform(px', v)
    ensures RampPosition(cfg, curve, px) <= RampPosition(cfg, curve, px')
  {
    GreyLuminance(px, u);
    GreyLuminance(px', v);
    BrighterNeverSparser(cfg, curve, px, px');
  }

  /** Without gamma correction and with non-negative contrast, a pixel of higher luminance never
      selects an earlier ramp position. */
  lemma BrighterNeverSparser(cfg: Config, curve: (real, real) -> real, px: seq<Byte>, px': seq<Byte>)
    requires 0.0 <= cfg.contrast && !cfg.useGammaCorrection
    requires 1 <= |px| && 1 <= |px'| && SampleLuminance(px) <= SampleLuminance(px')
    ensures RampPosition(cfg, curve, px) <= RampPosition(cfg, curve, px')
  {
    RampMonotone(cfg, curve, SampleLuminance(px), SampleLuminance(px'));
  }

  /** Without gamma correction and with non-negative contrast, a higher luminance never selects
      an earlier ramp position. */
  lemma RampMonotone(cfg: Config, curve: (real, real) -> real, a: real, b: real)
    requires a <= b && 0.0 <= cfg.contrast && !cfg.useGammaCorrection
    ensures GlyphIndex(Intensity(cfg, curve, a), |Charset(cfg.mode)|)
      <= GlyphIndex(Intensity(cfg, curve, b), |Charset(cfg.mode)|)
  {
    IntensityMonotone(cfg, curve, a, b);
    GlyphIndexMonotone(Intensity(cfg, curve, a), Intensity(cfg, curve, b), |Charset(cfg.mode)|);
  }
}
