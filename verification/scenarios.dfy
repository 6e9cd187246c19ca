/** Concrete renders: a 2 x 2 three-channel image of pure white and of pure black in clean mode
    without colour, and one red pixel with colour. */
module Scenarios {
  import opened Wrappers
  import opened Images
  import opened Tone
  import opened Glyphs
  import opened Color
  import opened Frame
  import opened Interpreter

  /** Clean mode, no colour, no gamma, unit contrast, zero brightness, a 2 x 2 target. */
  const Plain2x2: Config := Config(
    targetWidth := 2, targetHeight := 2, maintainAspect := true, charAspectRatio := 0.5,
    contrast := 1.0, brightness := 0.0, gamma := 2.2, useGammaCorrection := false,
    mode := Clean, useColor := false)

  /** A 2 x 2 RGB image whose every sample is `v`. */
  function Flat2x2(v: Byte): (img: Image)
    ensures img.width == 2 && img.height == 2 && img.channels == 3
    ensures img.WellFormed() && img.Renderable()
    ensures forall x, y | 0 <= x < 2 && 0 <= y < 2 :: Uniform(Pixel(img, x, y), v)
  {
    var img := Image(2, 2, 3, seq(12, _ => v));
    assert forall x, y | 0 <= x < 2 && 0 <= y < 2 :: Uniform(Pixel(img, x, y), v) by {
      forall x, y | 0 <= x < 2 && 0 <= y < 2
        ensures Uniform(Pixel(img, x, y), v)
      {
        assert forall c | 0 <= c < 3 :: PixelValue(img, x, y, c) == v;
      }
    }
    img
  }

  /** The uncoloured text of a 2 x 2 grid whose every glyph is `ch`. */
  lemma FlatFrameText(grid: seq<seq<Cell>>, ch: char)
    requires Rectangular(grid, 2, 2)
    requires forall y, x | 0 <= y < 2 && 0 <= x < 2 :: grid[y][x].glyph == ch
    ensures FrameText(grid, false) == [ch, ch, '\n', ch, ch, '\n']
  {
    PlainRowText(grid[0]);
    PlainRowText(grid[1]);
    assert RowText(grid[0], false) == [ch, ch];
    assert RowText(grid[1], false) == [ch, ch];
    assert grid[1..][1..] == [];
    assert FrameText(grid[1..], false) == RowText(grid[1], false) + ['\n'];
  }

  /** A 2 x 2 uncoloured render of an image whose every pixel is drawn as `ch`. */
  lemma FlatPlainRender(cfg: Config, curve: (real, real) -> real, img: Image, v: Byte, ch: char)
    requires img.WellFormed() && img.width == 2 && img.height == 2 && img.channels >= 1
    requires forall x, y | 0 <= x < 2 && 0 <= y < 2 :: Uniform(Pixel(img, x, y), v)
    requires cfg.targetWidth == 2 && RenderHeight(cfg, img) == 2 && !cfg.useColor
    requires forall px: seq<Byte> | 1 <= |px| && Uniform(px, v) :: SampleCell(cfg, curve, px).glyph == ch
    ensures Convert(cfg, curve, img) == Success([ch, ch, '\n', ch, ch, '\n'])
  {
    assert img.Renderable() by {
      assert |img.data| == 4 * img.channels;
    }
    ConvertPlainText(cfg, curve, img);
    var grid := Cells(cfg, curve, Resize(img, 2, 2));
    FlatGrid(cfg, curve, img, v, ch);
    FlatFrameText(grid, ch);
  }

  /** Resizing a uniform 2 x 2 image to itself gives a grid whose every glyph is `ch`. */
  lemma FlatGrid(cfg: Config, curve: (real, real) -> real, img: Image, v: Byte, ch: char)
    requires img.WellFormed() && img.Renderable() && img.width == 2 && img.height == 2 && img.channels >= 1
    requires forall x, y | 0 <= x < 2 && 0 <= y < 2 :: Uniform(Pixel(img, x, y), v)
    requires forall px: seq<Byte> | 1 <= |px| && Uniform(px, v) :: SampleCell(cfg, curve, px).glyph == ch
    ensures forall y, x | 0 <= y < 2 && 0 <= x < 2 :: Cells(cfg, curve, Resize(img, 2, 2))[y][x].glyph == ch
  {
    forall y, x | 0 <= y < 2 && 0 <= x < 2
      ensures Cells(cfg, curve, Resize(img, 2, 2))[y][x].glyph == ch
    {
      var sx, sy := SourceIndex(x, 2, 2), SourceIndex(y, 2, 2);
      ResizedCell(cfg, curve, img, 2, 2, x, y);
      assert Uniform(Pixel(img, sx, sy), v);
    }
  }

  /** Pure white renders as `"@@\n@@\n"`. */
  lemma WhiteSquare(curve: (real, real) -> real)
    ensures Convert(Plain2x2, curve, Flat2x2(255)) == Success("@@\n@@\n")
  {
    forall px: seq<Byte> | 1 <= |px| && Uniform(px, 255)
      ensures SampleCell(Plain2x2, curve, px).glyph == '@'
    {
      BlackAndWhite(Plain2x2, curve, px);
    }
    assert RenderHeight(Plain2x2, Flat2x2(255)) == 2;
    FlatPlainRender(Plain2x2, curve, Flat2x2(255), 255, '@');
  }

  /** Pure black renders as `"  \n  \n"`. */
  lemma BlackSquare(curve: (real, real) -> real)
    ensures Convert(Plain2x2, curve, Flat2x2(0)) == Success("  \n  \n")
  {
    forall px: seq<Byte> | 1 <= |px| && Uniform(px, 0)
      ensures SampleCell(Plain2x2, curve, px).glyph == ' '
    {
      BlackAndWhite(Plain2x2, curve, px);
    }
    assert RenderHeight(Plain2x2, Flat2x2(0)) == 2;
    FlatPlainRender(Plain2x2, curve, Flat2x2(0), 0, ' ');
  }

  /** The colour sequence of pure red. */
  lemma RedEscape()
    ensures Escape(255, 0, 0) == [Esc] + "[38;2;255;0;0m"
  {
    assert Decimal(0) == ['0'];
    assert Decimal(2) == ['2'];
    assert Decimal(25) == ['2', '5'];
    assert Decimal(255) == ['2', '5', '5'];
  }

  /** Pure red has luminance 0.299, intensity `3 * 0.299^2 - 2 * 0.299^3 = 0.214741202` under
      unit contrast and zero brightness, and so ramp position 1 in clean mode. */
  lemma RedSample(cfg: Config, curve: (real, real) -> real)
    requires cfg.contrast == 1.0 && cfg.brightness == 0.0 && !cfg.useGammaCorrection
    requires cfg.mode == Clean
    ensures SampleCell(cfg, curve, [255, 0, 0]) == Cell('.', 255, 0, 0)
  {
    assert Luminance(255, 0, 0) == 0.299;
    assert Intensity(cfg, curve, 0.299) == 0.214741202 by {
      assert Cubic(0.299) == 0.214741202;
    }
    assert GlyphIndex(0.214741202, 10) == 1;
  }

  /** A one-cell coloured frame. */
  lemma OneCellColoredText(cell: Cell)
    ensures FrameText([[cell]], true) == CellText(cell, true) + ['\n']
  {
    assert [[cell]][1..] == [] && [cell][1..] == [];
    assert RowText([cell], true) == CellText(cell, true) + [];
    assert FrameText([[cell]], true) == RowText([cell], true) + ['\n'] + [];
  }

  /** A one-pixel image of pure red. */
  predicate RedImage(img: Image)
  {
    img.width == 1 && img.height == 1 && img.channels == 3 && img.data == [255, 0, 0]
  }

  /** Resizing the one pure red pixel to one pixel keeps it. */
  lemma RedResized(img: Image)
    requires RedImage(img)
    ensures Pixel(Resize(img, 1, 1), 0, 0) == [255, 0, 0]
  {
    assert Pixel(img, 0, 0) == [255, 0, 0] by {
      assert forall c | 0 <= c < 3 :: Offset(1, 1, 3, 0, 0, c) == c;
    }
    assert SourceIndex(0, 1, 1) == 0;
    ResizedPixel(img, 1, 1, 0, 0);
  }

  /** The one pure red pixel, resized to itself, is one `'.'` cell carrying its colour. */
  lemma RedCells(cfg: Config, curve: (real, real) -> real, img: Image)
    requires RedImage(img)
    requires cfg.contrast == 1.0 && cfg.brightness == 0.0 && !cfg.useGammaCorrection
    requires cfg.mode == Clean
    ensures Cells(cfg, curve, Resize(img, 1, 1)) == [[Cell('.', 255, 0, 0)]]
  {
    var r := Resize(img, 1, 1);
    assert PixelCell(cfg, curve, r, 0, 0) == Cell('.', 255, 0, 0) by {
      RedResized(img);
      RedSample(cfg, curve);
    }
    OneCellGrid(Cells(cfg, curve, r), Cell('.', 255, 0, 0));
  }

  /** A 1 x 1 grid is its one cell. */
  lemma OneCellGrid(grid: seq<seq<Cell>>, cell: Cell)
    requires Rectangular(grid, 1, 1) && grid[0][0] == cell
    ensures grid == [[cell]]
  {
    assert grid[0] == [cell];
  }

  /** One pure red pixel with colour: ramp position 1 (`'.'`), wrapped as
      `ESC[38;2;255;0;0m` ... `ESC[0m`. */
  lemma RedPixel(curve: (real, real) -> real)
    ensures Convert(Plain2x2.(targetWidth := 1, targetHeight := 1, useColor := true), curve,
                    Image(1, 1, 3, [255, 0, 0]))
      == Success([Esc] + "[38;2;255;0;0m." + [Esc] + "[0m\n")
  {
    var cfg := Plain2x2.(targetWidth := 1, targetHeight := 1, useColor := true);
    var img := Image(1, 1, 3, [255, 0, 0]);
    var cell := Cell('.', 255, 0, 0);
    assert RenderHeight(cfg, img) == 1;
    RedCells(cfg, curve, img);
    assert Convert(cfg, curve, img) == Success(FrameText([[cell]], true));
    RedEscape();
    OneCellColoredText(cell);
    RedText(CellText(cell, true) + ['\n']);
  }

  /** The text of the red cell, spelled out. */
  lemma RedText(s: string)
    requires s == Escape(255, 0, 0) + ['.'] + ResetCode + ['\n']
    requires Escape(255, 0, 0) == [Esc] + "[38;2;255;0;0m"
    ensures s == [Esc] + "[38;2;255;0;0m." + [Esc] + "[0m\n"
  {
  }
}
