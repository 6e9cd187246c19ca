/** Glyph selection (`get_charset` and `map_intensity_to_char` in ascii_art.cpp). A ramp is
    a C++ `std::string`, so it is modelled as a sequence of bytes, each held in a `char`
    below 256. */
module Glyphs {
  import opened Numeric

  /** The rendering modes. `Other` stands for a `Mode` value outside the three named
      enumerators, the case the code after the `switch` handles. */
  datatype Mode = Clean | HighFidelity | Block | Other(tag: int)

  /** The escape byte that opens a terminal control sequence. */
  const Esc: char := '\U{1B}'

  /** A byte that can stand as a glyph in rendered text: any byte except the escape byte and
      the line terminator, so glyphs never blur into control sequences or line breaks. */
  predicate GlyphByte(ch: char)
  {
    ch as int < 256 && ch != Esc && ch != '\n'
  }

  const CleanRamp: string := " .:-=+*#%@"

  /** The 69-byte dense ramp, written in ten-byte pieces (the last has nine). */
  const HighFidelityRamp: string :=
    " .'`^\",:;I" + "l!i><~+_-?" + "][}{1)(|\\t" + "fjrxnuvczX" + "YUJCLQ0OZm" + "wqpdbkhao*" + "#MW&8%B@$"

  /** Every byte of `s` is printable ASCII, space to tilde. */
  predicate Printable(s: string)
  {
    forall i | 0 <= i < |s| :: ' ' <= s[i] <= '~'
  }

  lemma PrintableAppend(a: string, b: string)
    requires Printable(a) && Printable(b)
    ensures Printable(a + b)
  {
    forall i | 0 <= i < |a + b|
      ensures ' ' <= (a + b)[i] <= '~'
    {
      if i >= |a| {
        assert (a + b)[i] == b[i - |a|];
      }
    }
  }

  lemma HighFidelityPrintable()
    ensures Printable(HighFidelityRamp)
  {
    var a, b, c, d := " .'`^\",:;I", "l!i><~+_-?", "][}{1)(|\\t", "fjrxnuvczX";
    var e, f, g := "YUJCLQ0OZm", "wqpdbkhao*", "#MW&8%B@$";
    assert Printable(a) && Printable(b) && Printable(c) && Printable(d);
    assert Printable(e) && Printable(f) && Printable(g);
    PrintableAppend(a, b);
    PrintableAppend(a + b, c);
    PrintableAppend(a + b + c, d);
    PrintableAppend(a + b + c + d, e);
    PrintableAppend(a + b + c + d + e, f);
    PrintableAppend(a + b + c + d + e + f, g);
  }

  /** `" ░▒▓█"` as its UTF-8 bytes: a space, then E2 96 91, E2 96 92, E2 96 93 and E2 96 88. */
  const BlockRamp: string :=
    [' ', '\U{E2}', '\U{96}', '\U{91}', '\U{E2}', '\U{96}', '\U{92}',
          '\U{E2}', '\U{96}', '\U{93}', '\U{E2}', '\U{96}', '\U{88}']

  /** Every ramp consists of glyph bytes only. */
  lemma RampsAreGlyphBytes()
    ensures forall i | 0 <= i < |CleanRamp| :: GlyphByte(CleanRamp[i])
    ensures forall i | 0 <= i < |BlockRamp| :: GlyphByte(BlockRamp[i])
    ensures forall i | 0 <= i < |HighFidelityRamp| :: GlyphByte(HighFidelityRamp[i])
  {
    HighFidelityPrintable();
  }

  /** `get_charset`: the ramp of the mode, darkest first; an unrecognised mode falls back to
      the clean ramp. Every ramp starts with a space and consists of glyph bytes only. */
  function Charset(mode: Mode): (ramp: string)
    ensures 2 <= |ramp| && ramp[0] == ' '
    ensures forall i | 0 <= i < |ramp| :: GlyphByte(ramp[i])
    ensures mode.Clean? || mode.Other? ==> |ramp| == 10 && ramp[|ramp| - 1] == '@'
    ensures mode.HighFidelity? ==> |ramp| == 69 && ramp[|ramp| - 1] == '$'
    ensures mode.Block? ==> |ramp| == 13 && ramp[|ramp| - 1] == '\U{88}'
  {
    RampsAreGlyphBytes();
    match mode
    case Clean => CleanRamp
    case HighFidelity => HighFidelityRamp
    case Block => BlockRamp
    case Other(_) => CleanRamp
  }

  /** `intensity * (charset.size() - 1)`: the intensity stretched over the positions of a ramp
      of `n` entries. It stays within `0 .. n-1` for an intensity in the unit interval. */
  function Scaled(intensity: real, n: int): (s: real)
    requires 1 <= n
    ensures intensity <= 0.0 ==> s <= 0.0
    ensures 0.0 <= intensity <= 1.0 ==> 0.0 <= s <= (n - 1) as real
    ensures 1.0 <= intensity ==> (n - 1) as real <= s
  {
    ScaleBounds(intensity, (n - 1) as real);
    intensity * (n - 1) as real
  }

  /** Where `intensity * top` lies for a non-negative `top`. */
  lemma ScaleBounds(intensity: real, top: real)
    requires 0.0 <= top
    ensures intensity <= 0.0 ==> intensity * top <= 0.0
    ensures 0.0 <= intensity <= 1.0 ==> 0.0 <= intensity * top <= top
    ensures 1.0 <= intensity ==> top <= intensity * top
  {
    if intensity <= 0.0 {
      MulNonNegative(-intensity, top);
    }
    if 0.0 <= intensity <= 1.0 {
      MulNonNegative(intensity, top);
      MulNonNegative(1.0 - intensity, top);
    }
    if 1.0 <= intensity {
      MulNonNegative(intensity - 1.0, top);
    }
  }

  /** Stretching preserves order. */
  lemma ScaledMonotone(a: real, b: real, n: int)
    requires a <= b && 1 <= n
    ensures Scaled(a, n) <= Scaled(b, n)
  {
    var top := (n - 1) as real;
    MulNonNegative(b - a, top);
    assert b * top - a * top == (b - a) * top;
  }

  /** The ramp position for `intensity` on a ramp of `n` entries: the stretched intensity
      truncated and clamped. Intensities at or below 0 give the first entry, at or above 1 the
      last, and in between the floor of the stretched intensity. */
  function GlyphIndex(intensity: real, n: int): (k: int)
    requires 1 <= n
    ensures 0 <= k < n
    ensures intensity <= 0.0 ==> k == 0
    ensures intensity >= 1.0 ==> k == n - 1
    ensures 0.0 <= intensity <= 1.0 ==> k as real <= Scaled(intensity, n) < k as real + 1.0
  {
    ClampInt(Trunc(Scaled(intensity, n)), 0, n - 1)
  }

  /** A brighter intensity never selects an earlier ramp position. */
  lemma GlyphIndexMonotone(a: real, b: real, n: int)
    requires a <= b && 1 <= n
    ensures GlyphIndex(a, n) <= GlyphIndex(b, n)
  {
    ScaledMonotone(a, b, n);
    TruncMonotone(Scaled(a, n), Scaled(b, n));
  }

  /** `map_intensity_to_char`: the ramp byte at `GlyphIndex`. The byte always comes from the
      mode's ramp; 0 (or below) gives a space and 1 (or above) the ramp's last byte. */
  function MapIntensityToChar(mode: Mode, intensity: real): (ch: char)
    ensures ch in Charset(mode)
    ensures GlyphByte(ch)
    ensures intensity <= 0.0 ==> ch == ' '
    ensures intensity >= 1.0 ==> ch == Charset(mode)[|Charset(mode)| - 1]
  {
    var ramp := Charset(mode);
    ramp[GlyphIndex(intensity, |ramp|)]
  }

  /** In block mode full intensity emits the single byte 0x88, the last byte of the three-byte
      UTF-8 encoding of U+2588, not the whole character. */
  lemma BlockEmitsSingleByte()
    ensures MapIntensityToChar(Block, 1.0) == '\U{88}'
  {
  }

  /** An unrecognised mode is the clean mode: the same ramp, hence the same glyph for every
      intensity. */
  lemma UnrecognisedModeIsClean(tag: int)
    ensures Charset(Other(tag)) == Charset(Clean)
    ensures forall i: real :: MapIntensityToChar(Other(tag), i) == MapIntensityToChar(Clean, i)
  {
  }
}
