# ARSIC renderer in Dafny

A model of the image-to-text renderer of ARSIC, `ascii_art::Interpreter` in
`ascii_art.cpp`. `convert` takes a raster of 8-bit samples and does the following:

1. It rejects an empty or zero-sized image.
2. It derives the target height from the aspect ratio when asked to.
3. It resamples the image by nearest neighbour to the target size.
4. It tone-maps every cell. This means taking the BT.601 luminance (or the grey sample), then
   optional gamma correction, then contrast and brightness with a clamp, then the smoothstep
   curve `3x^2 - 2x^3`.
5. It picks a byte of the mode's character ramp for each cell.
6. It assembles the text. Each glyph is optionally wrapped in an ECMA-48 SGR 24-bit
   foreground sequence `ESC[38;2;R;G;Bm` and a reset `ESC[0m`. Each row ends with `'\n'`.

Modules follow the pipeline:

- `Numeric`: `std::clamp` and the truncating `static_cast<int>`.
- `Images`: the flat row-major buffer, `get_pixel_value` and `resize_image`.
- `Tone`: luminance, gamma clamps, contrast and smoothstep.
- `Glyphs`: ramps and glyph index.
- `Color`: decimal spelling, the colour sequence, and a reader for it.
- `Frame`: text assembly, plus a token view and a lexer that read the text back.
- `Interpreter`: `Config`, the setters and `convert`.
- `Scenarios`: concrete renders.

Floating-point values are exact reals. The output `std::string` is a `string` whose
characters are bytes.

Facts about the code that shape the model:

- The high-fidelity ramp (ascii_art.cpp:153) is 69 bytes.
- The block ramp `" ░▒▓█"` (ascii_art.cpp:156) is 13 UTF-8 bytes, and `map_intensity_to_char`
  indexes it byte by byte (ascii_art.cpp:167-169). So block mode emits single bytes of the
  multi-byte characters: a white cell is the lone byte 0x88.
- The height is derived only when `maintain_aspect` is set and `target_height == 0`
  (ascii_art.cpp:23).

An unrecognised mode is the `Mode.Other` case. It reaches the fall-back after the `switch`.

## Model

| member | source | states |
|---|---|---|
| `Interpreter.Convert` | ascii_art.cpp:15-18 | fails, with `invalid_argument("Invalid image data")`, exactly when the buffer is empty or a dimension is not positive; succeeds otherwise |
| `Interpreter.RenderHeight` | ascii_art.cpp:20-25 | the configured height unchanged unless `maintain_aspect` is set and the height is 0; then the integer `h` that truncates `target_width * H * char_aspect_ratio / W` toward zero, pinned between neighbouring multiples of `W` on each side of zero |
| `Interpreter.SetMode` | ascii_art.cpp:109-111 | the mode becomes the given one; nothing else changes (restoring the old mode gives back the configuration) |
| `Interpreter.SetTargetSize` | ascii_art.cpp:113-116 | both target dimensions become the given ones; nothing else changes |
| `Interpreter.SetContrast` | ascii_art.cpp:118-120 | the contrast becomes the given one; nothing else changes |
| `Interpreter.SetBrightness` | ascii_art.cpp:122-124 | the brightness becomes the given one; nothing else changes |
| `Interpreter.SetColor` | ascii_art.cpp:126-128 | the colour switch becomes the given one; nothing else changes |
| `Interpreter.Intensity` | ascii_art.cpp:51-57 | the tone-mapped intensity is in the unit interval; at unit contrast and zero brightness, luminance 0 stays 0 and luminance 1 stays 1, with or without gamma |
| `Interpreter.IntensityMonotone` | ascii_art.cpp:51-57 | without gamma and with non-negative contrast, a higher luminance never gives a lower intensity |
| `Interpreter.GreyLuminance` | ascii_art.cpp:41-47 | a grey pixel `v` has luminance `v / 255`, whether it has one channel or three |
| `Interpreter.ByteScaleRoundTrip` | ascii_art.cpp:47-48 | scaling a sample to the unit interval and converting it back to `uint8_t` gives the sample again |
| `Interpreter.GreyBranchesAgree` | ascii_art.cpp:41-49 | the three-channel branch on `(v, v, v)` and the one-channel branch on `v` draw the same glyph in the same colour |
| `Interpreter.RampPosition` | ascii_art.cpp:57-59 | every pixel's glyph is the ramp entry at a position inside the ramp |
| `Interpreter.BlackAndWhite` | ascii_art.cpp:41-59 | at unit contrast and zero brightness, a black pixel is drawn as a space and a white one as the ramp's last byte, in every mode |
| `Interpreter.RampMonotone` | ascii_art.cpp:51-59 | without gamma and with non-negative contrast, a higher luminance never selects an earlier ramp position |
| `Interpreter.BrighterNeverSparser` | ascii_art.cpp:41-59 | the same for whole pixels: a pixel of higher luminance never selects an earlier ramp position |
| `Interpreter.BrighterGreyNeverSparser` | ascii_art.cpp:41-59 | a brighter grey pixel never selects an earlier ramp position, whether each pixel has one channel or three |
| `Interpreter.Cells` | ascii_art.cpp:36-59 | the cells form a `width x height` rectangle of glyph bytes, and each cell is the one drawn for its own pixel |
| `Interpreter.ResizedCell` | ascii_art.cpp:27 | a resampled pixel is drawn exactly like the source pixel its coordinates scale to |
| `Interpreter.ResizedCells` | ascii_art.cpp:27-49 | every cell of the resized grid, glyph and colour, is the cell of the source pixel its coordinates scale to |
| `Interpreter.ConvertPlain` | ascii_art.cpp:31-71 | without colour, a render succeeds with `(target_width + 1) * h` bytes, of which exactly `h` are line breaks, `h` being the render height |
| `Interpreter.ConvertPlainLayout` | ascii_art.cpp:36-70 | without colour, line `y` holds at `y * (w + 1) + x` the glyph of the source pixel `(x, y)` scales to, and ends with `'\n'` right after its `w` glyphs |
| `Interpreter.ConvertColored` | ascii_art.cpp:36-71 | with colour, the text is exactly the spelling of the resized image's cells row by row: per cell `Escape` of its R, G, B (plain `%u` decimals), its glyph, `ESC[0m`, and `'\n'` after each row; it lexes back to exactly those tokens: `w * h` colour sequences, glyphs and resets, `h` line breaks, every glyph between its colour sequence and a reset |
| `Images.Offset` | ascii_art.cpp:199-202 | the flat index `(y * W + x) * C + c` of an in-bounds sample is below `W * H * C`, so every read lands inside the buffer; `Images.PixelValue`, the model of `get_pixel_value`, reads the sample at this index |
| `Images.CoordinatesOfOffset` | ascii_art.cpp:187-188 | the flat index determines pixel and channel: decoding it gives back `(x, y, c)` |
| `Images.OffsetInjective` | ascii_art.cpp:186-190 | distinct in-bounds samples have distinct flat indices, so the resampling writes never collide |
| `Images.SourceIndex` | ascii_art.cpp:175-184 | the source coordinate is inside the source and is the floor of `dst * src / dst_size` |
| `Images.Resize` | ascii_art.cpp:172-195 | the result is `new_width x new_height` with the same channel count and a buffer of exactly `new_width * new_height * channels` samples, and each sample is copied from the source pixel the coordinates scale to |
| `Images.ResizedPixel` | ascii_art.cpp:178-192 | each resampled pixel equals, channel for channel, its source pixel |
| `Numeric.ClampInt` | ascii_art.cpp:168 | `std::clamp` on integers lands in the range and leaves in-range values alone |
| `Numeric.Trunc` | ascii_art.cpp:167 | `static_cast<int>` truncates toward zero: the integer next to `x` on the side of zero |
| `Tone.Luminance` | ascii_art.cpp:161-163 | BT.601 luminance is in the unit interval, is 0 exactly for black and 1 exactly for white, and is the common value scaled for grey |
| `Tone.LuminanceMonotone` | ascii_art.cpp:161-163 | raising any channel never lowers the luminance |
| `Tone.Gamma` | ascii_art.cpp:130-134 | gamma correction is exactly 0 at or below 0 and exactly 1 at or above 1; in between it is the power curve |
| `Tone.AdjustContrast` | ascii_art.cpp:55 | the contrast/brightness result is in the unit interval; it is exact inside the interval and saturates outside it |
| `Tone.AdjustContrastMonotone` | ascii_art.cpp:55 | with non-negative contrast, a brighter input never comes out darker |
| `Tone.CubicInUnit` | ascii_art.cpp:136-139 | `3x^2 - 2x^3` maps the unit interval into itself |
| `Tone.Smoothstep` | ascii_art.cpp:136-139 | the perceptual mapping is in the unit interval, fixes 0 and 1, and is the plain cubic on the unit interval |
| `Tone.SmoothstepMonotone` | ascii_art.cpp:136-139 | the perceptual mapping is non-decreasing on the unit interval |
| `Glyphs.Charset` | ascii_art.cpp:147-159 | each mode's ramp starts with a space and holds glyph bytes only; clean and unrecognised modes give the 10-byte ramp ending `@`, high fidelity the 69-byte ramp ending `$`, block the 13 bytes ending 0x88 |
| `Glyphs.GlyphIndex` | ascii_art.cpp:167-168 | the index is always inside the ramp; intensities at or below 0 give 0, at or above 1 the last index, and in between the floor of `intensity * (len - 1)` |
| `Glyphs.GlyphIndexMonotone` | ascii_art.cpp:167-168 | a higher intensity never gives a lower index |
| `Glyphs.UnrecognisedModeIsClean` | ascii_art.cpp:149-158 | an unrecognised mode gets the clean ramp itself, so it draws the same glyph as the clean mode at every intensity |
| `Glyphs.MapIntensityToChar` | ascii_art.cpp:165-170 | the glyph is a byte of the mode's ramp and a glyph byte; intensity 0 gives a space and 1 the ramp's last byte |
| `Glyphs.BlockEmitsSingleByte` | ascii_art.cpp:155-156 | in block mode full intensity emits the lone byte 0x88, not the whole character U+2588 |
| `Color.Decimal` | ascii_art.cpp:143 | `%u` spells a number as decimal digits that denote it, without leading zeros, and a byte takes at most three digits |
| `Color.Escape` | ascii_art.cpp:141-145 | the colour sequence starts with `ESC[38;2;`, ends with `m`, and at 13 to 19 bytes always fits the 32-byte buffer |
| `Color.ParseEscapeOfEscape` | ascii_art.cpp:141-145 | reading the colour sequence back gives exactly the colour and leaves exactly the bytes that follow |
| `Frame.PlainFrameShape` | ascii_art.cpp:36-71 | uncoloured text of a `w x h` grid has `(w + 1) * h` bytes, glyph `(x, y)` at `y * (w + 1) + x` and `'\n'` at the end of each line |
| `Frame.PlainFrameLineCount` | ascii_art.cpp:67-70 | uncoloured text of glyph cells has exactly one line break per row |
| `Frame.FrameTokensSpelling` | ascii_art.cpp:61-70 | the token view spells out exactly the assembled text |
| `Frame.LexSpelling` | ascii_art.cpp:61-70 | lexing inverts spelling, so the text has one reading only |
| `Frame.FrameCounts` | ascii_art.cpp:36-71 | a `w x h` frame has `w * h` glyphs and `h` line breaks, plus `w * h` colour sequences and `w * h` resets with colour, and none without |
| `Frame.FrameWrapped` | ascii_art.cpp:61-65 | with colour every glyph comes right after a colour sequence and right before a reset |
| `Scenarios.WhiteSquare` | ascii_art.cpp:15-74 | a pure white 2 x 2 RGB image in clean mode without colour renders as `"@@\n@@\n"` |
| `Scenarios.BlackSquare` | ascii_art.cpp:15-74 | a pure black 2 x 2 RGB image renders as two lines of two spaces |
| `Scenarios.RedPixel` | ascii_art.cpp:15-74 | one pure red pixel with colour renders as `ESC[38;2;255;0;0m.ESC[0m\n` |

## Left out

- `convert_from_file` (ascii_art.cpp:77-107) is not modelled. It is file I/O, stream parsing of the PPM header, and the `stb_image` decoder.
- converter.cpp, the command-line driver, is not part of this model.
- The `std::pow` branch of `apply_gamma_correction` is not modelled as arithmetic. It is the function parameter `curve(value, gamma)`, standing for `pow(value, 1 / gamma)`, and the model only states that it is used strictly inside the unit interval.
- IEEE-754 `float` rounding is not modelled; the model uses exact reals. For example, `static_cast<int>(x * x_ratio)` may differ from the exact floor that `Images.SourceIndex` computes: for a source width of 2 and a new width of 82, `41 * (2.0f / 82)` is `0.99999994f`, so ascii_art.cpp:180 reads source column 0 where the exact floor is 1. The clamps are modelled anyway.
- The 32-bit `int` overflow of `target_width * image.height` and of the buffer sizes is not modelled.
- `Interpreter.Convert` requires a non-negative target width and render height. The command-line driver (converter.cpp:22-33) sets only a positive `target_width`; the other `Config` fields keep their defaults from `ascii_art.h`, which is not part of this model, so the height half of the requirement is assumed rather than read from the source. For negative sizes the C++ either returns `""` (when no loop body runs) or depends on the `Image` constructor in `ascii_art.h`, which is not part of this model.
- `Image` and `Config` are reconstructed from their uses in `ascii_art.cpp`. Only the `Config` fields that `convert` and the setters read are modelled, and no defaults.
- `result.reserve` is not modelled. For the sizes `Interpreter.Convert` admits it is an allocation hint and does not change the result. A negative `(target_width + 1) * target_height` converts to a huge `size_t`, and `reserve` then throws `std::length_error` (ascii_art.cpp:32), unless the `Image` constructor reached at lines 27 and 173 has thrown first; the model does not cover that error.
- Animation playback and frame pacing are not modelled; no such code is in `ascii_art.cpp`.
