/** Assembly of the rendered text (the row/cell loops of `Interpreter::convert`): each cell's
    glyph, optionally wrapped in a colour sequence and a reset, row after row, each row closed
    by a line break. Beside the text itself, a token view and a lexer over the produced bytes
    give an independent reading of what the text contains. */
module Frame {
  import opened Wrappers
  import opened Images
  import opened Glyphs
  import opened Color

  /** One output cell: the glyph byte and the colour it is drawn in. */
  datatype Cell = Cell(glyph: char, red: Byte, green: Byte, blue: Byte)

  /** A cell as `convert` appends it: with colour, the colour sequence, the glyph and the
      reset; without, the glyph alone. */
  function CellText(cell: Cell, useColor: bool): string
  {
    if useColor then Escape(cell.red, cell.green, cell.blue) + [cell.glyph] + ResetCode
    else [cell.glyph]
  }

  /** The cells of one row, left to right. */
  function RowText(row: seq<Cell>, useColor: bool): string
  {
    if |row| == 0 then [] else CellText(row[0], useColor) + RowText(row[1..], useColor)
  }

  /** The rows top to bottom, each followed by `'\n'`. */
  function FrameText(grid: seq<seq<Cell>>, useColor: bool): string
  {
    if |grid| == 0 then [] else RowText(grid[0], useColor) + ['\n'] + FrameText(grid[1..], useColor)
  }

  /** `grid` has `height` rows of `width` cells each. */
  predicate Rectangular(grid: seq<seq<Cell>>, width: nat, height: nat)
  {
    |grid| == height && forall y | 0 <= y < height :: |grid[y]| == width
  }

  /** Every cell of `grid` holds a glyph byte. */
  predicate GlyphCells(grid: seq<seq<Cell>>)
  {
    forall y, x | 0 <= y < |grid| && 0 <= x < |grid[y]| :: GlyphByte(grid[y][x].glyph)
  }

  /** Where line `y` starts in uncoloured text of `height` lines of `width` glyphs each;
      the whole line, break included, lies inside the text. */
  function LineStart(y: int, width: nat, height: nat): (i: nat)
    requires 0 <= y < height
    ensures i + width < (width + 1) * height
  {
    MulMonotone(y + 1, height, width + 1);
    y * (width + 1)
  }

  /** Line `y` starts one line further on than line `y - 1` of the text without its first line. */
  lemma LineStartShift(y: int, width: nat, height: nat)
    requires 0 < y < height
    ensures LineStart(y, width, height) == (width + 1) + LineStart(y - 1, width, height - 1)
    ensures (width + 1) * y == (width + 1) + (width + 1) * (y - 1)
  {
  }

  /** Without colour a row is exactly its glyphs. */
  lemma {:induction false} PlainRowText(row: seq<Cell>)
    ensures |RowText(row, false)| == |row|
    ensures forall x | 0 <= x < |row| :: RowText(row, false)[x] == row[x].glyph
  {
    if |row| > 0 {
      PlainRowText(row[1..]);
    }
  }

  /** Without colour the text is `height` lines of exactly `width` glyphs, each line closed by
      `'\n'`: `(width + 1) * height` bytes, glyph `(x, y)` at `LineStart(y) + x`. */
  lemma {:induction false} PlainFrameShape(grid: seq<seq<Cell>>, width: nat, height: nat)
    requires Rectangular(grid, width, height)
    ensures |FrameText(grid, false)| == (width + 1) * height
    ensures forall y, x | 0 <= y < height && 0 <= x < width ::
      FrameText(grid, false)[LineStart(y, width, height) + x] == grid[y][x].glyph
    ensures forall y | 0 <= y < height :: FrameText(grid, false)[LineStart(y, width, height) + width] == '\n'
    decreases height
  {
    if height > 0 {
      var s := FrameText(grid, false);
      var rest := grid[1..];
      assert Rectangular(rest, width, height - 1);
      PlainFrameShape(rest, width, height - 1);
      PlainRowText(grid[0]);
      var head := RowText(grid[0], false) + ['\n'];
      assert s == head + FrameText(rest, false);
      assert |head| == width + 1;
      LineStartShift(height, width, height + 1);
      forall y, x | 0 <= y < height && 0 <= x < width
        ensures s[LineStart(y, width, height) + x] == grid[y][x].glyph
      {
        if y > 0 {
          LineStartShift(y, width, height);
          assert rest[y - 1] == grid[y];
        }
      }
      forall y | 0 <= y < height
        ensures s[LineStart(y, width, height) + width] == '\n'
      {
        if y > 0 {
          LineStartShift(y, width, height);
        }
      }
    }
  }

  /** How often `ch` occurs in `s`. */
  function Occurrences(s: string, ch: char): nat
  {
    if |s| == 0 then 0 else (if s[0] == ch then 1 else 0) + Occurrences(s[1..], ch)
  }

  lemma {:induction false} OccurrencesAppend(a: string, b: string, ch: char)
    ensures Occurrences(a + b, ch) == Occurrences(a, ch) + Occurrences(b, ch)
    decreases |a|
  {
    if |a| == 0 {
      assert a + b == b;
    } else {
      assert (a + b)[1..] == a[1..] + b;
      OccurrencesAppend(a[1..], b, ch);
    }
  }

  lemma {:induction false} PlainRowHasNoBreak(row: seq<Cell>)
    requires forall x | 0 <= x < |row| :: GlyphByte(row[x].glyph)
    ensures Occurrences(RowText(row, false), '\n') == 0
  {
    if |row| > 0 {
      PlainRowHasNoBreak(row[1..]);
      OccurrencesAppend([row[0].glyph], RowText(row[1..], false), '\n');
    }
  }

  /** Without colour the text has exactly one line break per row. */
  lemma {:induction false} PlainFrameLineCount(grid: seq<seq<Cell>>)
    requires GlyphCells(grid)
    ensures Occurrences(FrameText(grid, false), '\n') == |grid|
  {
    if |grid| > 0 {
      assert GlyphCells(grid[1..]);
      PlainFrameLineCount(grid[1..]);
      PlainRowHasNoBreak(grid[0]);
      OccurrencesAppend(RowText(grid[0], false), ['\n'], '\n');
      OccurrencesAppend(RowText(grid[0], false) + ['\n'], FrameText(grid[1..], false), '\n');
    }
  }

  /** The pieces rendered text is made of. */
  datatype Token = Sgr(red: Byte, green: Byte, blue: Byte) | Glyph(ch: char) | Reset | Newline

  /** The bytes of one token. */
  function Spell(t: Token): string
  {
    match t
    case Sgr(r, g, b) => Escape(r, g, b)
    case Glyph(ch) => [ch]
    case Reset => ResetCode
    case Newline => ['\n']
  }

  /** The bytes of a token sequence, in order. */
  function Spelling(ts: seq<Token>): string
  {
    if |ts| == 0 then [] else Spell(ts[0]) + Spelling(ts[1..])
  }

  lemma {:induction false} SpellingAppend(a: seq<Token>, b: seq<Token>)
    ensures Spelling(a + b) == Spelling(a) + Spelling(b)
    decreases |a|
  {
    if |a| == 0 {
      assert a + b == b;
    } else {
      assert (a + b)[1..] == a[1..] + b;
      SpellingAppend(a[1..], b);
    }
  }

  function CellTokens(cell: Cell, useColor: bool): seq<Token>
  {
    if useColor then [Sgr(cell.red, cell.green, cell.blue), Glyph(cell.glyph), Reset]
    else [Glyph(cell.glyph)]
  }

  function RowTokens(row: seq<Cell>, useColor: bool): seq<Token>
  {
    if |row| == 0 then [] else CellTokens(row[0], useColor) + RowTokens(row[1..], useColor)
  }

  function FrameTokens(grid: seq<seq<Cell>>, useColor: bool): seq<Token>
  {
    if |grid| == 0 then [] else RowTokens(grid[0], useColor) + [Newline] + FrameTokens(grid[1..], useColor)
  }

  lemma SpellingSingle(t: Token)
    ensures Spelling([t]) == Spell(t)
  {
    assert [t][1..] == [];
  }

  lemma CellTokensSpelling(cell: Cell, useColor: bool)
    ensures Spelling(CellTokens(cell, useColor)) == CellText(cell, useColor)
  {
    var glyph := Glyph(cell.glyph);
    SpellingSingle(glyph);
    if useColor {
      var sgr := Sgr(cell.red, cell.green, cell.blue);
      assert CellTokens(cell, true) == [sgr] + ([glyph] + [Reset]);
      SpellingAppend([sgr], [glyph] + [Reset]);
      SpellingAppend([glyph], [Reset]);
      SpellingSingle(sgr);
      SpellingSingle(Reset);
      assert CellText(cell, true) == Spell(sgr) + (Spell(glyph) + Spell(Reset));
    }
  }

  lemma {:induction false} RowTokensSpelling(row: seq<Cell>, useColor: bool)
    ensures Spelling(RowTokens(row, useColor)) == RowText(row, useColor)
  {
    if |row| > 0 {
      RowTokensSpelling(row[1..], useColor);
      SpellingAppend(CellTokens(row[0], useColor), RowTokens(row[1..], useColor));
      CellTokensSpelling(row[0], useColor);
    }
  }

  /** The token view spells out exactly the text `convert` builds. */
  lemma {:induction false} FrameTokensSpelling(grid: seq<seq<Cell>>, useColor: bool)
    ensures Spelling(FrameTokens(grid, useColor)) == FrameText(grid, useColor)
  {
    if |grid| > 0 {
      FrameTokensSpelling(grid[1..], useColor);
      RowTokensSpelling(grid[0], useColor);
      SpellingAppend(RowTokens(grid[0], useColor) + [Newline], FrameTokens(grid[1..], useColor));
      SpellingAppend(RowTokens(grid[0], useColor), [Newline]);
    }
  }

  /** A token whose bytes can be read back unambiguously: glyphs are glyph bytes. */
  predicate Readable(t: Token)
  {
    t.Glyph? ==> GlyphByte(t.ch)
  }

  /** Reads one token off the front of `s`, yielding it and the bytes after it. */
  function LexToken(s: string): (o: Option<(Token, string)>)
    requires |s| > 0
    ensures o.Some? ==> |o.value.1| < |s|
  {
    if s[0] == '\n' then Some((Newline, s[1..]))
    else if s[0] != Esc then Some((Glyph(s[0]), s[1..]))
    else if |s| >= 4 && s[..4] == ResetCode then Some((Reset, s[4..]))
    else
      match ParseEscape(s)
      case None => None
      case Some((r, g, b, rest)) => Some((Sgr(r, g, b), rest))
  }

  /** Splits rendered text into tokens; `None` when some bytes form no token. */
  function Lex(s: string): Option<seq<Token>>
    decreases |s|
  {
    if |s| == 0 then Some([])
    else
      match LexToken(s)
      case None => None
      case Some((t, rest)) =>
        match Lex(rest)
        case None => None
        case Some(ts) => Some([t] + ts)
  }

  lemma LexColorStart(r: Byte, g: Byte, b: Byte, rest: string)
    ensures LexToken(Escape(r, g, b) + rest) == Some((Sgr(r, g, b), rest))
  {
    var e := Escape(r, g, b);
    var s := e + rest;
    assert s[0] == Esc && s[0] != '\n' && !(|s| >= 4 && s[..4] == ResetCode) by {
      assert s[..7] == e[..7] == SgrPrefix;
      assert s[2] == '3';
    }
    assert ParseEscape(s) == Some((r, g, b, rest)) by {
      ParseEscapeOfEscape(r, g, b, rest);
    }
  }

  lemma LexReset(rest: string)
    ensures LexToken(ResetCode + rest) == Some((Reset, rest))
  {
    var s := ResetCode + rest;
    assert s[..4] == ResetCode && s[4..] == rest;
  }

  lemma LexTokenOfSpell(t: Token, rest: string)
    requires Readable(t)
    ensures LexToken(Spell(t) + rest) == Some((t, rest))
  {
    match t
    case Sgr(r, g, b) => LexColorStart(r, g, b, rest);
    case Glyph(ch) => assert ([ch] + rest)[1..] == rest;
    case Reset => LexReset(rest);
    case Newline => assert (['\n'] + rest)[1..] == rest;
  }

  /** Lexing inverts spelling: the bytes of readable tokens split back into exactly those
      tokens, so the text has one reading only. */
  lemma {:induction false} LexSpelling(ts: seq<Token>)
    requires forall i | 0 <= i < |ts| :: Readable(ts[i])
    ensures Lex(Spelling(ts)) == Some(ts)
  {
    if |ts| > 0 {
      var s := Spelling(ts);
      LexTokenOfSpell(ts[0], Spelling(ts[1..]));
      assert |Spell(ts[0])| > 0 by {
        match ts[0]
        case Sgr(r, g, b) =>
        case Glyph(_) =>
        case Reset =>
        case Newline =>
      }
      LexSpelling(ts[1..]);
      assert [ts[0]] + ts[1..] == ts;
    }
  }

  /** Every token of a frame built from glyph cells is readable. */
  lemma {:induction false} FrameTokensReadable(grid: seq<seq<Cell>>, useColor: bool)
    requires GlyphCells(grid)
    ensures forall i | 0 <= i < |FrameTokens(grid, useColor)| :: Readable(FrameTokens(grid, useColor)[i])
  {
    if |grid| > 0 {
      assert GlyphCells(grid[1..]);
      FrameTokensReadable(grid[1..], useColor);
      RowTokensReadable(grid[0], useColor);
    }
  }

  lemma {:induction false} RowTokensReadable(row: seq<Cell>, useColor: bool)
    requires forall x | 0 <= x < |row| :: GlyphByte(row[x].glyph)
    ensures forall i | 0 <= i < |RowTokens(row, useColor)| :: Readable(RowTokens(row, useColor)[i])
  {
    if |row| > 0 {
      RowTokensReadable(row[1..], useColor);
    }
  }

  /** The kinds of token, for counting. */
  datatype Kind = ColorStart | GlyphKind | ResetKind | BreakKind

  function KindOf(t: Token): Kind
  {
    match t
    case Sgr(_, _, _) => ColorStart
    case Glyph(_) => GlyphKind
    case Reset => ResetKind
    case Newline => BreakKind
  }

  /** How many tokens of kind `k` occur in `ts`. */
  function Count(ts: seq<Token>, k: Kind): nat
  {
    if |ts| == 0 then 0 else (if KindOf(ts[0]) == k then 1 else 0) + Count(ts[1..], k)
  }

  /** One cell is one glyph, wrapped in a colour start and a reset when colour is on. */
  lemma CellCounts(cell: Cell, useColor: bool)
    ensures Count(CellTokens(cell, useColor), GlyphKind) == 1
    ensures Count(CellTokens(cell, useColor), ColorStart) == (if useColor then 1 else 0)
    ensures Count(CellTokens(cell, useColor), ResetKind) == (if useColor then 1 else 0)
    ensures Count(CellTokens(cell, useColor), BreakKind) == 0
  {
    var ts := CellTokens(cell, useColor);
    if useColor {
      assert ts[2..][1..] == [];
      assert forall k :: Count(ts[2..], k) == (if k == ResetKind then 1 else 0);
      assert ts[1..][1..] == ts[2..];
      assert forall k :: Count(ts[1..], k) == (if k == ResetKind || k == GlyphKind then 1 else 0);
    } else {
      assert ts[1..] == [];
    }
  }

  lemma {:induction false} CountAppend(a: seq<Token>, b: seq<Token>)
    ensures forall k :: Count(a + b, k) == Count(a, k) + Count(b, k)
    decreases |a|
  {
    if |a| == 0 {
      assert a + b == b;
    } else {
      assert (a + b)[1..] == a[1..] + b;
      CountAppend(a[1..], b);
    }
  }

  lemma {:induction false} RowCounts(row: seq<Cell>, useColor: bool)
    ensures Count(RowTokens(row, useColor), GlyphKind) == |row|
    ensures Count(RowTokens(row, useColor), ColorStart) == (if useColor then |row| else 0)
    ensures Count(RowTokens(row, useColor), ResetKind) == (if useColor then |row| else 0)
    ensures Count(RowTokens(row, useColor), BreakKind) == 0
  {
    if |row| > 0 {
      RowCounts(row[1..], useColor);
      CountAppend(CellTokens(row[0], useColor), RowTokens(row[1..], useColor));
      CellCounts(row[0], useColor);
    }
  }

  /** A `width` x `height` frame holds `width * height` glyphs and `height` line breaks; with
      colour it holds exactly as many colour starts and as many resets as glyphs, without
      colour none of either. */
  lemma {:induction false} FrameCounts(grid: seq<seq<Cell>>, width: nat, height: nat, useColor: bool)
    requires Rectangular(grid, width, height)
    ensures Count(FrameTokens(grid, useColor), GlyphKind) == width * height
    ensures Count(FrameTokens(grid, useColor), ColorStart) == (if useColor then width * height else 0)
    ensures Count(FrameTokens(grid, useColor), ResetKind) == (if useColor then width * height else 0)
    ensures Count(FrameTokens(grid, useColor), BreakKind) == height
    decreases height
  {
    if height > 0 {
      assert Rectangular(grid[1..], width, height - 1);
      FrameCounts(grid[1..], width, height - 1, useColor);
      RowCounts(grid[0], useColor);
      CountAppend(RowTokens(grid[0], useColor), [Newline]);
      CountAppend(RowTokens(grid[0], useColor) + [Newline], FrameTokens(grid[1..], useColor));
      assert width * height == width + width * (height - 1);
    }
  }

  /** Every glyph sits between a colour start and a reset, every colour start is followed by a
      glyph and every reset follows a glyph. */
  predicate Wrapped(ts: seq<Token>)
  {
    && (forall i | 0 <= i < |ts| && ts[i].Glyph? :: 0 < i < |ts| - 1 && ts[i - 1].Sgr? && ts[i + 1].Reset?)
    && (forall i | 0 <= i < |ts| && ts[i].Sgr? :: i + 1 < |ts| && ts[i + 1].Glyph?)
    && (forall i | 0 <= i < |ts| && ts[i].Reset? :: 0 < i && ts[i - 1].Glyph?)
  }

  lemma WrappedAppend(a: seq<Token>, b: seq<Token>)
    requires Wrapped(a) && Wrapped(b)
    ensures Wrapped(a + b)
  {
    var ab := a + b;
    forall i | 0 <= i < |ab| && ab[i].Glyph?
      ensures 0 < i < |ab| - 1 && ab[i - 1].Sgr? && ab[i + 1].Reset?
    {
      if i < |a| {
        assert a[i].Glyph?;
      } else {
        assert b[i - |a|].Glyph?;
      }
    }
    forall i | 0 <= i < |ab| && ab[i].Sgr?
      ensures i + 1 < |ab| && ab[i + 1].Glyph?
    {
      if i < |a| {
        assert a[i].Sgr?;
      } else {
        assert b[i - |a|].Sgr?;
      }
    }
    forall i | 0 <= i < |ab| && ab[i].Reset?
      ensures 0 < i && ab[i - 1].Glyph?
    {
      if i < |a| {
        assert a[i].Reset?;
      } else {
        assert b[i - |a|].Reset?;
      }
    }
  }

  lemma {:induction false} RowWrapped(row: seq<Cell>)
    ensures Wrapped(RowTokens(row, true))
  {
    if |row| > 0 {
      RowWrapped(row[1..]);
      WrappedAppend(CellTokens(row[0], true), RowTokens(row[1..], true));
    }
  }

  /** With colour every glyph of the frame is immediately preceded by a colour start and
      immediately followed by a reset. */
  lemma {:induction false} FrameWrapped(grid: seq<seq<Cell>>)
    ensures Wrapped(FrameTokens(grid, true))
  {
    if |grid| > 0 {
      FrameWrapped(grid[1..]);
      RowWrapped(grid[0]);
      WrappedAppend(RowTokens(grid[0], true), [Newline]);
      WrappedAppend(RowTokens(grid[0], true) + [Newline], FrameTokens(grid[1..], true));
    }
  }
}
