/** The 24-bit foreground colour sequence `ESC[38;2;R;G;Bm` and the reset `ESC[0m` of ECMA-48
    SGR (`get_color_escape_code` and the reset appended in `convert`), with a reader that
    recovers the colour from the bytes. */
module Color {
  import opened Wrappers
  import opened Images
  import opened Glyphs

  predicate IsDigit(ch: char)
  {
    '0' <= ch <= '9'
  }

  predicate AllDigits(s: string)
  {
    forall i | 0 <= i < |s| :: IsDigit(s[i])
  }

  function DigitChar(d: int): char
    requires 0 <= d < 10
  {
    ('0' as int + d) as char
  }

  /** The number a string of decimal digits denotes, most significant digit first. */
  function DigitsValue(s: string): nat
    requires AllDigits(s)
  {
    if |s| == 0 then 0
    else DigitsValue(s[..|s| - 1]) * 10 + (s[|s| - 1] as int - '0' as int)
  }

  /** `%u`: the decimal spelling of `n`, without leading zeros. It denotes `n`, and a byte
      needs at most three digits. */
  function Decimal(n: nat): (s: string)
    ensures 1 <= |s| && AllDigits(s)
    ensures DigitsValue(s) == n
    ensures |s| > 1 ==> s[0] != '0'
    ensures n < 10 ==> |s| == 1
    ensures n < 100 ==> |s| <= 2
    ensures n < 1000 ==> |s| <= 3
  {
    if n < 10 then [DigitChar(n)]
    else
      var s := Decimal(n / 10) + [DigitChar(n % 10)];
      assert s[..|s| - 1] == Decimal(n / 10);
      s
  }

  /** The fixed start of a colour sequence: ESC, `[38;2;`. */
  const SgrPrefix: string := [Esc, '[', '3', '8', ';', '2', ';']

  /** The attribute reset ESC `[0m`. */
  const ResetCode: string := [Esc, '[', '0', 'm']

  /** `get_color_escape_code`: the foreground colour sequence for `(r, g, b)`. It starts with
      the fixed prefix, ends with `m`, and at 13 to 19 bytes always fits, with its terminating
      NUL, in the 32-byte buffer the code formats it into. */
  function Escape(r: Byte, g: Byte, b: Byte): (s: string)
    ensures 13 <= |s| <= 19 < 32
    ensures s[..7] == SgrPrefix && s[|s| - 1] == 'm'
    ensures forall i | 0 <= i < |s| :: s[i] as int < 256
  {
    SgrPrefix + Parameters(r, g, b)
  }

  /** The parameter part of a colour sequence, `R;G;Bm`. */
  function Parameters(r: Byte, g: Byte, b: Byte): string
  {
    Decimal(r) + [';'] + Decimal(g) + [';'] + Decimal(b) + ['m']
  }

  /** The number of decimal digits at the start of `s`. */
  function LeadingDigits(s: string): (k: nat)
    ensures k <= |s| && AllDigits(s[..k])
    ensures k < |s| ==> !IsDigit(s[k])
  {
    if |s| == 0 || !IsDigit(s[0]) then 0
    else
      var k := 1 + LeadingDigits(s[1..]);
      assert s[..k] == [s[0]] + s[1..][..k - 1];
      k
  }

  /** Reads a non-empty run of digits closed by `terminator`; yields the number and the bytes
      after the terminator. */
  function ReadNumber(s: string, terminator: char): (o: Option<(nat, string)>)
    ensures o.Some? ==> |o.value.1| + 2 <= |s|
  {
    var k := LeadingDigits(s);
    if 1 <= k < |s| && s[k] == terminator then Some((DigitsValue(s[..k]), s[k + 1..])) else None
  }

  /** The digit run of a decimal spelling stops at the first non-digit after it. */
  lemma {:induction false} LeadingDigitsOfDecimal(d: string, t: char, rest: string)
    requires AllDigits(d) && !IsDigit(t)
    ensures LeadingDigits(d + [t] + rest) == |d|
    decreases |d|
  {
    var s := d + [t] + rest;
    if |d| > 0 {
      assert s[1..] == d[1..] + [t] + rest;
      LeadingDigitsOfDecimal(d[1..], t, rest);
    }
  }

  /** Reading back a spelled number returns it and exactly the bytes after its terminator. */
  lemma ReadDecimal(n: nat, t: char, rest: string)
    requires !IsDigit(t)
    ensures ReadNumber(Decimal(n) + [t] + rest, t) == Some((n, rest))
  {
    var d := Decimal(n);
    var s := d + [t] + rest;
    LeadingDigitsOfDecimal(d, t, rest);
    assert s[..|d|] == d;
    assert s[|d| + 1..] == rest;
  }

  /** Reads the parameters of a colour sequence, `R;G;Bm`, each number below 256; yields the
      colour and the bytes after the closing `m`. */
  function ParseParameters(t: string): (o: Option<(Byte, Byte, Byte, string)>)
    ensures o.Some? ==> |o.value.3| < |t|
  {
    match ReadNumber(t, ';')
    case None => None
    case Some((r, t1)) =>
      match ReadNumber(t1, ';')
      case None => None
      case Some((g, t2)) =>
        match ReadNumber(t2, 'm')
        case None => None
        case Some((b, t3)) =>
          if r < 256 && g < 256 && b < 256 then Some((r, g, b, t3)) else None
  }

  /** Recognises a colour sequence at the start of `s`: the prefix, three numbers below 256
      separated by `;`, and a closing `m`. Yields the colour and the bytes after the sequence. */
  function ParseEscape(s: string): (o: Option<(Byte, Byte, Byte, string)>)
    ensures o.Some? ==> |o.value.3| < |s|
  {
    if |s| < 7 || s[..7] != SgrPrefix then None else ParseParameters(s[7..])
  }

  lemma ReadParameters(r: Byte, g: Byte, b: Byte, rest: string)
    ensures ParseParameters(Parameters(r, g, b) + rest) == Some((r, g, b, rest))
  {
    var tail3 := Decimal(b) + ['m'] + rest;
    var tail2 := Decimal(g) + [';'] + tail3;
    var t := Decimal(r) + [';'] + tail2;
    assert Parameters(r, g, b) + rest == t;
    ReadDecimal(r, ';', tail2);
    ReadDecimal(g, ';', tail3);
    ReadDecimal(b, 'm', rest);
  }

  /** The reader inverts the writer: the colour sequence for `(r, g, b)` reads back as exactly
      that colour, leaving exactly the bytes that follow it. */
  lemma ParseEscapeOfEscape(r: Byte, g: Byte, b: Byte, rest: string)
    ensures ParseEscape(Escape(r, g, b) + rest) == Some((r, g, b, rest))
  {
    var p := Parameters(r, g, b);
    var s := Escape(r, g, b) + rest;
    assert |s| >= 7 && s[..7] == SgrPrefix && s[7..] == p + rest by {
      assert s == SgrPrefix + (p + rest);
    }
    ReadParameters(r, g, b, rest);
  }
}
