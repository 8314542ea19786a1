/** The two pure computations inside `Font::_init_glyph` of
    oui/src/oui_text.cpp: splitting a code point into the UTF-16 units handed
    to the text renderer (RFC 2781 section 2.1), and rounding a glyph's pixel
    width up to a whole number of 4-byte bitmap rows. `wchar_t` is a 16-bit
    unsigned unit and `int` a 32-bit two's-complement integer; both
    conversions are written out. */
module Glyphs {

  /** Conversion to a 16-bit `wchar_t`: the value modulo 2^16. */
  function ToWchar(v: int): (u: int)
    ensures 0 <= u < 0x1_0000
    ensures 0 <= v < 0x1_0000 ==> u == v
    ensures (u - v) % 0x1_0000 == 0
  {
    v % 0x1_0000
  }

  /** The units written into `str` before its terminator: the code point itself
      below 0x10000, otherwise a high unit carrying the upper ten bits of
      `ch - 0x10000` and a low unit carrying the lower ten. */
  function Utf16Units(ch: int): (u: seq<int>)
    ensures ch < 0x1_0000 ==> |u| == 1
    ensures ch >= 0x1_0000 ==> |u| == 2
    ensures forall i :: 0 <= i < |u| ==> 0 <= u[i] < 0x1_0000
  {
    if ch >= 0x1_0000 then
      var chm := ch - 0x1_0000;
      [ToWchar(chm / 1024 + 0xD800), ToWchar(chm % 1024 + 0xDC00)]
    else [ToWchar(ch)]
  }

  predicate IsHighSurrogate(u: int) { 0xD800 <= u <= 0xDBFF }
  predicate IsLowSurrogate(u: int) { 0xDC00 <= u <= 0xDFFF }

  /** The decoding direction of RFC 2781 section 2.2: a surrogate pair back to
      the code point it stands for. */
  function Combine(high: int, low: int): int
  {
    0x1_0000 + (high - 0xD800) * 1024 + (low - 0xDC00)
  }

  /** Every supplementary code point becomes a high surrogate followed by a low
      surrogate that combine back to it; every other code point below 0x10000
      is one unit equal to itself. */
  lemma SplitIsSurrogatePair(ch: int)
    requires 0 <= ch <= 0x10_FFFF
    ensures ch < 0x1_0000 ==> Utf16Units(ch) == [ch]
    ensures ch >= 0x1_0000 ==>
      && IsHighSurrogate(Utf16Units(ch)[0])
      && IsLowSurrogate(Utf16Units(ch)[1])
      && Combine(Utf16Units(ch)[0], Utf16Units(ch)[1]) == ch
  {
    if ch >= 0x1_0000 {
      var chm := ch - 0x1_0000;
      assert chm / 1024 < 1024;
      assert chm == chm / 1024 * 1024 + chm % 1024;
    }
  }

  /** Conversely every surrogate pair is what the split produces for the code
      point it combines to. */
  lemma CombineThenSplit(high: int, low: int)
    requires IsHighSurrogate(high) && IsLowSurrogate(low)
    ensures 0x1_0000 <= Combine(high, low) <= 0x10_FFFF
    ensures Utf16Units(Combine(high, low)) == [high, low]
  {
    var chm := (high - 0xD800) * 1024 + (low - 0xDC00);
    assert Combine(high, low) - 0x1_0000 == chm;
    DivModUnique(chm, high - 0xD800, low - 0xDC00);
  }

  lemma DivModUnique(n: int, q: int, r: int)
    requires 0 <= r < 1024 && n == q * 1024 + r
    ensures n / 1024 == q && n % 1024 == r
  {
  }

  /** The decoder can return values up to 0x1FFFFF; above U+10FFFF the first
      unit is no longer a high surrogate. */
  lemma BeyondUnicodeIsNotAPair(ch: int)
    requires 0x11_0000 <= ch < 0x20_0000
    ensures !IsHighSurrogate(Utf16Units(ch)[0])
  {
  }

  /** `(width + 3) & 0xfffffffc`: the sum is an `int`, converted to a 32-bit
      unsigned value for the mask, and the result converted back. Clearing the
      two low bits of an unsigned value subtracts its remainder modulo 4. */
  function WidthCeil(width: int): (w: int)
    requires -0x8000_0000 <= width <= 0x7FFF_FFFF - 3
    ensures w % 4 == 0
    ensures width <= w < width + 4
  {
    var bits := (width + 3) % 0x1_0000_0000;
    var masked := bits - bits % 4;
    if masked >= 0x8000_0000 then masked - 0x1_0000_0000 else masked
  }

  /** For a non-negative width the result is the least multiple of 4 not below it. */
  lemma WidthCeilIsLeastMultiple(width: int, m: int)
    requires 0 <= width <= 0x7FFF_FFFF - 3
    requires m % 4 == 0 && m >= width
    ensures WidthCeil(width) <= m
    ensures WidthCeil(width) >= 0
  {
  }
}
