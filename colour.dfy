/** Colour values and the hex / packed-integer helpers of the converter:
    isValidHex, hexToRgb, rgbToHex, rgbToValue, valueToRgb, colorInvert and
    colorDistance. */
module Colour {

  /** One channel of an RGBA buffer (a Uint8ClampedArray cell). */
  type Byte = x: int | 0 <= x < 256

  /** A colour as hexToRgb returns it: three bytes, no alpha. */
  datatype Rgb = Rgb(r: Byte, g: Byte, b: Byte)

  /** A pixel as getPixelColor returns it. */
  datatype Rgba = Rgba(r: Byte, g: Byte, b: Byte, a: Byte)

  /** A colour whose channels are exact rationals (the dither buffer's cells). */
  datatype RColor = RColor(r: real, g: real, b: real)

  // ---------------------------------------------------------------------------
  // Hex digits

  predicate IsHexDigit(c: char) {
    '0' <= c <= '9' || 'a' <= c <= 'f' || 'A' <= c <= 'F'
  }

  predicate IsLowerHexDigit(c: char) {
    '0' <= c <= '9' || 'a' <= c <= 'f'
  }

  /** The value of one digit as parseInt(_, 16) reads it (either case). */
  function HexValue(c: char): (v: nat)
    requires IsHexDigit(c)
    ensures v < 16
  {
    if '0' <= c <= '9' then c as int - '0' as int
    else if 'a' <= c <= 'f' then c as int - 'a' as int + 10
    else c as int - 'A' as int + 10
  }

  /** The digit Number.prototype.toString(16) writes for n < 16 (lower case). */
  function HexDigit(n: nat): (c: char)
    requires n < 16
    ensures IsLowerHexDigit(c) && HexValue(c) == n
  {
    "0123456789abcdef"[n]
  }

  lemma {:induction false} HexDigitOfValue(c: char)
    requires IsLowerHexDigit(c)
    ensures HexDigit(HexValue(c)) == c
  {
  }

  lemma HexDigitInjective(m: nat, n: nat)
    requires m < 16 && n < 16 && HexDigit(m) == HexDigit(n)
    ensures m == n
  {
    assert HexValue(HexDigit(m)) == m;
  }

  // ---------------------------------------------------------------------------
  // isValidHex, hexToRgb, rgbToHex

  /** The regular expression /^#([0-9A-Fa-f]{6})$/. */
  predicate IsValidHex(s: string) {
    |s| == 7 && s[0] == '#' && forall i :: 1 <= i < 7 ==> IsHexDigit(s[i])
  }

  /** What hexToRgb needs: characters 1 to 6 are hex digits (the rest is never read). */
  predicate HasHexRgb(s: string) {
    |s| >= 7 && forall i :: 1 <= i < 7 ==> IsHexDigit(s[i])
  }

  /** parseInt(hi + lo, 16) for two hex digits. */
  function ParseHexPair(hi: char, lo: char): Byte
    requires IsHexDigit(hi) && IsHexDigit(lo)
  {
    HexValue(hi) * 16 + HexValue(lo)
  }

  /** hexToRgb: reads only characters 1..6, so "#00000000" is black. */
  function HexToRgb(s: string): Rgb
    requires HasHexRgb(s)
  {
    Rgb(ParseHexPair(s[1], s[2]), ParseHexPair(s[3], s[4]), ParseHexPair(s[5], s[6]))
  }

  /** Number.prototype.toString(16) for a non-negative integer. */
  function ToHexString(n: nat): string
    decreases n
  {
    if n < 16 then [HexDigit(n)] else ToHexString(n / 16) + [HexDigit(n % 16)]
  }

  /** String.prototype.padStart(2, '0'). */
  function PadStart2(s: string): string {
    if |s| < 2 then seq(2 - |s|, _ => '0') + s else s
  }

  /** The toHex helper of rgbToHex, written as its two digits, high nibble first. */
  function ByteToHex(c: Byte): (s: string)
    ensures |s| == 2 && IsLowerHexDigit(s[0]) && IsLowerHexDigit(s[1])
  {
    [HexDigit(c / 16), HexDigit(c % 16)]
  }

  /** toHex is c.toString(16).padStart(2, '0'): one digit gets a leading zero. */
  lemma ByteToHexIsPadded(c: Byte)
    ensures ByteToHex(c) == PadStart2(ToHexString(c))
  {
    if c < 16 {
      assert ToHexString(c) == [HexDigit(c)];
    } else {
      assert ToHexString(c / 16) == [HexDigit(c / 16)];
    }
  }

  /** rgbToHex */
  function RgbToHex(r: Byte, g: Byte, b: Byte): string {
    "#" + ByteToHex(r) + ByteToHex(g) + ByteToHex(b)
  }

  function RgbToHexOf(c: Rgb): string {
    RgbToHex(c.r, c.g, c.b)
  }

  lemma {:induction false} ParseByteToHex(c: Byte)
    ensures ParseHexPair(ByteToHex(c)[0], ByteToHex(c)[1]) == c
  {
    var hi, lo := ByteToHex(c)[0], ByteToHex(c)[1];
    assert HexValue(hi) == c / 16 && HexValue(lo) == c % 16;
  }

  /** rgbToHex always satisfies isValidHex, and hexToRgb inverts it. */
  lemma {:induction false} RgbToHexRoundTrip(r: Byte, g: Byte, b: Byte)
    ensures IsValidHex(RgbToHex(r, g, b))
    ensures HexToRgb(RgbToHex(r, g, b)) == Rgb(r, g, b)
  {
    var hr, hg, hb := ByteToHex(r), ByteToHex(g), ByteToHex(b);
    assert RgbToHex(r, g, b) == ['#', hr[0], hr[1], hg[0], hg[1], hb[0], hb[1]];
    ParseByteToHex(r);
    ParseByteToHex(g);
    ParseByteToHex(b);
  }

  lemma {:induction false} PairRoundTrip(hi: char, lo: char)
    requires IsLowerHexDigit(hi) && IsLowerHexDigit(lo)
    ensures ByteToHex(ParseHexPair(hi, lo)) == [hi, lo]
  {
    var c := ParseHexPair(hi, lo);
    assert c / 16 == HexValue(hi) && c % 16 == HexValue(lo);
    HexDigitOfValue(hi);
    HexDigitOfValue(lo);
  }

  lemma SplitSeven(s: string)
    requires |s| == 7 && s[0] == '#'
    ensures s == "#" + [s[1], s[2]] + [s[3], s[4]] + [s[5], s[6]]
  {
  }

  /** A valid lower-case hex string is what rgbToHex writes for the colour it denotes. */
  lemma {:induction false} HexToRgbRoundTrip(s: string)
    requires IsValidHex(s) && forall i :: 1 <= i < 7 ==> IsLowerHexDigit(s[i])
    ensures RgbToHexOf(HexToRgb(s)) == s
  {
    PairRoundTrip(s[1], s[2]);
    PairRoundTrip(s[3], s[4]);
    PairRoundTrip(s[5], s[6]);
    var c := HexToRgb(s);
    assert RgbToHexOf(c) == "#" + [s[1], s[2]] + [s[3], s[4]] + [s[5], s[6]];
    SplitSeven(s);
  }

  /** Two colours with the same rgbToHex string are the same colour. */
  lemma RgbToHexInjective(c: Rgb, d: Rgb)
    requires RgbToHexOf(c) == RgbToHexOf(d)
    ensures c == d
  {
    RgbToHexRoundTrip(c.r, c.g, c.b);
    RgbToHexRoundTrip(d.r, d.g, d.b);
  }

  // ---------------------------------------------------------------------------
  // rgbToValue, valueToRgb

  /** rgbToValue: (r << 16) | (g << 8) | b; on bytes the three fields do not overlap,
      so the bitwise or is a sum. */
  function RgbToValue(c: Rgb): (v: int)
    ensures 0 <= v < 0x100_0000
  {
    c.r * 0x1_0000 + c.g * 0x100 + c.b
  }

  /** valueToRgb: (v >> 16) & 0xFF, (v >> 8) & 0xFF, v & 0xFF, alpha 255. For an integer
      v these are bits 16..23, 8..15 and 0..7 of its 32-bit two's complement form,
      which floor division and a non-negative remainder give for every sign of v. */
  function ValueToRgb(v: int): Rgba {
    Rgba((v / 0x1_0000) % 0x100, (v / 0x100) % 0x100, v % 0x100, 255)
  }

  lemma {:induction false} ValueRoundTrip(c: Rgb)
    ensures ValueToRgb(RgbToValue(c)) == Rgba(c.r, c.g, c.b, 255)
  {
    var v := RgbToValue(c);
    assert v == (c.r * 0x100 + c.g) * 0x100 + c.b;
    assert v / 0x100 == c.r * 0x100 + c.g;
    assert v % 0x100 == c.b;
    assert v / 0x1_0000 == (v / 0x100) / 0x100;
    assert (v / 0x100) % 0x100 == c.g;
    assert (v / 0x100) / 0x100 == c.r;
  }

  lemma {:induction false} RgbValueRoundTrip(v: int)
    requires 0 <= v < 0x100_0000
    ensures var p := ValueToRgb(v); RgbToValue(Rgb(p.r, p.g, p.b)) == v
  {
    var p := ValueToRgb(v);
    var q := v / 0x100;
    assert v == q * 0x100 + p.b;
    assert v / 0x1_0000 == q / 0x100;
    assert q == (q / 0x100) * 0x100 + q % 0x100;
    assert q / 0x100 < 0x100;
  }

  // ---------------------------------------------------------------------------
  // colorInvert

  /** colorInvert: 255 minus each channel; alpha kept unless it is 0 (or absent), then 255. */
  function ColorInvert(c: Rgba): (d: Rgba)
    ensures d.a != 0
  {
    Rgba(255 - c.r, 255 - c.g, 255 - c.b, if c.a != 0 then c.a else 255)
  }

  lemma InvertInvolutive(c: Rgba)
    requires c.a != 0
    ensures ColorInvert(ColorInvert(c)) == c
  {
  }

  // ---------------------------------------------------------------------------
  // colorDistance, squared

  function ToReal(c: Rgb): RColor {
    RColor(c.r as real, c.g as real, c.b as real)
  }

  function PixelToReal(p: Rgba): RColor {
    RColor(p.r as real, p.g as real, p.b as real)
  }

  /** The square of colorDistance: alpha takes no part. Math.sqrt is monotone, so
      comparing squares orders colours as the source's distances do. */
  function DistanceSq(p: RColor, q: RColor): (d: real)
    ensures d >= 0.0
  {
    (p.r - q.r) * (p.r - q.r) + (p.g - q.g) * (p.g - q.g) + (p.b - q.b) * (p.b - q.b)
  }

  lemma DistanceToSelf(p: RColor)
    ensures DistanceSq(p, p) == 0.0
  {
  }

  lemma DistanceSymmetric(p: RColor, q: RColor)
    ensures DistanceSq(p, q) == DistanceSq(q, p)
  {
  }

  lemma InvertPreservesDistance(c: Rgba, d: Rgba)
    ensures DistanceSq(PixelToReal(ColorInvert(c)), PixelToReal(ColorInvert(d)))
         == DistanceSq(PixelToReal(c), PixelToReal(d))
  {
  }
}
