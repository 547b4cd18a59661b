/** The hexadecimal colour helpers of VNUtils, at the level of 8-bit channels. */
module ColorUtils {
  import opened Wrappers

  newtype byte = x: int | 0 <= x < 256

  /** Color32: four 8-bit channels. */
  datatype Color32 = Color32(r: byte, g: byte, b: byte, a: byte)

  const White := Color32(255, 255, 255, 255)

  /** What HexToColor does: returns a colour, or throws a FormatException from byte.Parse. */
  datatype HexResult = Color(color: Color32) | FormatException

  function HexDigitValue(c: char): (r: Option<nat>)
    ensures r.Some? <==> '0' <= c <= '9' || 'a' <= c <= 'f' || 'A' <= c <= 'F'
    ensures r.Some? ==> r.value < 16
  {
    if '0' <= c <= '9' then Some(c as int - '0' as int)
    else if 'a' <= c <= 'f' then Some(c as int - 'a' as int + 10)
    else if 'A' <= c <= 'F' then Some(c as int - 'A' as int + 10)
    else None
  }

  /** The white space .NET number parsing skips: U+0009 to U+000D and U+0020. */
  predicate IsWhite(c: char) {
    c == ' ' || '\t' <= c <= '\r'
  }

  /** byte.Parse(s, NumberStyles.HexNumber) on a two-character string: two hex digits, or one
      digit with leading or trailing white space (a trailing NUL is also accepted). */
  function ParseHexByte(s: string): (r: Option<byte>)
    requires |s| == 2
    ensures r.Some? ==> HexDigitValue(s[0]).Some? || HexDigitValue(s[1]).Some?
    ensures HexDigitValue(s[0]).Some? && HexDigitValue(s[1]).Some? ==>
      r == Some((16 * HexDigitValue(s[0]).value + HexDigitValue(s[1]).value) as byte)
  {
    match (HexDigitValue(s[0]), HexDigitValue(s[1]))
    case (Some(hi), Some(lo)) => Some((16 * hi + lo) as byte)
    case (None, Some(lo)) => if IsWhite(s[0]) then Some(lo as byte) else None
    case (Some(hi), None) => if IsWhite(s[1]) || s[1] == '\0' then Some(hi as byte) else None
    case (None, None) => None
  }

  /** The digits HexToColor parses: one leading '#' dropped, "FF" appended to six digits. */
  function HexDigits(hex: string): string {
    var h := if |hex| > 0 && hex[0] == '#' then hex[1..] else hex;
    if |h| == 6 then h + "FF" else h
  }

  /** VNUtils.HexToColor. */
  function HexToColor(hex: string): (r: HexResult)
    ensures |HexDigits(hex)| != 8 ==> r == Color(White)
    ensures r.Color? && |HexDigits(hex)| == 8 ==> var h := HexDigits(hex);
      && ParseHexByte(h[0..2]) == Some(r.color.r) && ParseHexByte(h[2..4]) == Some(r.color.g)
      && ParseHexByte(h[4..6]) == Some(r.color.b) && ParseHexByte(h[6..8]) == Some(r.color.a)
    ensures r.FormatException? <==>
      (|HexDigits(hex)| == 8 && exists k :: 0 <= k < 4 && ParseHexByte(HexDigits(hex)[2 * k..2 * k + 2]).None?)
  {
    var h := HexDigits(hex);
    if |h| != 8 then Color(White)
    else
      var r, g, b, a := ParseHexByte(h[0..2]), ParseHexByte(h[2..4]), ParseHexByte(h[4..6]), ParseHexByte(h[6..8]);
      if r.Some? && g.Some? && b.Some? && a.Some? then Color(Color32(r.value, g.value, b.value, a.value))
      else
        assert r.None? ==> ParseHexByte(h[2 * 0..2 * 0 + 2]).None?;
        assert g.None? ==> ParseHexByte(h[2 * 1..2 * 1 + 2]).None?;
        assert b.None? ==> ParseHexByte(h[2 * 2..2 * 2 + 2]).None?;
        assert a.None? ==> ParseHexByte(h[2 * 3..2 * 3 + 2]).None?;
        FormatException
  }

  /** The upper-case digit of a value below 16, as the X2 format writes it. */
  function HexDigit(d: nat): (c: char)
    requires d < 16
    ensures HexDigitValue(c) == Some(d)
    ensures '0' <= c <= '9' || 'A' <= c <= 'F'
  {
    if d < 10 then ('0' as int + d) as char else ('A' as int + d - 10) as char
  }

  /** A channel in the X2 format: two upper-case digits, high first. */
  function Hex2(x: byte): (s: string)
    ensures |s| == 2 && ParseHexByte(s) == Some(x)
  {
    [HexDigit(x as int / 16), HexDigit(x as int % 16)]
  }

  predicate IsUpperHexDigit(c: char) {
    '0' <= c <= '9' || 'A' <= c <= 'F'
  }

  /** VNUtils.ColorToHex on the 8-bit channels: '#' and eight upper-case digits. */
  function ColorToHex(c: Color32): (s: string)
    ensures |s| == 9 && s[0] == '#'
    ensures forall i :: 1 <= i < 9 ==> IsUpperHexDigit(s[i])
  {
    "#" + Hex2(c.r) + Hex2(c.g) + Hex2(c.b) + Hex2(c.a)
  }

  /** Formatting a colour and parsing it back gives the colour. */
  lemma HexRoundTrip(c: Color32)
    ensures HexToColor(ColorToHex(c)) == Color(c)
  {
    var s := ColorToHex(c);
    var h := HexDigits(s);
    assert h == s[1..];
    assert h == Hex2(c.r) + Hex2(c.g) + Hex2(c.b) + Hex2(c.a);
    assert h[0..2] == Hex2(c.r);
    assert h[2..4] == Hex2(c.g);
    assert h[4..6] == Hex2(c.b);
    assert h[6..8] == Hex2(c.a);
  }

  /** Six digits, with or without a leading '#', are read with full alpha. */
  lemma SixDigitsAreOpaque(hex: string)
    requires var d := if |hex| > 0 && hex[0] == '#' then hex[1..] else hex;
      |d| == 6 && forall i :: 0 <= i < 6 ==> HexDigitValue(d[i]).Some?
    ensures HexToColor(hex).Color? && HexToColor(hex).color.a == 255
  {
    var d := if |hex| > 0 && hex[0] == '#' then hex[1..] else hex;
    var h := HexDigits(hex);
    assert h == d + "FF";
    assert forall i :: 0 <= i < 8 ==> HexDigitValue(h[i]).Some?;
    assert h[6..8] == "FF";
  }

  /** A character that is not a hex digit, not white space and not NUL makes the parse throw. */
  lemma NonHexCharacterThrows(hex: string, i: nat)
    requires |HexDigits(hex)| == 8 && i < 8
    requires var c := HexDigits(hex)[i]; HexDigitValue(c).None? && !IsWhite(c) && c != '\0'
    ensures HexToColor(hex) == FormatException
  {
    var h := HexDigits(hex);
    var k := i / 2;
    assert h[2 * k..2 * k + 2][i % 2] == h[i];
  }
}
