/** `#rrggbb` colour strings: the encoder `rgbToHex` (built on `componentToHex`, which pads
    `Number.prototype.toString(16)` to two digits) and the decoder `hexToRgb`, which accepts
    an optional `#` and six hexadecimal digits of either case. */
module Hex {
  import opened Pixels

  datatype Option<T> = None | Some(value: T)

  /** A digit of `toString(16)`, which writes digits above nine as lower-case letters. */
  predicate IsLowerHexChar(ch: char) {
    '0' <= ch <= '9' || 'a' <= ch <= 'f'
  }

  function HexDigit(d: nat): (ch: char)
    requires d < 16
    ensures IsLowerHexChar(ch)
  {
    if d < 10 then ('0' as int + d) as char else ('a' as int + d - 10) as char
  }

  /** `n.toString(16)`: the shortest lower-case base-16 numeral of `n`. */
  function ToBase16(n: nat): (s: string)
    ensures |s| >= 1
    ensures forall i :: 0 <= i < |s| ==> IsLowerHexChar(s[i])
  {
    if n < 16 then [HexDigit(n)] else ToBase16(n / 16) + [HexDigit(n % 16)]
  }

  /** `componentToHex`: pads a single-digit numeral with a leading zero. */
  function ComponentToHex(c: nat): string {
    var hex := ToBase16(c);
    if |hex| == 1 then "0" + hex else hex
  }

  /** `rgbToHex`. */
  function RgbToHex(r: nat, g: nat, b: nat): string {
    "#" + ComponentToHex(r) + ComponentToHex(g) + ComponentToHex(b)
  }

  predicate IsHexChar(ch: char) {
    '0' <= ch <= '9' || 'a' <= ch <= 'f' || 'A' <= ch <= 'F'
  }

  function HexValue(ch: char): (v: nat)
    requires IsHexChar(ch)
    ensures v < 16
  {
    if '0' <= ch <= '9' then ch as int - '0' as int
    else if 'a' <= ch <= 'f' then ch as int - 'a' as int + 10
    else ch as int - 'A' as int + 10
  }

  /** The strings the pattern `/^#?([a-f\d]{2})([a-f\d]{2})([a-f\d]{2})$/i` matches. */
  ghost predicate MatchesHexPattern(s: string) {
    || (|s| == 6 && forall i :: 0 <= i < 6 ==> IsHexChar(s[i]))
    || (|s| == 7 && s[0] == '#' && forall i :: 1 <= i < 7 ==> IsHexChar(s[i]))
  }

  /** `parseInt` of a two-digit base-16 numeral. */
  function ParseHexByte(hi: char, lo: char): (v: Byte)
    requires IsHexChar(hi) && IsHexChar(lo)
  {
    16 * HexValue(hi) + HexValue(lo)
  }

  /** `hexToRgb`: `null` (None) unless the whole string matches the pattern. */
  function HexToRgb(s: string): (r: Option<Rgb>)
    ensures r.Some? <==> MatchesHexPattern(s)
    ensures r.Some? ==> IsByteColor(r.value)
  {
    var digits := if |s| == 7 && s[0] == '#' then s[1..] else s;
    if |digits| == 6 && forall i :: 0 <= i < 6 ==> IsHexChar(digits[i]) then
      Some(Rgb(ParseHexByte(digits[0], digits[1]),
               ParseHexByte(digits[2], digits[3]),
               ParseHexByte(digits[4], digits[5])))
    else
      None
  }

  /** For a channel value, `componentToHex` gives exactly its two base-16 digits. */
  lemma {:induction false} ComponentToHexDigits(c: Byte)
    ensures ComponentToHex(c) == [HexDigit(c / 16), HexDigit(c % 16)]
  {
    if c >= 16 {
      assert ToBase16(c / 16) == [HexDigit(c / 16)];
    }
  }

  lemma {:induction false} HexValueOfDigit(d: nat)
    requires d < 16
    ensures IsHexChar(HexDigit(d)) && HexValue(HexDigit(d)) == d
  {
  }

  /** `rgbToHex` of channel values is `#` followed by six lower-case hexadecimal digits. */
  lemma {:induction false} RgbToHexShape(r: Byte, g: Byte, b: Byte)
    ensures var s := RgbToHex(r, g, b);
      |s| == 7 && s[0] == '#' && forall i :: 1 <= i < 7 ==> IsLowerHexChar(s[i])
  {
    ComponentToHexDigits(r);
    ComponentToHexDigits(g);
    ComponentToHexDigits(b);
  }

  lemma {:induction false} ParseDigitPair(c: Byte)
    ensures IsHexChar(HexDigit(c / 16)) && IsHexChar(HexDigit(c % 16))
    ensures ParseHexByte(HexDigit(c / 16), HexDigit(c % 16)) == c
  {
    HexValueOfDigit(c / 16);
    HexValueOfDigit(c % 16);
  }

  /** How `hexToRgb` reads a string of the form `#` and six digits. */
  lemma {:induction false} DecodeWithHash(s: string)
    requires |s| == 7 && s[0] == '#' && forall i :: 1 <= i < 7 ==> IsHexChar(s[i])
    ensures HexToRgb(s) == Some(Rgb(ParseHexByte(s[1], s[2]), ParseHexByte(s[3], s[4]),
                                    ParseHexByte(s[5], s[6])))
  {
    var digits := s[1..];
    assert forall i :: 0 <= i < 6 ==> digits[i] == s[i + 1];
  }

  lemma {:induction false} RgbToHexDigits(r: Byte, g: Byte, b: Byte)
    ensures RgbToHex(r, g, b) == ['#', HexDigit(r / 16), HexDigit(r % 16), HexDigit(g / 16),
                                  HexDigit(g % 16), HexDigit(b / 16), HexDigit(b % 16)]
  {
    ComponentToHexDigits(r);
    ComponentToHexDigits(g);
    ComponentToHexDigits(b);
  }

  lemma {:induction false} DecodeDigits(r: Byte, g: Byte, b: Byte, s: string)
    requires s == ['#', HexDigit(r / 16), HexDigit(r % 16), HexDigit(g / 16),
                   HexDigit(g % 16), HexDigit(b / 16), HexDigit(b % 16)]
    ensures HexToRgb(s) == Some(Rgb(r, g, b))
  {
    ParseDigitPair(r);
    ParseDigitPair(g);
    ParseDigitPair(b);
    DecodeWithHash(s);
  }

  /** Decoding an encoded colour gives the colour back. */
  lemma {:induction false} HexRoundTrip(r: Byte, g: Byte, b: Byte)
    ensures HexToRgb(RgbToHex(r, g, b)) == Some(Rgb(r, g, b))
  {
    RgbToHexDigits(r, g, b);
    DecodeDigits(r, g, b, RgbToHex(r, g, b));
  }

  lemma {:induction false} DigitOfHexValue(ch: char)
    requires IsLowerHexChar(ch)
    ensures IsHexChar(ch) && HexDigit(HexValue(ch)) == ch
  {
  }

  lemma {:induction false} SplitParsed(hi: char, lo: char)
    requires IsLowerHexChar(hi) && IsLowerHexChar(lo)
    ensures IsHexChar(hi) && IsHexChar(lo)
    ensures ComponentToHex(ParseHexByte(hi, lo)) == [hi, lo]
  {
    DigitOfHexValue(hi);
    DigitOfHexValue(lo);
    var c := ParseHexByte(hi, lo);
    DivUnique(c, 16, HexValue(hi));
    ComponentToHexDigits(c);
  }

  lemma {:induction false} EncodeParsed(h1: char, l1: char, h2: char, l2: char, h3: char, l3: char)
    requires IsLowerHexChar(h1) && IsLowerHexChar(l1) && IsLowerHexChar(h2)
    requires IsLowerHexChar(l2) && IsLowerHexChar(h3) && IsLowerHexChar(l3)
    ensures IsHexChar(h1) && IsHexChar(l1) && IsHexChar(h2)
    ensures IsHexChar(l2) && IsHexChar(h3) && IsHexChar(l3)
    ensures RgbToHex(ParseHexByte(h1, l1), ParseHexByte(h2, l2), ParseHexByte(h3, l3))
         == ['#', h1, l1, h2, l2, h3, l3]
  {
    SplitParsed(h1, l1);
    SplitParsed(h2, l2);
    SplitParsed(h3, l3);
  }

  /** Encoding a decoded lower-case `#rrggbb` string gives the string back. */
  lemma {:induction false} HexRoundTripString(s: string)
    requires |s| == 7 && s[0] == '#' && forall i :: 1 <= i < 7 ==> IsLowerHexChar(s[i])
    ensures HexToRgb(s).Some?
    ensures var c := HexToRgb(s).value; RgbToHex(c.r, c.g, c.b) == s
  {
    EncodeParsed(s[1], s[2], s[3], s[4], s[5], s[6]);
    DecodeWithHash(s);
    var c := HexToRgb(s).value;
    assert c == Rgb(ParseHexByte(s[1], s[2]), ParseHexByte(s[3], s[4]), ParseHexByte(s[5], s[6]));
    assert RgbToHex(c.r, c.g, c.b) == ['#', s[1], s[2], s[3], s[4], s[5], s[6]];
    assert s == ['#', s[1], s[2], s[3], s[4], s[5], s[6]];
  }
}
