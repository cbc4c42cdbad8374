/** Colour helpers of the text engine: the fixed table of the sixteen
    Minecraft colour codes, `hexToRgb`, `rgbToHex` and `interpolateColor`. */
module Colors {
  import opened Wrappers
  import opened JsString

  /** One 8-bit colour channel. */
  type Channel = x: int | 0 <= x < 256

  datatype Rgb = Rgb(r: Channel, g: Channel, b: Channel)

  // ---------------------------------------------------------------------------
  // The colour table
  // ---------------------------------------------------------------------------

  /** `minecraftColors['§' + c]`: the sixteen colour codes, lower case only. */
  function McColor(c: char): (hex: Option<string>)
    ensures hex.Some? <==> ('0' <= c <= '9' || 'a' <= c <= 'f')
  {
    match c
    case '0' => Some("#000000")
    case '1' => Some("#0000AA")
    case '2' => Some("#00AA00")
    case '3' => Some("#00AAAA")
    case '4' => Some("#AA0000")
    case '5' => Some("#AA00AA")
    case '6' => Some("#FFAA00")
    case '7' => Some("#AAAAAA")
    case '8' => Some("#555555")
    case '9' => Some("#5555FF")
    case 'a' => Some("#55FF55")
    case 'b' => Some("#55FFFF")
    case 'c' => Some("#FF5555")
    case 'd' => Some("#FF55FF")
    case 'e' => Some("#FFFF55")
    case 'f' => Some("#FFFFFF")
    case _ => None
  }

  /** The default text colour, also what the reset code restores. */
  const White: string := "#FFFFFF"

  // ---------------------------------------------------------------------------
  // Hex digits
  // ---------------------------------------------------------------------------

  /** `[a-f\d]` under the `i` flag: an ASCII hexadecimal digit of either case. */
  predicate IsHexDigit(c: char) {
    '0' <= c <= '9' || 'a' <= c <= 'f' || 'A' <= c <= 'F'
  }

  predicate IsLowerHexDigit(c: char) {
    '0' <= c <= '9' || 'a' <= c <= 'f'
  }

  predicate AllHexDigits(s: string) {
    forall k :: 0 <= k < |s| ==> IsHexDigit(s[k])
  }

  /** The value of one digit, as `parseInt(_, 16)` reads it. */
  function HexValue(c: char): (v: nat)
    requires IsHexDigit(c)
    ensures v < 16
  {
    if '0' <= c <= '9' then c as int - '0' as int
    else if 'a' <= c <= 'f' then c as int - 'a' as int + 10
    else c as int - 'A' as int + 10
  }

  /** The lower-case digit that `toString(16)` prints for a value below 16. */
  function LowerHexDigit(v: nat): (c: char)
    requires v < 16
    ensures IsLowerHexDigit(c) && HexValue(c) == v
  {
    if v < 10 then ('0' as int + v) as char else ('a' as int + v - 10) as char
  }

  // ---------------------------------------------------------------------------
  // hexToRgb
  // ---------------------------------------------------------------------------

  /** What the regex `^#?(..)(..)(..)$` offers to its groups: the input with
      an optional leading `#` removed. */
  function DigitsOf(hex: string): string {
    if |hex| > 0 && hex[0] == '#' then hex[1..] else hex
  }

  /** `hexToRgb`: three channels exactly when the input is an optional `#`
      followed by six hexadecimal digits of either case, otherwise `null`. */
  function HexToRgb(hex: string): (rgb: Option<Rgb>)
    ensures rgb.Some? <==>
      (|hex| == 6 && AllHexDigits(hex)) || (|hex| == 7 && hex[0] == '#' && AllHexDigits(hex[1..]))
  {
    var d := DigitsOf(hex);
    if |d| == 6 && AllHexDigits(d) then
      Some(Rgb(16 * HexValue(d[0]) + HexValue(d[1]),
               16 * HexValue(d[2]) + HexValue(d[3]),
               16 * HexValue(d[4]) + HexValue(d[5])))
    else
      None
  }

  // ---------------------------------------------------------------------------
  // rgbToHex
  // ---------------------------------------------------------------------------

  /** `n.toString(16)`: the lower-case base-16 numeral of `n`. */
  function ToHexString(n: nat): (s: string)
    ensures |s| >= 1
    decreases n
  {
    if n < 16 then [LowerHexDigit(n)] else ToHexString(n / 16) + [LowerHexDigit(n % 16)]
  }

  /** `#` followed by exactly six lower-case hexadecimal digits: the shape of
      every string `rgbToHex` builds. */
  predicate IsCanonicalHex(s: string) {
    |s| == 7 && s[0] == '#' && forall k :: 1 <= k < 7 ==> IsLowerHexDigit(s[k])
  }

  /** The two zero-padded digits of one channel. */
  function Hex2(x: Channel): string {
    [LowerHexDigit(x / 16), LowerHexDigit(x % 16)]
  }

  /** `rgbToHex`: `"#" + ((1 << 24) + (r << 16) + (g << 8) + b).toString(16).slice(1)`.
      The leading 1 of the 25-bit number keeps the zeros of a small red
      channel, and is sliced off again. */
  function RgbToHex(r: Channel, g: Channel, b: Channel): (hex: string)
    ensures IsCanonicalHex(hex)
    ensures hex == "#" + Hex2(r) + Hex2(g) + Hex2(b)
  {
    PaddedHex(r, g, b);
    "#" + ToHexString(0x100_0000 + r * 0x1_0000 + g * 0x100 + b)[1..]
  }

  lemma DivMod16(q: nat, d: nat)
    requires d < 16
    ensures (16 * q + d) / 16 == q && (16 * q + d) % 16 == d
  {
  }

  /** One more digit at the end of a numeral. */
  lemma ToHexStep(q: nat, d: nat)
    requires 1 <= q && d < 16
    ensures ToHexString(16 * q + d) == ToHexString(q) + [LowerHexDigit(d)]
  {
    DivMod16(q, d);
  }

  /** Two more digits at the end of a numeral: one channel. */
  lemma ToHexChannel(q: nat, x: Channel)
    requires 1 <= q
    ensures ToHexString(256 * q + x) == ToHexString(q) + Hex2(x)
  {
    var hi, lo := x / 16, x % 16;
    var q' := 16 * q + hi;
    var sq := ToHexString(q);
    assert ToHexString(q') == sq + [LowerHexDigit(hi)] by {
      ToHexStep(q, hi);
    }
    assert ToHexString(256 * q + x) == ToHexString(q') + [LowerHexDigit(lo)] by {
      assert 256 * q + x == 16 * q' + lo;
      ToHexStep(q', lo);
    }
    assert sq + [LowerHexDigit(hi)] + [LowerHexDigit(lo)] == sq + Hex2(x);
  }

  /** The numeral of the 25-bit number is a `1` followed by the six digits
      of the three channels. */
  lemma PaddedHex(r: Channel, g: Channel, b: Channel)
    ensures ToHexString(0x100_0000 + r * 0x1_0000 + g * 0x100 + b) == "1" + Hex2(r) + Hex2(g) + Hex2(b)
  {
    var qr := 256 * 1 + r;
    var qg := 256 * qr + g;
    var qb := 256 * qg + b;
    assert qb == 0x100_0000 + r * 0x1_0000 + g * 0x100 + b;
    var sr := ToHexString(qr);
    assert sr == "1" + Hex2(r) by {
      assert ToHexString(1) == "1";
      ToHexChannel(1, r);
    }
    var sg := ToHexString(qg);
    assert sg == sr + Hex2(g) by {
      ToHexChannel(qr, g);
    }
    assert ToHexString(qb) == sg + Hex2(b) by {
      ToHexChannel(qg, b);
    }
  }

  /** The two digits of a channel are hex digits that read back as it. */
  lemma Hex2Value(x: Channel)
    ensures IsHexDigit(Hex2(x)[0]) && IsHexDigit(Hex2(x)[1])
    ensures 16 * HexValue(Hex2(x)[0]) + HexValue(Hex2(x)[1]) == x
  {
  }

  /** Six digits printed from three channels read back as those channels. */
  lemma ReadPrintedDigits(d: string, r: Channel, g: Channel, b: Channel)
    requires d == Hex2(r) + Hex2(g) + Hex2(b)
    ensures |d| == 6 && AllHexDigits(d)
    ensures 16 * HexValue(d[0]) + HexValue(d[1]) == r
    ensures 16 * HexValue(d[2]) + HexValue(d[3]) == g
    ensures 16 * HexValue(d[4]) + HexValue(d[5]) == b
  {
    Hex2Value(r);
    Hex2Value(g);
    Hex2Value(b);
    assert d[0] == Hex2(r)[0] && d[1] == Hex2(r)[1];
    assert d[2] == Hex2(g)[0] && d[3] == Hex2(g)[1];
    assert d[4] == Hex2(b)[0] && d[5] == Hex2(b)[1];
  }

  /** `hexToRgb(rgbToHex(r, g, b))` gives back the three channels. */
  lemma {:induction false} RgbToHexRoundTrip(r: Channel, g: Channel, b: Channel)
    ensures HexToRgb(RgbToHex(r, g, b)) == Some(Rgb(r, g, b))
  {
    var hex := RgbToHex(r, g, b);
    var d := Hex2(r) + Hex2(g) + Hex2(b);
    assert DigitsOf(hex) == d by {
      assert hex == "#" + d;
    }
    ReadPrintedDigits(d, r, g, b);
  }

  /** The two digits `hi lo` read as a channel print back in lower case. */
  lemma Hex2OfDigits(hi: char, lo: char, x: Channel)
    requires IsHexDigit(hi) && IsHexDigit(lo) && x == 16 * HexValue(hi) + HexValue(lo)
    ensures Hex2(x) == [LowerChar(hi), LowerChar(lo)]
  {
    DivMod16(HexValue(hi), HexValue(lo));
  }

  /** The other direction: `rgbToHex` of what `hexToRgb` read is the input,
      with the `#` added if it was missing and the digits in lower case. */
  lemma {:induction false} HexToRgbRoundTrip(hex: string)
    requires HexToRgb(hex).Some?
    ensures var c := HexToRgb(hex).value;
      RgbToHex(c.r, c.g, c.b) == "#" + ToLowerAscii(DigitsOf(hex))
  {
    var d := DigitsOf(hex);
    var c := HexToRgb(hex).value;
    assert |d| == 6 && AllHexDigits(d);
    assert c == Rgb(16 * HexValue(d[0]) + HexValue(d[1]), 16 * HexValue(d[2]) + HexValue(d[3]),
                    16 * HexValue(d[4]) + HexValue(d[5]));
    var h2r, h2g, h2b := Hex2(c.r), Hex2(c.g), Hex2(c.b);
    assert h2r == [LowerChar(d[0]), LowerChar(d[1])] by {
      Hex2OfDigits(d[0], d[1], c.r);
    }
    assert h2g == [LowerChar(d[2]), LowerChar(d[3])] by {
      Hex2OfDigits(d[2], d[3], c.g);
    }
    assert h2b == [LowerChar(d[4]), LowerChar(d[5])] by {
      Hex2OfDigits(d[4], d[5], c.b);
    }
    assert RgbToHex(c.r, c.g, c.b) == "#" + h2r + h2g + h2b;
    var low := ToLowerAscii(d);
    assert low == h2r + h2g + h2b;
  }

  /** A canonical colour is the `rgbToHex` of its own channels: no other
      spelling of the same channels is canonical. */
  lemma CanonicalHexIsRgbToHex(c: string)
    requires IsCanonicalHex(c)
    ensures HexToRgb(c).Some?
    ensures var v := HexToRgb(c).value; RgbToHex(v.r, v.g, v.b) == c
  {
    assert AllHexDigits(c[1..]);
    HexToRgbRoundTrip(c);
    assert ToLowerAscii(DigitsOf(c)) == c[1..];
  }

  // ---------------------------------------------------------------------------
  // interpolateColor
  // ---------------------------------------------------------------------------

  /** `Math.round(x)`: the nearest integer, halves rounded up. */
  function Round(x: real): (n: int)
    ensures n as real - 0.5 <= x < n as real + 0.5
  {
    (x + 0.5).Floor
  }

  predicate Between(a: int, b: int, c: int) {
    (a <= c <= b) || (b <= c <= a)
  }

  /** Rounding a value between two integers stays between them. */
  lemma RoundBetween(x: real, lo: int, hi: int)
    requires lo as real <= x <= hi as real
    ensures lo <= Round(x) <= hi
  {
  }

  /** The end factors hit the end channels exactly. */
  lemma LerpEnds(a: int, b: int, factor: real)
    ensures factor == 0.0 ==> Round(a as real + factor * (b - a) as real) == a
    ensures factor == 1.0 ==> Round(a as real + factor * (b - a) as real) == b
  {
  }

  /** `a + factor * (b - a)` lies between `a` and `b`. */
  lemma LerpBetween(a: int, b: int, factor: real)
    requires 0.0 <= factor <= 1.0
    ensures a <= b ==> a as real <= a as real + factor * (b - a) as real <= b as real
    ensures b <= a ==> b as real <= a as real + factor * (b - a) as real <= a as real
  {
    var d := (b - a) as real;
    assert d == b as real - a as real;
    if a <= b {
      assert 0.0 <= factor * d <= d;
    } else {
      assert d <= factor * d <= 0.0;
    }
  }

  /** One channel of `interpolateColor`: `Math.round(a + factor * (b - a))`.
      It lies between the two end channels, and the end factors give the
      end channels exactly. */
  function LerpChannel(a: Channel, b: Channel, factor: real): (c: Channel)
    requires 0.0 <= factor <= 1.0
    ensures Between(a, b, c)
    ensures factor == 0.0 ==> c == a
    ensures factor == 1.0 ==> c == b
  {
    var x := a as real + factor * (b - a) as real;
    LerpBetween(a, b, factor);
    LerpEnds(a, b, factor);
    if a <= b then RoundBetween(x, a, b); Round(x) else RoundBetween(x, b, a); Round(x)
  }

  /** `interpolateColor(color1, color2, factor)`. When either colour is not
      a hex colour, `color1` comes back unchanged; otherwise the result is a
      canonical hex colour whose every channel lies between those of the two
      inputs, and the factors 0 and 1 give exactly the channels of `color1`
      and of `color2`. */
  function InterpolateColor(color1: string, color2: string, factor: real): (c: string)
    requires 0.0 <= factor <= 1.0
    ensures (HexToRgb(color1).None? || HexToRgb(color2).None?) ==> c == color1
    ensures HexToRgb(color1).Some? && HexToRgb(color2).Some? ==>
      var x, y := HexToRgb(color1).value, HexToRgb(color2).value;
      IsCanonicalHex(c) && HexToRgb(c).Some? &&
      Between(x.r, y.r, HexToRgb(c).value.r) &&
      Between(x.g, y.g, HexToRgb(c).value.g) &&
      Between(x.b, y.b, HexToRgb(c).value.b) &&
      (factor == 0.0 ==> HexToRgb(c) == Some(x)) &&
      (factor == 1.0 ==> HexToRgb(c) == Some(y))
  {
    match (HexToRgb(color1), HexToRgb(color2))
    case (Some(x), Some(y)) =>
      var r, g, b := LerpChannel(x.r, y.r, factor), LerpChannel(x.g, y.g, factor), LerpChannel(x.b, y.b, factor);
      RgbToHexRoundTrip(r, g, b);
      RgbToHex(r, g, b)
    case _ => color1
  }
}
