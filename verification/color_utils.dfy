/** The colour helpers of src/utils/colorUtils.ts: parsing `#rrggbb`
    strings into channels, encoding channels back, the hover colour, the
    contrasting text colour and the `rgba(…)` form. Numbers are exact reals;
    the luminance test, which uses `Math.pow`, is a parameter. */
module ColorUtils {
  import opened Wrappers

  datatype Rgb = Rgb(r: int, g: int, b: int)

  /** `rgba(r, g, b, a)` with its four components. */
  datatype Rgba = Rgba(r: int, g: int, b: int, alpha: real)

  /** `[0-9a-fA-F]`: what `[a-f\d]` matches under the `i` flag. */
  predicate IsHexDigit(c: char) {
    '0' <= c <= '9' || 'a' <= c <= 'f' || 'A' <= c <= 'F'
  }

  predicate IsLowerHexDigit(c: char) {
    '0' <= c <= '9' || 'a' <= c <= 'f'
  }

  predicate AllHexDigits(s: string) {
    forall i :: 0 <= i < |s| ==> IsHexDigit(s[i])
  }

  /** The language of `/^#?([a-f\d]{2})([a-f\d]{2})([a-f\d]{2})$/i`. */
  predicate IsHexColor(s: string) {
    || (|s| == 6 && AllHexDigits(s))
    || (|s| == 7 && s[0] == '#' && AllHexDigits(s[1..]))
  }

  function DigitValue(c: char): (v: nat)
    requires IsHexDigit(c)
    ensures v < 16
  {
    if '0' <= c <= '9' then c as nat - '0' as nat
    else if 'a' <= c <= 'f' then c as nat - 'a' as nat + 10
    else c as nat - 'A' as nat + 10
  }

  /** The digit of value `v`, lower case as `Number.prototype.toString(16)`
      writes it. */
  function HexChar(v: nat): (c: char)
    requires v < 16
    ensures IsLowerHexDigit(c) && IsHexDigit(c) && DigitValue(c) == v
  {
    if v < 10 then ('0' as nat + v) as char else ('a' as nat + v - 10) as char
  }

  /** The lower-case form of a hex digit. */
  function LowerDigit(c: char): (d: char)
    requires IsHexDigit(c)
    ensures IsLowerHexDigit(d) && DigitValue(d) == DigitValue(c)
  {
    HexChar(DigitValue(c))
  }

  /** `parseInt(pair, 16)` of two hex digits. */
  function PairValue(hi: char, lo: char): (v: nat)
    requires IsHexDigit(hi) && IsHexDigit(lo)
    ensures v < 256
  {
    16 * DigitValue(hi) + DigitValue(lo)
  }

  /** `hexToRGB`: an optional `#`, then three pairs of hex digits in either
      case; anything else throws. */
  function HexToRgb(hex: string): (res: Result<Rgb, string>)
    ensures res.Ok? <==> IsHexColor(hex)
    ensures res.Ok? ==> 0 <= res.value.r < 256 && 0 <= res.value.g < 256 && 0 <= res.value.b < 256
  {
    var digits := if |hex| > 0 && hex[0] == '#' then hex[1..] else hex;
    if |digits| != 6 || !AllHexDigits(digits) then Err("Invalid hex color")
    else Ok(Rgb(PairValue(digits[0], digits[1]), PairValue(digits[2], digits[3]), PairValue(digits[4], digits[5])))
  }

  /** `Math.round`: halves go up, towards positive infinity. */
  function Round(x: real): (n: int)
    ensures n as real - 0.5 <= x < n as real + 0.5
  {
    (x + 0.5).Floor
  }

  /** `n.toString(16)` for a natural number: no leading zeros. */
  function NatToHex(n: nat): (s: string)
    ensures |s| >= 1
    ensures forall i :: 0 <= i < |s| ==> IsLowerHexDigit(s[i])
    ensures |s| == 1 <==> n < 16
    ensures 16 <= n < 256 ==> s == [HexChar(n / 16), HexChar(n % 16)]
    decreases n
  {
    if n < 16 then [HexChar(n)] else NatToHex(n / 16) + [HexChar(n % 16)]
  }

  /** `n.toString(16)` for any integer: a minus sign before the digits of a
      negative number. */
  function IntToHex(n: int): string {
    if n < 0 then "-" + NatToHex(-n) else NatToHex(n)
  }

  /** One channel of `rgbToHex`: round, write in base 16, and pad a single
      character with a leading `0`. Nothing clamps: a negative or
      out-of-range value gives a sign or a third digit. */
  function Channel(x: real): string {
    var h := IntToHex(Round(x));
    if |h| == 1 then "0" + h else h
  }

  function RgbToHex(r: real, g: real, b: real): (s: string)
    ensures |s| >= 7 && s[0] == '#'
  {
    "#" + Channel(r) + Channel(g) + Channel(b)
  }

  /** A channel that rounds into [0, 255] is written as exactly two lower-case
      digits, the high one first. */
  lemma ChannelInRange(x: real)
    requires 0 <= Round(x) < 256
    ensures Channel(x) == [HexChar(Round(x) / 16), HexChar(Round(x) % 16)]
  {
    var n := Round(x);
    if n < 16 {
      assert n / 16 == 0 && n % 16 == n;
    }
  }

  /** For channels in [0, 255] `rgbToHex` gives `#` and six lower-case hex
      digits, two per channel. */
  lemma RgbToHexShape(r: real, g: real, b: real)
    requires 0 <= Round(r) < 256 && 0 <= Round(g) < 256 && 0 <= Round(b) < 256
    ensures var s := RgbToHex(r, g, b);
            && |s| == 7 && s[0] == '#'
            && (forall i :: 1 <= i < 7 ==> IsLowerHexDigit(s[i]))
            && IsHexColor(s)
  {
    ChannelInRange(r);
    ChannelInRange(g);
    ChannelInRange(b);
  }

  lemma PairOfChannel(x: real)
    requires 0 <= Round(x) < 256
    ensures var n := Round(x); PairValue(HexChar(n / 16), HexChar(n % 16)) == n
  {
  }

  /** Parsing what `rgbToHex` writes for channels in [0, 255] gives the
      rounded channels. */
  lemma RgbToHexParses(r: real, g: real, b: real)
    requires 0 <= Round(r) < 256 && 0 <= Round(g) < 256 && 0 <= Round(b) < 256
    ensures HexToRgb(RgbToHex(r, g, b)) == Ok(Rgb(Round(r), Round(g), Round(b)))
  {
    ChannelInRange(r);
    ChannelInRange(g);
    ChannelInRange(b);
    PairOfChannel(r);
    PairOfChannel(g);
    PairOfChannel(b);
    var nr, ng, nb := Round(r), Round(g), Round(b);
    var c0, c1, c2, c3, c4, c5 := HexChar(nr / 16), HexChar(nr % 16), HexChar(ng / 16), HexChar(ng % 16),
                                  HexChar(nb / 16), HexChar(nb % 16);
    SevenChars('#', c0, c1, c2, c3, c4, c5);
    ParseSevenChars(c0, c1, c2, c3, c4, c5);
  }

  /** Writing a colour out of its seven characters. */
  lemma SevenChars(c: char, c0: char, c1: char, c2: char, c3: char, c4: char, c5: char)
    ensures [c] + [c0, c1] + [c2, c3] + [c4, c5] == [c, c0, c1, c2, c3, c4, c5]
  {
  }

  /** `#` and six hex digits parse pair by pair. */
  lemma ParseSevenChars(c0: char, c1: char, c2: char, c3: char, c4: char, c5: char)
    requires IsHexDigit(c0) && IsHexDigit(c1) && IsHexDigit(c2) && IsHexDigit(c3) && IsHexDigit(c4) && IsHexDigit(c5)
    ensures HexToRgb(['#', c0, c1, c2, c3, c4, c5])
            == Ok(Rgb(PairValue(c0, c1), PairValue(c2, c3), PairValue(c4, c5)))
  {
    var s := ['#', c0, c1, c2, c3, c4, c5];
    assert s[1..] == [c0, c1, c2, c3, c4, c5];
  }

  /** Encoding integer channels in [0, 255] and parsing the result gives
      the channels back. */
  lemma RgbRoundTrip(r: int, g: int, b: int)
    requires 0 <= r < 256 && 0 <= g < 256 && 0 <= b < 256
    ensures HexToRgb(RgbToHex(r as real, g as real, b as real)) == Ok(Rgb(r, g, b))
  {
    assert Round(r as real) == r && Round(g as real) == g && Round(b as real) == b;
    RgbToHexParses(r as real, g as real, b as real);
  }

  lemma ChannelOfPair(hi: char, lo: char)
    requires IsHexDigit(hi) && IsHexDigit(lo)
    ensures Channel(PairValue(hi, lo) as real) == [LowerDigit(hi), LowerDigit(lo)]
  {
    var x := PairValue(hi, lo);
    assert Round(x as real) == x;
    ChannelInRange(x as real);
    assert x / 16 == DigitValue(hi) && x % 16 == DigitValue(lo);
  }

  /** The other direction: parsing a valid colour and encoding it again
      gives the same colour with a `#` and lower-case digits. */
  lemma HexRoundTrip(hex: string)
    requires IsHexColor(hex)
    ensures var c := HexToRgb(hex).value;
            var d := if hex[0] == '#' then hex[1..] else hex;
            RgbToHex(c.r as real, c.g as real, c.b as real)
            == ['#', LowerDigit(d[0]), LowerDigit(d[1]), LowerDigit(d[2]),
                LowerDigit(d[3]), LowerDigit(d[4]), LowerDigit(d[5])]
  {
    var d := if hex[0] == '#' then hex[1..] else hex;
    assert |d| == 6 && AllHexDigits(d);
    assert IsHexDigit(d[0]) && IsHexDigit(d[1]) && IsHexDigit(d[2]) && IsHexDigit(d[3]) && IsHexDigit(d[4]) && IsHexDigit(d[5]);
    var c := HexToRgb(hex).value;
    assert c == Rgb(PairValue(d[0], d[1]), PairValue(d[2], d[3]), PairValue(d[4], d[5]));
    ChannelOfPair(d[0], d[1]);
    ChannelOfPair(d[2], d[3]);
    ChannelOfPair(d[4], d[5]);
    var l0, l1, l2, l3, l4, l5 := LowerDigit(d[0]), LowerDigit(d[1]), LowerDigit(d[2]),
                                  LowerDigit(d[3]), LowerDigit(d[4]), LowerDigit(d[5]);
    assert RgbToHex(c.r as real, c.g as real, c.b as real) == "#" + [l0, l1] + [l2, l3] + [l4, l5];
    SevenChars('#', l0, l1, l2, l3, l4, l5);
  }

  /** `Math.min(255, Math.max(0, x))` */
  function Clamp(x: real): (y: real)
    ensures 0.0 <= y <= 255.0
    ensures 0.0 <= x <= 255.0 ==> y == x
    ensures x < 0.0 ==> y == 0.0
    ensures x > 255.0 ==> y == 255.0
  {
    if x < 0.0 then 0.0 else if x > 255.0 then 255.0 else x
  }

  /** `generateHoverColor`: scale every channel by 0.85 for a light colour
      and by 1.15 for a dark one, clamp, and encode. `isLight` stands for
      `getLuminance(r, g, b) > 0.5`. An invalid colour throws. */
  function GenerateHoverColor(base: string, isLight: Rgb -> bool): (res: Result<string, string>)
    ensures res.Ok? <==> IsHexColor(base)
    ensures res.Ok? ==> |res.value| == 7 && IsHexColor(res.value)
                        && forall i :: 1 <= i < 7 ==> IsLowerHexDigit(res.value[i])
  {
    match HexToRgb(base)
    case Err(e) => Err(e)
    case Ok(c) => Ok(Scaled(c, HoverFactor(isLight(c))))
  }

  /** The channels scaled by `f`, clamped to [0, 255] and encoded. */
  function Scaled(c: Rgb, f: real): (s: string)
    ensures |s| == 7 && IsHexColor(s) && forall i :: 1 <= i < 7 ==> IsLowerHexDigit(s[i])
  {
    var r, g, b := ScaleChannel(c.r, f), ScaleChannel(c.g, f), ScaleChannel(c.b, f);
    RgbToHexShape(r, g, b);
    RgbToHex(r, g, b)
  }

  /** The scale factor of `generateHoverColor`. */
  function HoverFactor(light: bool): real {
    if light then 0.85 else 1.15
  }

  /** Parsing the hover colour gives the scaled, clamped and rounded
      channels of the base colour. */
  lemma HoverColorChannels(base: string, isLight: Rgb -> bool)
    requires IsHexColor(base)
    ensures var c := HexToRgb(base).value;
            var f := HoverFactor(isLight(c));
            HexToRgb(GenerateHoverColor(base, isLight).value)
            == Ok(Rgb(Round(ScaleChannel(c.r, f)), Round(ScaleChannel(c.g, f)), Round(ScaleChannel(c.b, f))))
  {
    var c := HexToRgb(base).value;
    var f := HoverFactor(isLight(c));
    assert GenerateHoverColor(base, isLight) == Ok(Scaled(c, f));
    ScaledParses(c, f);
  }

  /** `Math.min(255, Math.max(0, v * f))` */
  function ScaleChannel(v: int, f: real): (y: real)
    ensures 0.0 <= y <= 255.0
  {
    Clamp(v as real * f)
  }

  lemma ScaledParses(c: Rgb, f: real)
    ensures HexToRgb(Scaled(c, f))
            == Ok(Rgb(Round(ScaleChannel(c.r, f)), Round(ScaleChannel(c.g, f)), Round(ScaleChannel(c.b, f))))
  {
    var x, y, z := ScaleChannel(c.r, f), ScaleChannel(c.g, f), ScaleChannel(c.b, f);
    assert Scaled(c, f) == RgbToHex(x, y, z);
    RgbToHexParses(x, y, z);
  }

  /** The hover colour moves every channel in one direction: never up for a
      light colour and never down for a dark one. */
  lemma HoverColorDirection(base: string, isLight: Rgb -> bool)
    requires IsHexColor(base)
    ensures var c := HexToRgb(base).value;
            var h := HexToRgb(GenerateHoverColor(base, isLight).value).value;
            && (isLight(c) ==> h.r <= c.r && h.g <= c.g && h.b <= c.b)
            && (!isLight(c) ==> h.r >= c.r && h.g >= c.g && h.b >= c.b)
  {
    var c := HexToRgb(base).value;
    var f := HoverFactor(isLight(c));
    HoverColorChannels(base, isLight);
    ScaledChannel(c.r, f);
    ScaledChannel(c.g, f);
    ScaledChannel(c.b, f);
  }

  lemma ScaledChannel(v: int, factor: real)
    requires 0 <= v < 256 && (factor == 0.85 || factor == 1.15)
    ensures 0 <= Round(ScaleChannel(v, factor)) < 256
    ensures factor < 1.0 ==> Round(ScaleChannel(v, factor)) <= v
    ensures factor > 1.0 ==> Round(ScaleChannel(v, factor)) >= v
  {
  }

  /** `getContrastTextColor`: black text on a light background, white text
      on a dark one; an invalid colour throws. */
  function ContrastTextColor(background: string, isLight: Rgb -> bool): (res: Result<string, string>)
    ensures res.Ok? <==> IsHexColor(background)
    ensures res.Ok? ==> res.value in {"#000000", "#ffffff"}
    ensures res.Ok? ==> (res.value == "#000000" <==> isLight(HexToRgb(background).value))
  {
    match HexToRgb(background)
    case Err(e) => Err(e)
    case Ok(c) => Ok(if isLight(c) then "#000000" else "#ffffff")
  }

  /** `adjustOpacity`: the parsed channels and the opacity, unchanged; an
      invalid colour throws. */
  function AdjustOpacity(color: string, opacity: real): (res: Result<Rgba, string>)
    ensures res.Ok? <==> IsHexColor(color)
    ensures res.Ok? ==> var c := HexToRgb(color).value;
                        res.value == Rgba(c.r, c.g, c.b, opacity)
  {
    match HexToRgb(color)
    case Err(e) => Err(e)
    case Ok(c) => Ok(Rgba(c.r, c.g, c.b, opacity))
  }
}
