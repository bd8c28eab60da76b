/**
 * Intensity levels and colours: `getLevel` buckets a count, `getLevelColors`
 * blends a heat-map's colour toward the empty-cell grey in quarters, and
 * `hexToRgb` / `rgbToHex` read and write `#rrggbb`.
 */
module Colors {
  import opened Wrappers
  import opened DateKey

  /** `getLevel` on a count (`heatmap.data[key] || 0`, so a missing count is 0). */
  function Level(count: int): (level: int)
    ensures 0 <= level <= 4
  {
    if count <= 0 then 0
    else if count <= 1 then 1
    else if count <= 2 then 2
    else if count <= 3 then 3
    else 4
  }

  /** More clicks never give a lighter cell. */
  lemma LevelMono(a: int, b: int)
    requires a <= b
    ensures Level(a) <= Level(b)
  {
  }

  /** No record is level 0, one to three clicks are levels 1 to 3, four or more are level 4. */
  lemma LevelOfCount(count: int)
    ensures Level(count) == 0 <==> count <= 0
    ensures 1 <= count <= 3 ==> Level(count) == count
    ensures Level(count) == 4 <==> count >= 4
  {
  }

  /** Hexadecimal digits. */

  predicate IsHexChar(c: char) {
    '0' <= c <= '9' || 'a' <= c <= 'f' || 'A' <= c <= 'F'
  }

  predicate IsLowerHexChar(c: char) {
    '0' <= c <= '9' || 'a' <= c <= 'f'
  }

  function HexValue(c: char): (k: int)
    requires IsHexChar(c)
    ensures 0 <= k < 16
  {
    if c <= '9' then c as int - '0' as int
    else if c <= 'F' then c as int - 'A' as int + 10
    else c as int - 'a' as int + 10
  }

  /** A lower-case hexadecimal digit, as `Number.prototype.toString(16)` writes it. */
  function HexChar(k: int): (c: char)
    requires 0 <= k < 16
    ensures IsLowerHexChar(c) && HexValue(c) == k
  {
    if k < 10 then ('0' as int + k) as char else ('a' as int + k - 10) as char
  }

  /** The value of a lower-case hexadecimal digit. */
  lemma HexCharOfValue(c: char)
    requires IsLowerHexChar(c)
    ensures HexChar(HexValue(c)) == c
  {
  }

  predicate AllHex(s: string) {
    forall i :: 0 <= i < |s| ==> IsHexChar(s[i])
  }

  /** The number a string of hexadecimal digits denotes. */
  function HexNumber(s: string): (v: nat)
    requires AllHex(s)
  {
    if s == [] then 0 else HexNumber(s[..|s| - 1]) * 16 + HexValue(s[|s| - 1])
  }

  function HexPairValue(s: string): (v: int)
    requires |s| == 2 && AllHex(s)
    ensures 0 <= v <= 255
  {
    HexValue(s[0]) * 16 + HexValue(s[1])
  }

  /** The white space and line terminators `parseInt` skips before a number. */
  predicate IsJsSpace(c: char) {
    var k := c as int;
    (0x09 <= k <= 0x0D) || k == 0x20 || k == 0xA0 || k == 0x1680 || (0x2000 <= k <= 0x200A)
    || k == 0x2028 || k == 0x2029 || k == 0x202F || k == 0x205F || k == 0x3000 || k == 0xFEFF
  }

  /** Leading white space removed: what goes is white space, and what stays does not start with it. */
  function TrimStart(s: string): (r: string)
    ensures |r| <= |s| && r == s[|s| - |r|..]
    ensures forall i :: 0 <= i < |s| - |r| ==> IsJsSpace(s[i])
    ensures r == [] || !IsJsSpace(r[0])
  {
    if s != [] && IsJsSpace(s[0]) then TrimStart(s[1..]) else s
  }

  /** The longest prefix of `s` made of hexadecimal digits. */
  function HexPrefix(s: string): (p: string)
    ensures AllHex(p) && |p| <= |s| && p == s[..|p|]
    ensures |p| < |s| ==> !IsHexChar(s[|p|])
  {
    if s != [] && IsHexChar(s[0]) then [s[0]] + HexPrefix(s[1..]) else []
  }

  /** Unary minus, kept apart so that `ParseIntHex` unfolds without arithmetic. */
  function Negate(x: int): int {
    -x
  }

  /** What `parseInt(s, 16)` reads its digits from: `s` after its leading white space, one sign and a `0x`/`0X`. */
  function DigitText(s: string): string
  {
    var t := TrimStart(s);
    var u := if t != [] && (t[0] == '-' || t[0] == '+') then t[1..] else t;
    if |u| >= 2 && u[0] == '0' && (u[1] == 'x' || u[1] == 'X') then u[2..] else u
  }

  /**
   * `parseInt(s, 16)`: the longest run of hexadecimal digits at the start of
   * `DigitText(s)` is the number, negated after a `-`.  `None` stands for
   * `NaN` (no digit at all).
   */
  function ParseIntHex(s: string): Option<int> {
    var t := TrimStart(s);
    var digits := HexPrefix(DigitText(s));
    if digits == [] then None
    else if t != [] && t[0] == '-' then Some(Negate(HexNumber(digits)))
    else Some(HexNumber(digits))
  }

  /** `parseInt(s, 16)` is `NaN` exactly when no hexadecimal digit follows the white space, sign and `0x` it skips. */
  lemma ParseIntHexIsNaN(s: string)
    ensures ParseIntHex(s) == None <==> HexPrefix(DigitText(s)) == []
    ensures ParseIntHex(s) == None <==> (DigitText(s) == [] || !IsHexChar(DigitText(s)[0]))
  {
  }

  /** A hexadecimal digit is neither white space, nor a sign, nor the `x` of a `0x` prefix. */
  lemma HexIsPlain(c: char)
    requires IsHexChar(c)
    ensures !IsJsSpace(c) && c != '-' && c != '+' && c != 'x' && c != 'X'
  {
  }

  lemma {:induction false} HexPrefixOfDigits(s: string)
    requires AllHex(s)
    ensures HexPrefix(s) == s
  {
    if s != [] {
      HexPrefixOfDigits(s[1..]);
    }
  }

  /** On a string of hexadecimal digits `parseInt(s, 16)` is their value. */
  lemma ParseIntHexOfDigits(s: string)
    requires s != [] && AllHex(s)
    ensures ParseIntHex(s) == Some(HexNumber(s))
  {
    HexIsPlain(s[0]);
    assert TrimStart(s) == s;
    if |s| >= 2 {
      HexIsPlain(s[1]);
    }
    assert !(|s| >= 2 && s[0] == '0' && (s[1] == 'x' || s[1] == 'X'));
    HexPrefixOfDigits(s);
  }

  /** On two hexadecimal digits `parseInt(s, 16)` is their value. */
  lemma ParseIntHexPair(s: string)
    requires |s| == 2 && AllHex(s)
    ensures ParseIntHex(s) == Some(HexPairValue(s))
  {
    ParseIntHexOfDigits(s);
    HexNumberOfPair(s);
  }

  lemma HexNumberOfPair(s: string)
    requires |s| == 2 && AllHex(s)
    ensures HexNumber(s) == HexPairValue(s)
  {
    var first := s[..1];
    assert first[..0] == [] && first[0] == s[0];
    assert HexNumber(first) == HexValue(s[0]);
    assert s[..|s| - 1] == first;
  }

  /** The digits at the start of `d + r` are `d` when `r` does not go on with a digit. */
  lemma {:induction false} HexPrefixStops(d: string, r: string)
    requires AllHex(d) && (r == [] || !IsHexChar(r[0]))
    ensures HexPrefix(d + r) == d
  {
    if d != [] {
      assert (d + r)[1..] == d[1..] + r;
      HexPrefixStops(d[1..], r);
    }
  }

  /** Digits that do not open a `0x` prefix are read from where they stand, after at most one sign. */
  predicate StartsWithDigits(u: string) {
    u != [] && IsHexChar(u[0]) && !(|u| >= 2 && u[0] == '0' && (u[1] == 'x' || u[1] == 'X'))
  }

  lemma DigitTextPlain(u: string)
    requires StartsWithDigits(u)
    ensures TrimStart(u) == u && DigitText(u) == u
  {
    HexIsPlain(u[0]);
  }

  lemma DigitTextSigned(sign: char, u: string)
    requires sign == '-' || sign == '+'
    requires StartsWithDigits(u)
    ensures TrimStart([sign] + u) == [sign] + u && DigitText([sign] + u) == u
  {
    var s := [sign] + u;
    assert !IsJsSpace(s[0]);
    assert s[1..] == u;
  }

  /** `d + r` starts with the digits `d`: true unless `d` is a lone `0` that an `x` after it turns into a `0x` prefix. */
  lemma DigitsStart(d: string, r: string)
    requires d != [] && AllHex(d)
    requires !(|d| == 1 && d[0] == '0' && r != [] && (r[0] == 'x' || r[0] == 'X'))
    ensures StartsWithDigits(d + r)
  {
    if |d| >= 2 {
      HexIsPlain(d[1]);
    }
  }

  /**
   * `parseInt` reads only as far as the digits go: digits `d` followed by a
   * non-digit `r` are read as `d`, unless `d` is a lone `0` that, with an `x`
   * after it, opens a `0x` prefix instead.
   */
  lemma ParseIntHexStops(d: string, r: string)
    requires d != [] && AllHex(d) && (r == [] || !IsHexChar(r[0]))
    requires !(|d| == 1 && d[0] == '0' && r != [] && (r[0] == 'x' || r[0] == 'X'))
    ensures ParseIntHex(d + r) == Some(HexNumber(d))
  {
    DigitsStart(d, r);
    DigitTextPlain(d + r);
    HexIsPlain(d[0]);
    HexPrefixStops(d, r);
  }

  /** After one sign, digits that do not open a `0x` prefix are read as they stand. */
  lemma ParseIntHexAfterSign(u: string)
    requires StartsWithDigits(u)
    ensures ParseIntHex("-" + u) == Some(Negate(HexNumber(HexPrefix(u))))
    ensures ParseIntHex("+" + u) == Some(HexNumber(HexPrefix(u)))
  {
    DigitTextSigned('-', u);
    DigitTextSigned('+', u);
    HexIsPlain(u[0]);
  }

  lemma ConcatAssoc(a: string, b: string, c: string)
    ensures a + b + c == a + (b + c)
  {
  }

  /** One sign before the digits: `-` negates the value, `+` keeps it. */
  lemma ParseIntHexSigned(d: string, r: string)
    requires d != [] && AllHex(d) && (r == [] || !IsHexChar(r[0]))
    requires !(|d| == 1 && d[0] == '0' && r != [] && (r[0] == 'x' || r[0] == 'X'))
    ensures ParseIntHex("-" + d + r) == Some(Negate(HexNumber(d)))
    ensures ParseIntHex("+" + d + r) == Some(HexNumber(d))
  {
    var u := d + r;
    ConcatAssoc("-", d, r);
    ConcatAssoc("+", d, r);
    DigitsStart(d, r);
    HexPrefixStops(d, r);
    ParseIntHexAfterSign(u);
  }

  /** An instance of `ParseIntHexStops`: `parseInt("7z", 16)` is 7. */
  lemma ParseIntHexStopsAtNonDigit()
    ensures ParseIntHex("7z") == Some(7)
  {
    var d := "7";
    assert d[..0] == [] && HexNumber(d) == 7;
    ParseIntHexStops(d, "z");
    assert "7z" == d + "z";
  }

  /** An instance of `ParseIntHexSigned`: `parseInt("-f", 16)` is -15. */
  lemma ParseIntHexNegative()
    ensures ParseIntHex("-f") == Some(-15)
  {
    var d := "f";
    assert d[..0] == [] && HexNumber(d) == 15;
    ParseIntHexSigned(d, "");
    assert "-f" == "-" + d + "";
  }

  /** Instances of `ParseIntHexIsNaN`: "zz" and "" have no digit, so both are `NaN`. */
  lemma ParseIntHexNaN()
    ensures ParseIntHex("zz") == None
    ensures ParseIntHex("") == None
  {
    var s := "zz";
    assert !IsJsSpace(s[0]) && s[0] != '-' && s[0] != '+' && s[0] != '0';
    assert TrimStart(s) == s;
    assert DigitText(s) == s;
    ParseIntHexIsNaN(s);
    ParseIntHexIsNaN("");
  }

  /** Hex colours. */

  datatype Rgb = Rgb(r: int, g: int, b: int)

  /**
   * The test `/^#?[0-9a-fA-F]{6}$/` that the colour inputs apply, which is
   * also what `hexToRgb`'s `/^#?([a-f\d]{2})([a-f\d]{2})([a-f\d]{2})$/i` accepts.
   */
  predicate IsHexColor(s: string) {
    (|s| == 7 && s[0] == '#' && AllHex(s[1..])) || (|s| == 6 && AllHex(s))
  }

  /** The six digits of a hex colour, without its `#`. */
  function HexDigitsOf(s: string): (d: string)
    requires IsHexColor(s)
    ensures |d| == 6 && AllHex(d)
  {
    if |s| == 7 then s[1..] else s
  }

  /** The digits meant are the last six characters, the `#` only ever coming before them. */
  lemma HexDigitsAreLastSix(s: string)
    requires IsHexColor(s)
    ensures HexDigitsOf(s) == s[|s| - 6..]
    ensures |s| == 7 <==> s[0] == '#'
  {
  }

  /** `hexToRgb`: the three channels of a hex colour, black for anything else. */
  function HexToRgb(hex: string): (c: Rgb)
    ensures 0 <= c.r <= 255 && 0 <= c.g <= 255 && 0 <= c.b <= 255
    ensures !IsHexColor(hex) ==> c == Rgb(0, 0, 0)
  {
    if IsHexColor(hex) then
      var d := HexDigitsOf(hex);
      Rgb(HexPairValue(d[0..2]), HexPairValue(d[2..4]), HexPairValue(d[4..6]))
    else Rgb(0, 0, 0)
  }

  /** `Math.max(0, Math.min(255, x))` on a whole number (`Math.round` leaves it as it is). */
  function Clamp(x: int): (y: int)
    ensures 0 <= y <= 255
    ensures 0 <= x <= 255 ==> y == x
    ensures x < 0 ==> y == 0
    ensures x > 255 ==> y == 255
  {
    if x < 0 then 0 else if x > 255 then 255 else x
  }

  /** `x.toString(16)` for a natural number: lower-case digits without leading zeros. */
  function ToHex(x: nat): (s: string)
    ensures 1 <= |s|
    decreases x
  {
    if x < 16 then [HexChar(x)] else ToHex(x / 16) + [HexChar(x % 16)]
  }

  /** One channel of `rgbToHex`: clamped, in hexadecimal, padded to two digits. */
  function HexByte(x: int): string {
    PadStart2(ToHex(Clamp(x)))
  }

  /** A channel takes exactly two lower-case digits, whose value is the clamped channel. */
  lemma HexByteFacts(x: int)
    ensures var s := HexByte(x);
      |s| == 2 && IsLowerHexChar(s[0]) && IsLowerHexChar(s[1]) && HexPairValue(s) == Clamp(x)
  {
    var v := Clamp(x);
    if v >= 16 {
      assert ToHex(v) == ToHex(v / 16) + [HexChar(v % 16)];
      assert ToHex(v / 16) == [HexChar(v / 16)];
    }
  }

  /** `"#" + x + y + z` for three two-digit channels, taken apart again. */
  lemma SixDigits(x: string, y: string, z: string)
    requires |x| == 2 && |y| == 2 && |z| == 2
    ensures var s := "#" + x + y + z;
      && |s| == 7 && s[0] == '#' && s[1..] == x + y + z
      && (x + y + z)[0..2] == x && (x + y + z)[2..4] == y && (x + y + z)[4..6] == z
      && s[1] == x[0] && s[2] == x[1] && s[3] == y[0] && s[4] == y[1] && s[5] == z[0] && s[6] == z[1]
  {
  }

  /** `rgbToHex(r, g, b)` on whole-number channels. */
  function RgbToHex(r: int, g: int, b: int): (s: string)
    ensures |s| == 7 && s[0] == '#'
    ensures forall i :: 1 <= i < 7 ==> IsLowerHexChar(s[i])
  {
    HexByteFacts(r);
    HexByteFacts(g);
    HexByteFacts(b);
    SixDigits(HexByte(r), HexByte(g), HexByte(b));
    "#" + HexByte(r) + HexByte(g) + HexByte(b)
  }

  /** Writing a colour and reading it back gives the clamped channels. */
  lemma HexRoundTrip(r: int, g: int, b: int)
    ensures HexToRgb(RgbToHex(r, g, b)) == Rgb(Clamp(r), Clamp(g), Clamp(b))
  {
    var x, y, z := HexByte(r), HexByte(g), HexByte(b);
    HexByteFacts(r);
    HexByteFacts(g);
    HexByteFacts(b);
    SixDigits(x, y, z);
    var s := RgbToHex(r, g, b);
    assert s == "#" + x + y + z;
    assert forall i :: 0 <= i < 6 ==> s[1..][i] == s[i + 1];
    assert IsHexColor(s);
    assert HexDigitsOf(s) == x + y + z;
  }

  /** In particular channels in 0..255 come back unchanged. */
  lemma HexRoundTripInRange(r: int, g: int, b: int)
    requires 0 <= r <= 255 && 0 <= g <= 255 && 0 <= b <= 255
    ensures HexToRgb(RgbToHex(r, g, b)) == Rgb(r, g, b)
  {
    HexRoundTrip(r, g, b);
  }

  /** Two lower-case digits are what `HexByte` writes for their value. */
  lemma HexByteOfPair(s: string)
    requires |s| == 2 && IsLowerHexChar(s[0]) && IsLowerHexChar(s[1])
    ensures HexByte(HexPairValue(s)) == s
  {
    var hi, lo := HexValue(s[0]), HexValue(s[1]);
    var v := HexPairValue(s);
    assert v == hi * 16 + lo;
    HexCharOfValue(s[0]);
    HexCharOfValue(s[1]);
    DigitPair(hi, lo);
    assert Clamp(v) == v;
    assert HexByte(v) == PadStart2(ToHex(v));
    if hi > 0 {
      assert ToHex(hi) == [s[0]];
      assert ToHex(v) == ToHex(hi) + [HexChar(lo)];
      assert ToHex(v) == s;
    } else {
      assert ToHex(v) == [s[1]];
      assert PadStart2([s[1]]) == "0" + [s[1]];
    }
  }

  /** The two hexadecimal digits of `hi * 16 + lo`. */
  lemma DigitPair(hi: int, lo: int)
    requires 0 <= hi < 16 && 0 <= lo < 16
    ensures (hi * 16 + lo) / 16 == hi && (hi * 16 + lo) % 16 == lo
    ensures hi * 16 + lo < 16 <==> hi == 0
  {
  }

  /** A lower-case `#rrggbb` read and written again is the same string. */
  lemma RgbRoundTrip(s: string)
    requires |s| == 7 && s[0] == '#' && forall i :: 1 <= i < 7 ==> IsLowerHexChar(s[i])
    ensures var c := HexToRgb(s); RgbToHex(c.r, c.g, c.b) == s
  {
    var x, y, z := s[1..3], s[3..5], s[5..7];
    assert x[0] == s[1] && x[1] == s[2] && y[0] == s[3] && y[1] == s[4] && z[0] == s[5] && z[1] == s[6];
    assert IsHexColor(s);
    var d := HexDigitsOf(s);
    assert d[0..2] == x && d[2..4] == y && d[4..6] == z;
    HexByteOfPair(x);
    HexByteOfPair(y);
    HexByteOfPair(z);
    assert s == "#" + x + y + z;
  }

  /** `getLevelColors`. */

  /** The colour of an empty cell (level 0). */
  const EmptyColor: string := "#ebedf0"

  /** The empty grey is the colour every level blends from: (235, 237, 240). */
  lemma EmptyColorChannels()
    ensures HexToRgb(EmptyColor) == Rgb(235, 237, 240)
  {
    assert IsHexColor(EmptyColor);
    assert HexDigitsOf(EmptyColor) == "ebedf0";
  }

  /**
   * `Math.round(c * t + base * (1 - t))` with `t = i / 4`: the blend is the
   * exact quarter `(c * i + base * (4 - i)) / 4`, and rounding half up adds a
   * half before taking the floor.
   */
  function Blend(c: int, base: int, i: int): int {
    (c * i + base * (4 - i) + 2) / 4
  }

  /** The blend runs from `base` at 0 to `c` at 4 and stays between the two. */
  lemma BlendBounds(c: int, base: int, i: int)
    requires 0 <= i <= 4
    ensures i == 0 ==> Blend(c, base, i) == base
    ensures i == 4 ==> Blend(c, base, i) == c
    ensures c <= base ==> c <= Blend(c, base, i) <= base
    ensures base <= c ==> base <= Blend(c, base, i) <= c
  {
    assert i == 0 || i == 1 || i == 2 || i == 3 || i == 4;
  }

  /** Higher levels move further from `base` toward `c`. */
  lemma BlendMono(c: int, base: int, i: int, j: int)
    requires 0 <= i <= j <= 4
    ensures base <= c ==> Blend(c, base, i) <= Blend(c, base, j)
    ensures c <= base ==> Blend(c, base, j) <= Blend(c, base, i)
  {
    assert i == 0 || i == 1 || i == 2 || i == 3 || i == 4;
    assert j == 0 || j == 1 || j == 2 || j == 3 || j == 4;
  }

  /** `hex.slice(a, b)`: the characters from `a` to `b`, cut short at the end of the string. */
  function Slice(s: string, a: nat, b: nat): (r: string)
    requires a <= b
    ensures |r| <= b - a
  {
    if |s| <= a then [] else if |s| <= b then s[a..] else s[a..b]
  }

  /** Channel `k` (0 red, 1 green, 2 blue) of a colour as `getLevelColors` reads it; `None` is `NaN`. */
  function Channel(hex: string, k: nat): Option<int> {
    ParseIntHex(Slice(hex, 2 * k + 1, 2 * k + 3))
  }

  /** A channel blended to level `i`; arithmetic on `NaN` stays `NaN`. */
  function BlendChannel(c: Option<int>, base: int, i: int): Option<int> {
    match c
    case None => None
    case Some(v) => Some(Blend(v, base, i))
  }

  /** A number as string concatenation writes it. */
  function NumberText(x: Option<int>): string {
    match x
    case None => "NaN"
    case Some(v) => IntToString(v)
  }

  /** A CSS colour as `getLevelColors` writes one: a hex literal or `rgb(r,g,b)`. */
  datatype CssColor = HexLiteral(text: string) | RgbFunction(r: Option<int>, g: Option<int>, b: Option<int>)

  /** The text of a CSS colour. */
  function CssText(c: CssColor): string {
    match c
    case HexLiteral(text) => text
    case RgbFunction(r, g, b) => "rgb(" + NumberText(r) + "," + NumberText(g) + "," + NumberText(b) + ")"
  }

  /** The colour of level `i` for the parsed channels `r`, `g`, `b`. */
  function LevelColor(r: Option<int>, g: Option<int>, b: Option<int>, i: int): CssColor {
    RgbFunction(BlendChannel(r, 235, i), BlendChannel(g, 237, i), BlendChannel(b, 240, i))
  }

  /**
   * `getLevelColors(hex)`: the empty grey, then levels 1 to 4 blended a
   * quarter, a half, three quarters and all the way toward the colour.
   */
  method LevelColors(hex: string) returns (levels: seq<CssColor>)
    ensures |levels| == 5 && levels[0] == HexLiteral(EmptyColor)
    ensures forall i :: 1 <= i <= 4 ==> levels[i] == LevelColor(Channel(hex, 0), Channel(hex, 1), Channel(hex, 2), i)
  {
    var r, g, b := Channel(hex, 0), Channel(hex, 1), Channel(hex, 2);
    levels := BlendLevels(r, g, b);
  }

  /** The loop of `getLevelColors` once the channels are parsed. */
  method BlendLevels(r: Option<int>, g: Option<int>, b: Option<int>) returns (levels: seq<CssColor>)
    ensures |levels| == 5 && levels[0] == HexLiteral(EmptyColor)
    ensures forall i :: 1 <= i <= 4 ==> levels[i] == LevelColor(r, g, b, i)
  {
    levels := [HexLiteral(EmptyColor)];
    for i := 1 to 5
      invariant |levels| == i && levels[0] == HexLiteral(EmptyColor)
      invariant forall k :: 1 <= k < i ==> levels[k] == LevelColor(r, g, b, k)
    {
      var c := LevelColor(r, g, b, i);
      levels := levels + [c];
      assert levels[i] == c;
    }
  }

  /** On a `#rrggbb` colour the channels `getLevelColors` reads are those of `hexToRgb`. */
  lemma ChannelsOfHexColor(hex: string)
    requires IsHexColor(hex) && hex[0] == '#'
    ensures var c := HexToRgb(hex);
      Channel(hex, 0) == Some(c.r) && Channel(hex, 1) == Some(c.g) && Channel(hex, 2) == Some(c.b)
  {
    ChannelOfHexColor(hex, 0);
    ChannelOfHexColor(hex, 1);
    ChannelOfHexColor(hex, 2);
  }

  /** Channel `k` of a `#rrggbb` colour is the value of its `k`-th pair of digits. */
  lemma ChannelOfHexColor(hex: string, k: nat)
    requires IsHexColor(hex) && hex[0] == '#' && k < 3
    ensures var d := HexDigitsOf(hex);
      Channel(hex, k) == Some(HexPairValue(d[2 * k..2 * k + 2]))
  {
    var d := HexDigitsOf(hex);
    assert |hex| == 7 && d == hex[1..];
    var pair := d[2 * k..2 * k + 2];
    assert pair[0] == hex[2 * k + 1] && pair[1] == hex[2 * k + 2];
    assert Slice(hex, 2 * k + 1, 2 * k + 3) == pair;
    assert AllHex(pair);
    ParseIntHexPair(pair);
  }

  /**
   * For a `#rrggbb` colour each level is a proper colour: every channel lies
   * between the grey's and the colour's, level 4 is the colour itself.
   */
  lemma LevelColorOfHex(hex: string, i: int)
    requires IsHexColor(hex) && hex[0] == '#' && 1 <= i <= 4
    ensures var c := HexToRgb(hex);
      LevelColor(Channel(hex, 0), Channel(hex, 1), Channel(hex, 2), i)
        == RgbFunction(Some(Blend(c.r, 235, i)), Some(Blend(c.g, 237, i)), Some(Blend(c.b, 240, i)))
    ensures var c := HexToRgb(hex);
      0 <= Blend(c.r, 235, i) <= 255 && 0 <= Blend(c.g, 237, i) <= 255 && 0 <= Blend(c.b, 240, i) <= 255
    ensures i == 4 ==> var c := HexToRgb(hex);
      Blend(c.r, 235, i) == c.r && Blend(c.g, 237, i) == c.g && Blend(c.b, 240, i) == c.b
  {
    ChannelsOfHexColor(hex);
    var c := HexToRgb(hex);
    BlendBounds(c.r, 235, i);
    BlendBounds(c.g, 237, i);
    BlendBounds(c.b, 240, i);
  }

  /**
   * What the hex text field does with its trimmed input (`v.trim()` then
   * `/^#?[0-9a-fA-F]{6}$/`): a colour to apply, with a `#` put in front when
   * missing, or `None` to leave the colour as it is.
   */
  function HexInput(v: string): (color: Option<string>)
    ensures color.Some? <==> IsHexColor(Trim(v))
    ensures color.Some? ==> IsHexColor(color.value) && color.value[0] == '#'
    ensures color.Some? ==> color.value[1..] == HexDigitsOf(Trim(v))
  {
    var t := Trim(v);
    if IsHexColor(t) then Some(WithHash(t)) else None
  }

  /** A hex colour written with its `#`, put in front when missing. */
  function WithHash(t: string): (c: string)
    requires IsHexColor(t)
    ensures IsHexColor(c) && c[0] == '#' && c[1..] == HexDigitsOf(t)
  {
    if t[0] == '#' then t else "#" + t
  }

  /** `String.prototype.trim`: white space removed from both ends. */
  function Trim(s: string): (r: string)
    ensures |r| <= |s|
    ensures CutAtSpace(s, |s| - |TrimStart(s)|, r)
    ensures r == [] || (!IsJsSpace(r[0]) && !IsJsSpace(r[|r| - 1]))
  {
    var t := TrimStart(s);
    TrimBothEnds(s, t, TrimEnd(t));
    TrimEnd(t)
  }

  /** `r` is the part of `s` from index `a` on, with only white space before and after it. */
  predicate CutAtSpace(s: string, a: int, r: string) {
    && 0 <= a && a + |r| <= |s| && r == s[a..a + |r|]
    && (forall i :: 0 <= i < a ==> IsJsSpace(s[i]))
    && (forall i :: a + |r| <= i < |s| ==> IsJsSpace(s[i]))
  }

  /** A prefix `r` of a suffix `t` of `s`, each cut off at white space, is `s` with white space cut from both ends. */
  lemma TrimBothEnds(s: string, t: string, r: string)
    requires |t| <= |s| && t == s[|s| - |t|..] && forall i :: 0 <= i < |s| - |t| ==> IsJsSpace(s[i])
    requires |r| <= |t| && r == t[..|r|] && forall i :: |r| <= i < |t| ==> IsJsSpace(t[i])
    ensures CutAtSpace(s, |s| - |t|, r)
  {
    var a := |s| - |t|;
    forall i | a + |r| <= i < |s|
      ensures IsJsSpace(s[i])
    {
      assert s[i] == t[i - a];
    }
  }

  /** Trailing white space removed: what goes is white space, and what stays does not end with it. */
  function TrimEnd(s: string): (r: string)
    ensures |r| <= |s| && r == s[..|r|]
    ensures forall i :: |r| <= i < |s| ==> IsJsSpace(s[i])
    ensures r == [] || !IsJsSpace(r[|r| - 1])
    ensures s != [] && !IsJsSpace(s[0]) ==> r != [] && r[0] == s[0]
  {
    if s != [] && IsJsSpace(s[|s| - 1]) then TrimEnd(s[..|s| - 1]) else s
  }
}
