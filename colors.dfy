/** The colour helpers of chart-renderer.js: hexToRgb, getContrastColor and
    darkenColor, with the parts of JavaScript they rest on (parseInt with radix
    16, String.prototype.replace of the first '#', Math.round, and the decimal
    text of an integer). */
module Colors {

  import opened Values
  import opened JsText

  /** A Number as parseInt and Math.round can produce it here: an integer, or NaN. */
  datatype Num = Int(v: int) | NaN

  /** The three channels of a parsed colour. */
  datatype Rgb = Rgb(r: Num, g: Num, b: Num)

  const DarkText: string := "#1d1d1d"
  const LightText: string := "#ffffff"

  predicate IsHexDigit(c: char) {
    ('0' <= c <= '9') || ('a' <= c <= 'f') || ('A' <= c <= 'F')
  }

  function HexDigitValue(c: char): (d: nat)
    requires IsHexDigit(c)
    ensures d < 16
  {
    if '0' <= c <= '9' then c as int - '0' as int
    else if 'a' <= c <= 'f' then c as int - 'a' as int + 10
    else c as int - 'A' as int + 10
  }

  /** The value of a string of hex digits, most significant first. */
  function HexValue(digits: string): nat
    requires forall k :: 0 <= k < |digits| ==> IsHexDigit(digits[k])
  {
    if digits == [] then 0
    else HexValue(digits[..|digits| - 1]) * 16 + HexDigitValue(digits[|digits| - 1])
  }

  /** The length of the longest prefix of `s` made of hex digits. */
  function HexRun(s: string): (n: nat)
    ensures n <= |s|
    ensures forall k :: 0 <= k < n ==> IsHexDigit(s[k])
    ensures n < |s| ==> !IsHexDigit(s[n])
  {
    if s == [] || !IsHexDigit(s[0]) then 0 else 1 + HexRun(s[1..])
  }

  /** Every character of `t` is white space. */
  predicate Blank(t: string) {
    forall k :: 0 <= k < |t| ==> IsWhitespace(t[k])
  }

  /** String.prototype.trimStart. */
  function TrimStart(s: string): (r: string)
    ensures |r| <= |s|
    ensures r == s[|s| - |r|..]
    ensures r != [] ==> !IsWhitespace(r[0])
  {
    s[SkipWhitespace(s, 0)..]
  }

  /** trimStart removes white space only: everything it drops is blank. */
  lemma TrimStartRemovesBlank(s: string)
    ensures Blank(s[..|s| - |TrimStart(s)|])
  {
    var n := SkipWhitespace(s, 0);
    assert |s| - |TrimStart(s)| == n;
    assert forall k :: 0 <= k < n ==> s[..n][k] == s[k];
  }

  /** parseInt(s, 16): leading white space is skipped, then one sign, then an
      optional 0x or 0X; the longest run of hex digits that follows is the
      value, and no digit at all gives NaN. */
  function ParseIntHex(s: string): Num {
    var t := TrimStart(s);
    var negative := |t| > 0 && t[0] == '-';
    var u := if |t| > 0 && (t[0] == '-' || t[0] == '+') then t[1..] else t;
    var w := if |u| >= 2 && u[0] == '0' && (u[1] == 'x' || u[1] == 'X') then u[2..] else u;
    var digits := w[..HexRun(w)];
    if digits == [] then NaN
    else Int(if negative then -(HexValue(digits) as int) else HexValue(digits))
  }

  /** `hex.replace('#', '')`: only the first '#' is removed. */
  function StripFirstHash(s: string): (r: string)
    ensures '#' !in s ==> r == s
    ensures |r| == if '#' in s then |s| - 1 else |s|
  {
    if s == [] then []
    else if s[0] == '#' then s[1..]
    else [s[0]] + StripFirstHash(s[1..])
  }

  /** The '#' that `replace('#', '')` removes is the first one: the text before
      it and the text after it are kept. */
  lemma {:induction false} StripAt(s: string, i: nat)
    requires i < |s| && s[i] == '#'
    requires forall k :: 0 <= k < i ==> s[k] != '#'
    ensures StripFirstHash(s) == s[..i] + s[i + 1..]
  {
    if i > 0 {
      StripAt(s[1..], i - 1);
      assert s[1..][..i - 1] == s[1..i];
      assert s[1..][i..] == s[i + 1..];
      assert s[..i] == [s[0]] + s[1..i];
    }
  }

  /** hexToRgb: three characters are each doubled, six are read in pairs, any
      other length gives null. */
  function HexToRgb(hex: string): (c: Option<Rgb>)
    ensures c.None? <==> |StripFirstHash(hex)| != 3 && |StripFirstHash(hex)| != 6
  {
    var clean := StripFirstHash(hex);
    if |clean| == 3 then
      Some(Rgb(ParseIntHex([clean[0], clean[0]]),
               ParseIntHex([clean[1], clean[1]]),
               ParseIntHex([clean[2], clean[2]])))
    else if |clean| != 6 then None
    else
      Some(Rgb(ParseIntHex(clean[0..2]), ParseIntHex(clean[2..4]), ParseIntHex(clean[4..6])))
  }

  /** The perceived brightness 0.299 r + 0.587 g + 0.114 b. */
  function Luminance(r: int, g: int, b: int): real {
    0.299 * r as real + 0.587 * g as real + 0.114 * b as real
  }

  /** getContrastColor: dark text on a fill brighter than 150, light text
      otherwise; dark when hexToRgb returns null (a fill whose length without
      its first '#' is neither 3 nor 6), light when a channel is NaN, as for
      "red" (a NaN luminance is not above 150). */
  function ContrastColor(hex: string): (t: string)
    ensures t == DarkText || t == LightText
  {
    ContrastOf(HexToRgb(hex))
  }

  /** The text colour getContrastColor picks for the result of hexToRgb. */
  function ContrastOf(c: Option<Rgb>): (t: string)
    ensures t == DarkText || t == LightText
  {
    match c
    case None => DarkText
    case Some(Rgb(Int(r), Int(g), Int(b))) => if Luminance(r, g, b) > 150.0 then DarkText else LightText
    case Some(_) => LightText
  }

  /** A fill hexToRgb rejects gets dark text (the `!rgb` branch). */
  lemma ContrastOfRejected(hex: string)
    requires HexToRgb(hex).None?
    ensures ContrastColor(hex) == DarkText
  {
  }

  /** A fill with a channel parseInt reads as NaN gets light text: a NaN
      luminance is never above 150. */
  lemma ContrastOfNaN(hex: string, c: Rgb)
    requires HexToRgb(hex) == Some(c) && (c.r.NaN? || c.g.NaN? || c.b.NaN?)
    ensures ContrastColor(hex) == LightText
  {
  }

  /** The colour name "red" is no hex colour: its three characters double to
      "rr", "ee" and "dd", and "rr" is NaN, so the text is light. */
  lemma ContrastOfRed()
    ensures ContrastColor("red") == LightText
  {
    assert StripFirstHash("red") == "red";
    ParseRedChannel();
    var c := HexToRgb("red").value;
    assert c.r == NaN;
    ContrastOfNaN("red", c);
  }

  /** parseInt("rr", 16) finds no hex digit and is NaN. */
  lemma ParseRedChannel()
    ensures ParseIntHex("rr") == NaN
  {
    assert !IsWhitespace('r');
    assert SkipWhitespace("rr", 0) == 0;
    assert TrimStart("rr") == "rr";
    assert HexRun("rr") == 0;
  }

  /** One channel of darkenColor: Math.round(channel * (1 - amount)). */
  function Mix(c: Num, amount: real): Num {
    match c
    case NaN => NaN
    case Int(v) => Int(Round(v as real * (1.0 - amount)))
  }

  function DigitChar(d: nat): (c: char)
    requires d < 10
    ensures '0' <= c <= '9'
  {
    ('0' as int + d) as char
  }

  /** The decimal text of a natural number, without leading zeros. */
  function NatText(n: nat): (s: string)
    ensures |s| > 0
    ensures forall k :: 0 <= k < |s| ==> '0' <= s[k] <= '9'
  {
    if n < 10 then [DigitChar(n)] else NatText(n / 10) + [DigitChar(n % 10)]
  }

  /** String(n) for a Number that is an integer or NaN. */
  function NumText(n: Num): string {
    match n
    case NaN => "NaN"
    case Int(v) => if v < 0 then "-" + NatText(-v) else NatText(v)
  }

  /** The rgb() text darkenColor writes for a parsed colour: every channel
      mixed by (1 - amount), in decimal. */
  function RgbText(c: Rgb, amount: real): string {
    "rgb(" + NumText(Mix(c.r, amount)) + ", " + NumText(Mix(c.g, amount))
      + ", " + NumText(Mix(c.b, amount)) + ")"
  }

  /** The text written for a parsed colour is an rgb() string. */
  lemma RgbTextShape(c: Rgb, amount: real)
    ensures var r := RgbText(c, amount);
      |r| > 5 && r[..4] == "rgb(" && r[|r| - 1] == ')'
  {
    var channels := NumText(Mix(c.r, amount)) + ", " + NumText(Mix(c.g, amount))
      + ", " + NumText(Mix(c.b, amount));
    assert RgbText(c, amount) == "rgb(" + channels + ")";
    assert ("rgb(" + channels + ")")[..4] == "rgb(";
  }

  /** darkenColor: a hex colour with every channel scaled by (1 - amount), as
      an rgb() string; anything hexToRgb rejects is returned unchanged. */
  function DarkenColor(hex: string, amount: real): (r: string)
    ensures HexToRgb(hex).None? ==> r == hex
    ensures HexToRgb(hex).Some? ==> |r| > 5 && r[..4] == "rgb(" && r[|r| - 1] == ')'
  {
    match HexToRgb(hex)
    case None => hex
    case Some(rgb) =>
      RgbTextShape(rgb, amount);
      RgbText(rgb, amount)
  }

  // ---------------------------------------------------------------------
  // Properties
  // ---------------------------------------------------------------------

  /** The lower-case hex digit of a value below 16. */
  function HexChar(d: nat): (c: char)
    requires d < 16
    ensures IsHexDigit(c) && HexDigitValue(c) == d
  {
    if d < 10 then ('0' as int + d) as char else ('a' as int + d - 10) as char
  }

  /** The two-digit lower-case hex text of a channel value. */
  function Hex2(n: nat): (s: string)
    requires n < 256
  {
    [HexChar(n / 16), HexChar(n % 16)]
  }

  /** parseInt reads back the two-digit hex text of every channel value. */
  lemma ParseHex2(n: nat)
    requires n < 256
    ensures ParseIntHex(Hex2(n)) == Int(n)
  {
    var s := Hex2(n);
    assert !IsWhitespace(s[0]);
    assert TrimStart(s) == s;
    assert HexRun(s[1..]) == 1;
    assert HexRun(s) == 2;
    assert s[..2] == s;
    assert s[..1] == [s[0]];
    assert HexValue(s[..1]) == HexDigitValue(s[0]) by {
      assert s[..1][..0] == [];
    }
  }

  /** hexToRgb inverts the "#rrggbb" text of a colour. */
  lemma HexToRgbRoundTrip(r: nat, g: nat, b: nat)
    requires r < 256 && g < 256 && b < 256
    ensures HexToRgb("#" + Hex2(r) + Hex2(g) + Hex2(b)) == Some(Rgb(Int(r), Int(g), Int(b)))
  {
    var hex := "#" + Hex2(r) + Hex2(g) + Hex2(b);
    var clean := Hex2(r) + Hex2(g) + Hex2(b);
    assert StripFirstHash(hex) == clean;
    assert clean[0..2] == Hex2(r) && clean[2..4] == Hex2(g) && clean[4..6] == Hex2(b);
    ParseHex2(r);
    ParseHex2(g);
    ParseHex2(b);
  }

  /** The short form "#xyz" is read as "#xxyyzz". */
  lemma ShortFormDoubles(x: char, y: char, z: char)
    ensures HexToRgb(['#', x, y, z]) == HexToRgb(['#', x, x, y, y, z, z])
  {
    var long := [x, x, y, y, z, z];
    assert StripFirstHash(['#', x, y, z]) == [x, y, z];
    assert StripFirstHash(['#', x, x, y, y, z, z]) == long;
    assert long[0..2] == [x, x] && long[2..4] == [y, y] && long[4..6] == [z, z];
  }

  lemma ContrastOfRgb(hex: string, r: int, g: int, b: int)
    requires HexToRgb(hex) == Some(Rgb(Int(r), Int(g), Int(b)))
    ensures ContrastColor(hex) == if Luminance(r, g, b) > 150.0 then DarkText else LightText
  {
    ContrastOfChannelValues(r, g, b);
  }

  lemma ContrastOfChannelValues(r: int, g: int, b: int)
    ensures ContrastOf(Some(Rgb(Int(r), Int(g), Int(b)))) == if Luminance(r, g, b) > 150.0 then DarkText else LightText
  {
  }

  lemma LuminanceScaled(r: int, g: int, b: int)
    ensures Luminance(r, g, b) > 150.0 <==> 299 * r + 587 * g + 114 * b > 150000
  {
    var n := 299 * r + 587 * g + 114 * b;
    assert Luminance(r, g, b) == n as real / 1000.0;
  }

  /** The contrast choice as integer arithmetic: dark text exactly when
      299 r + 587 g + 114 b exceeds 150000. */
  lemma ContrastOfChannels(r: nat, g: nat, b: nat)
    requires r < 256 && g < 256 && b < 256
    ensures ContrastColor("#" + Hex2(r) + Hex2(g) + Hex2(b))
         == if 299 * r + 587 * g + 114 * b > 150000 then DarkText else LightText
  {
    HexToRgbRoundTrip(r, g, b);
    ContrastOfRgb("#" + Hex2(r) + Hex2(g) + Hex2(b), r, g, b);
    LuminanceScaled(r, g, b);
  }

  /** Both default fills of the renderer carry dark text. */
  lemma DefaultFillsTakeDarkText()
    ensures ContrastColor("#b9c2d0") == DarkText
    ensures ContrastColor("#dde6f6") == DarkText
  {
    FillText(0xb9, 0xc2, 0xd0, "#b9c2d0");
    FillText(0xdd, 0xe6, 0xf6, "#dde6f6");
  }

  lemma FillText(r: nat, g: nat, b: nat, hex: string)
    requires r < 256 && g < 256 && b < 256
    requires |hex| == 7 && hex[0] == '#'
    requires hex[1] == HexChar(r / 16) && hex[2] == HexChar(r % 16)
    requires hex[3] == HexChar(g / 16) && hex[4] == HexChar(g % 16)
    requires hex[5] == HexChar(b / 16) && hex[6] == HexChar(b % 16)
    ensures ContrastColor(hex) == if 299 * r + 587 * g + 114 * b > 150000 then DarkText else LightText
  {
    assert hex == "#" + Hex2(r) + Hex2(g) + Hex2(b);
    ContrastOfChannels(r, g, b);
  }

  /** Darkening by an amount in [0, 1] keeps a channel between 0 and its value. */
  lemma MixDarkens(v: nat, amount: real)
    requires 0.0 <= amount <= 1.0
    ensures Mix(Int(v), amount).Int?
    ensures 0 <= Mix(Int(v), amount).v <= v
  {
    ScaleBetween(v as real, 1.0 - amount);
  }

  /** Scaling a non-negative value by a factor in [0, 1] keeps it between 0
      and the value. */
  lemma ScaleBetween(a: real, t: real)
    requires 0.0 <= a && 0.0 <= t <= 1.0
    ensures 0.0 <= a * t <= a
  {
    assert a * t >= 0.0;
    assert a * (1.0 - t) >= 0.0;
    assert a * (1.0 - t) == a - a * t;
  }

  /** One channel of a hex colour darkened by an amount in [0, 1]: the
      Math.round of channel * (1 - amount), which lies between 0 and the
      channel. */
  function Darkened(v: nat, amount: real): (d: nat)
    requires 0.0 <= amount <= 1.0
    ensures d <= v
    ensures d as real - 0.5 <= v as real * (1.0 - amount) < d as real + 0.5
  {
    MixDarkens(v, amount);
    Mix(Int(v), amount).v
  }

  /** A darkened channel is written as the decimal text of Darkened. */
  lemma MixText(v: nat, amount: real)
    requires 0.0 <= amount <= 1.0
    ensures NumText(Mix(Int(v), amount)) == NatText(Darkened(v, amount))
  {
    MixDarkens(v, amount);
  }

  /** The rgb() text of three integer channels darkened by an amount in
      [0, 1]. */
  lemma RgbTextOfChannels(r: nat, g: nat, b: nat, amount: real)
    requires 0.0 <= amount <= 1.0
    ensures RgbText(Rgb(Int(r), Int(g), Int(b)), amount)
         == "rgb(" + NatText(Darkened(r, amount)) + ", " + NatText(Darkened(g, amount))
            + ", " + NatText(Darkened(b, amount)) + ")"
  {
    MixText(r, amount);
    MixText(g, amount);
    MixText(b, amount);
  }

  /** darkenColor on a parsed colour is the rgb() text of its channels. */
  lemma DarkenOfChannels(hex: string, c: Rgb, amount: real)
    requires HexToRgb(hex) == Some(c)
    ensures DarkenColor(hex, amount) == RgbText(c, amount)
  {
  }

  /** darkenColor on "#rrggbb" with an amount in [0, 1]: rgb() of each channel
      scaled by (1 - amount) and rounded, every one between 0 and the original
      channel. */
  lemma DarkenHexColor(r: nat, g: nat, b: nat, amount: real)
    requires r < 256 && g < 256 && b < 256
    requires 0.0 <= amount <= 1.0
    ensures DarkenColor("#" + Hex2(r) + Hex2(g) + Hex2(b), amount)
         == "rgb(" + NatText(Darkened(r, amount)) + ", " + NatText(Darkened(g, amount))
            + ", " + NatText(Darkened(b, amount)) + ")"
  {
    var hex := "#" + Hex2(r) + Hex2(g) + Hex2(b);
    HexToRgbRoundTrip(r, g, b);
    DarkenOfChannels(hex, Rgb(Int(r), Int(g), Int(b)), amount);
    RgbTextOfChannels(r, g, b, amount);
  }

  /** The decimal value of a string of digits, most significant first. */
  function DecimalValue(s: string): nat
    requires forall k :: 0 <= k < |s| ==> '0' <= s[k] <= '9'
  {
    if s == [] then 0 else DecimalValue(s[..|s| - 1]) * 10 + (s[|s| - 1] as int - '0' as int)
  }

  /** The decimal text written into rgb() reads back as the channel value. */
  lemma {:induction false} NatTextRoundTrip(n: nat)
    ensures DecimalValue(NatText(n)) == n
  {
    if n >= 10 {
      NatTextRoundTrip(n / 10);
      var s := NatText(n);
      assert s[..|s| - 1] == NatText(n / 10);
    }
  }
}
