/** The colour conversion helpers of the picker: rgbToHex with its inner toHex,
    rgbToCmyk with its inner format, and the "rgb(...)" text updateColorInfo
    builds. Channels are whole numbers in [0, 255], as canvas pixel read-back
    yields them. */
module ColorConvert {
  import opened Text

  /** One colour channel. */
  type Byte = x: int | 0 <= x < 256

  // ---------------------------------------------------------------------------
  // rgbToHex

  /** The lower-case base-16 digit JavaScript writes for d. */
  function LowerHexDigit(d: nat): char
    requires d < 16
  {
    if d < 10 then ('0' as int + d) as char else ('a' as int + d - 10) as char
  }

  /** The base-16 text JavaScript writes for a whole number c: lower-case
      digits, most significant first, no leading zeros. */
  function Base16(c: nat): (s: string)
    ensures 1 <= |s|
    ensures |s| == 1 <==> c < 16
    ensures c < 256 ==> |s| <= 2
  {
    if c < 16 then [LowerHexDigit(c)] else Base16(c / 16) + [LowerHexDigit(c % 16)]
  }

  /** Taking a slice from two before the end: the last two characters, or all
      of a shorter string. */
  function SliceLastTwo(s: string): (t: string)
    ensures |t| == if |s| < 2 then |s| else 2
  {
    if |s| <= 2 then s else s[|s| - 2..]
  }

  /** The inner helper of the hex conversion: the base-16 digits of c, padded
      with a zero in front and cut to the last two characters. */
  function ToHex(c: Byte): (s: string)
    ensures |s| == 2
  {
    SliceLastTwo("0" + Base16(c))
  }

  /** Upper-casing one character (only ASCII letters occur here). */
  function UpperChar(ch: char): char {
    if 'a' <= ch <= 'z' then (ch as int - 32) as char else ch
  }

  /** Upper-casing a string: same length, no lower-case letter left, each
      lower-case letter turned into its capital, every other character kept. */
  function ToUpperCase(s: string): (u: string)
    ensures |u| == |s|
    ensures forall i :: 0 <= i < |u| ==> !('a' <= u[i] <= 'z')
    ensures forall i :: 0 <= i < |s| && 'a' <= s[i] <= 'z' ==> u[i] as int - 'A' as int == s[i] as int - 'a' as int
    ensures forall i :: 0 <= i < |s| && !('a' <= s[i] <= 'z') ==> u[i] == s[i]
  {
    seq(|s|, i requires 0 <= i < |s| => UpperChar(s[i]))
  }

  /** The hex text of a colour: a '#' and the padded digits of the three
      channels, the whole upper-cased. */
  function RgbToHex(r: Byte, g: Byte, b: Byte): string {
    ToUpperCase("#" + ToHex(r) + ToHex(g) + ToHex(b))
  }

  /** toHex zero-pads: a channel below 16 gets a '0' in front of its one digit,
      a larger one is written as its own two base-16 digits; either way the two
      characters are the digits of c / 16 and c % 16. */
  lemma ToHexPads(c: Byte)
    ensures |ToHex(c)| == 2
    ensures c < 16 ==> |Base16(c)| == 1 && ToHex(c) == "0" + Base16(c)
    ensures 16 <= c ==> |Base16(c)| == 2 && ToHex(c) == Base16(c)
    ensures ToHex(c) == [LowerHexDigit(c / 16), LowerHexDigit(c % 16)]
  {
    if c < 16 {
      assert Base16(c) == [LowerHexDigit(c)];
      assert LowerHexDigit(0) == '0';
    } else {
      assert Base16(c / 16) == [LowerHexDigit(c / 16)];
      assert Base16(c) == [LowerHexDigit(c / 16), LowerHexDigit(c % 16)];
      var s := "0" + Base16(c);
      assert s[|s| - 2..] == Base16(c);
    }
  }

  predicate IsUpperHexDigit(ch: char) {
    '0' <= ch <= '9' || 'A' <= ch <= 'F'
  }

  function HexDigitValue(ch: char): (v: nat)
    requires IsUpperHexDigit(ch)
    ensures v < 16
  {
    if ch <= '9' then ch as int - '0' as int else ch as int - 'A' as int + 10
  }

  /** Reads "#RRGGBB" with upper-case hex digits; None for any other string. */
  function ParseHex(s: string): Option<(Byte, Byte, Byte)> {
    if |s| == 7 && s[0] == '#' && forall i :: 1 <= i < 7 ==> IsUpperHexDigit(s[i]) then
      Some((16 * HexDigitValue(s[1]) + HexDigitValue(s[2]),
            16 * HexDigitValue(s[3]) + HexDigitValue(s[4]),
            16 * HexDigitValue(s[5]) + HexDigitValue(s[6])))
    else
      None
  }

  /** Upper-casing a lower-case base-16 digit gives an upper-case hex digit worth the same. */
  lemma UpperDigitValue(d: nat)
    requires d < 16
    ensures IsUpperHexDigit(UpperChar(LowerHexDigit(d)))
    ensures HexDigitValue(UpperChar(LowerHexDigit(d))) == d
  {
  }

  /** Each upper-case hex digit is the upper-cased base-16 digit of its value. */
  lemma DigitOfValue(ch: char)
    requires IsUpperHexDigit(ch)
    ensures UpperChar(LowerHexDigit(HexDigitValue(ch))) == ch
  {
  }

  /** The result of rgbToHex, character by character. */
  lemma RgbToHexChars(r: Byte, g: Byte, b: Byte)
    ensures var s := RgbToHex(r, g, b);
      && |s| == 7 && s[0] == '#'
      && s[1] == UpperChar(LowerHexDigit(r / 16)) && s[2] == UpperChar(LowerHexDigit(r % 16))
      && s[3] == UpperChar(LowerHexDigit(g / 16)) && s[4] == UpperChar(LowerHexDigit(g % 16))
      && s[5] == UpperChar(LowerHexDigit(b / 16)) && s[6] == UpperChar(LowerHexDigit(b % 16))
  {
    ToHexPads(r);
    ToHexPads(g);
    ToHexPads(b);
  }

  /** rgbToHex writes '#' and six upper-case hex digits. */
  lemma RgbToHexShape(r: Byte, g: Byte, b: Byte)
    ensures var s := RgbToHex(r, g, b);
      |s| == 7 && s[0] == '#' && forall i :: 1 <= i < 7 ==> IsUpperHexDigit(s[i])
  {
    RgbToHexChars(r, g, b);
    UpperDigitValue(r / 16);
    UpperDigitValue(r % 16);
    UpperDigitValue(g / 16);
    UpperDigitValue(g % 16);
    UpperDigitValue(b / 16);
    UpperDigitValue(b % 16);
  }

  /** Decoding the digit pairs of rgbToHex's result gives back the three channels. */
  lemma RgbToHexRoundTrip(r: Byte, g: Byte, b: Byte)
    ensures ParseHex(RgbToHex(r, g, b)) == Some((r, g, b))
  {
    RgbToHexShape(r, g, b);
    RgbToHexChars(r, g, b);
    UpperDigitValue(r / 16);
    UpperDigitValue(r % 16);
    UpperDigitValue(g / 16);
    UpperDigitValue(g % 16);
    UpperDigitValue(b / 16);
    UpperDigitValue(b % 16);
  }

  /** A pair of upper-case digits, read as a channel and written back by toHex, is unchanged. */
  lemma PairDigits(hi: char, lo: char)
    requires IsUpperHexDigit(hi) && IsUpperHexDigit(lo)
    ensures var v := 16 * HexDigitValue(hi) + HexDigitValue(lo);
      UpperChar(LowerHexDigit(v / 16)) == hi && UpperChar(LowerHexDigit(v % 16)) == lo
  {
    DigitOfValue(hi);
    DigitOfValue(lo);
  }

  /** Every "#RRGGBB" string with upper-case digits is rgbToHex of the channels it
      decodes to: rgbToHex maps the RGB cube onto exactly these strings. */
  lemma ParseHexInverse(s: string)
    requires ParseHex(s).Some?
    ensures var (r, g, b) := ParseHex(s).value; RgbToHex(r, g, b) == s
  {
    var (r, g, b) := ParseHex(s).value;
    RgbToHexChars(r, g, b);
    assert IsUpperHexDigit(s[1]) && IsUpperHexDigit(s[2]);
    assert IsUpperHexDigit(s[3]) && IsUpperHexDigit(s[4]);
    assert IsUpperHexDigit(s[5]) && IsUpperHexDigit(s[6]);
    PairDigits(s[1], s[2]);
    PairDigits(s[3], s[4]);
    PairDigits(s[5], s[6]);
    assert s == [s[0], s[1], s[2], s[3], s[4], s[5], s[6]];
    var t := RgbToHex(r, g, b);
    assert t == [t[0], t[1], t[2], t[3], t[4], t[5], t[6]];
  }

  /** Two different colours never get the same hex text. */
  lemma RgbToHexInjective(r1: Byte, g1: Byte, b1: Byte, r2: Byte, g2: Byte, b2: Byte)
    requires RgbToHex(r1, g1, b1) == RgbToHex(r2, g2, b2)
    ensures r1 == r2 && g1 == g2 && b1 == b2
  {
    RgbToHexRoundTrip(r1, g1, b1);
    RgbToHexRoundTrip(r2, g2, b2);
  }

  lemma RgbToHexExample()
    ensures RgbToHex(255, 0, 128) == "#FF0080"
  {
    RgbToHexChars(255, 0, 128);
  }

  // ---------------------------------------------------------------------------
  // The "rgb(...)" text of updateColorInfo

  /** The rgb read-out, also used as the swatch colour: the word rgb and the
      three channels in decimal, comma-separated, in parentheses. */
  function RgbText(r: Byte, g: Byte, b: Byte): string {
    "rgb(" + Decimal(r) + ", " + Decimal(g) + ", " + Decimal(b) + ")"
  }

  /** The rgb text names the three channels in order, and nothing else. */
  lemma RgbTextRoundTrip(r: Byte, g: Byte, b: Byte)
    ensures ParseCallText("rgb", RgbText(r, g, b)) == Some([r as nat, g as nat, b as nat])
  {
    RgbTextIsCallText(r, g, b);
    CallTextRoundTrip("rgb", [r as nat, g as nat, b as nat]);
  }

  lemma RgbTextIsCallText(r: Byte, g: Byte, b: Byte)
    ensures RgbText(r, g, b) == CallText("rgb", [r as nat, g as nat, b as nat])
  {
    var xs: seq<nat> := [r, g, b];
    var rs, gs, bs := Decimal(r), Decimal(g), Decimal(b);
    assert xs[1..][1..] == [b as nat];
    assert JoinDecimals(xs[1..][1..]) == bs;
    assert xs[1..] == [g as nat, b as nat];
    var gb := gs + ", " + bs;
    assert JoinDecimals(xs[1..]) == gb;
    var all := rs + ", " + gb;
    assert JoinDecimals(xs) == all;
    assert RgbText(r, g, b) == "rgb(" + all + ")";
  }

  // ---------------------------------------------------------------------------
  // rgbToCmyk

  /** The smallest of three numbers, as the CMYK conversion takes it for k. */
  function Min3(a: real, b: real, c: real): (m: real)
    ensures m <= a && m <= b && m <= c
    ensures m == a || m == b || m == c
  {
    if a <= b && a <= c then a else if b <= c then b else c
  }

  function Max3(a: int, b: int, c: int): (m: int)
    ensures a <= m && b <= m && c <= m
    ensures m == a || m == b || m == c
  {
    if a >= b && a >= c then a else if b >= c then b else c
  }

  /** The inner rounding helper of the CMYK conversion: a fraction as the
      nearest whole percentage, halves rounded up (toward +infinity), as
      JavaScript's rounding does. */
  function Format(val: real): (p: int)
    ensures p as real - 0.5 <= val * 100.0 < p as real + 0.5
  {
    (val * 100.0 + 0.5).Floor
  }

  /** The four percentages of a CMYK read-out. */
  datatype Cmyk = Cmyk(c: int, m: int, y: int, k: int)

  predicate IsBlack(r: Byte, g: Byte, b: Byte) {
    r == 0 && g == 0 && b == 0
  }

  /** What rgbToCmyk computes once black is ruled out, step by step in exact
      arithmetic: the complements of the channels, their minimum k, the rescaled
      complements, each rounded by format. */
  function CmykPercentages(r: Byte, g: Byte, b: Byte): Cmyk
    requires !IsBlack(r, g, b)
  {
    var c := 1.0 - r as real / 255.0;
    var m := 1.0 - g as real / 255.0;
    var y := 1.0 - b as real / 255.0;
    var k := Min3(c, m, y);
    Cmyk(Format((c - k) / (1.0 - k)), Format((m - k) / (1.0 - k)), Format((y - k) / (1.0 - k)), Format(k))
  }

  /** The cmyk read-out: the word cmyk and the four percentages in decimal,
      comma-separated, in parentheses. */
  function CmykText(p: Cmyk): string {
    "cmyk(" + IntText(p.c) + ", " + IntText(p.m) + ", " + IntText(p.y) + ", " + IntText(p.k) + ")"
  }

  function RgbToCmyk(r: Byte, g: Byte, b: Byte): string {
    if IsBlack(r, g, b) then "cmyk(0, 0, 0, 100)" else CmykText(CmykPercentages(r, g, b))
  }

  /** The nearest whole percentage of num / den, halves up, in whole numbers: floor((200 num + den) / (2 den)). */
  function RoundPercent(num: nat, den: nat): int
    requires den > 0
  {
    (200 * num + den) / (2 * den)
  }

  /** The CMYK percentages in closed form: with M the largest channel,
      K = 100 (255 - M) / 255 and each of C, M, Y = 100 (M - channel) / M, rounded. */
  function CmykReference(r: Byte, g: Byte, b: Byte): Cmyk {
    var mx := Max3(r, g, b);
    if mx == 0 then Cmyk(0, 0, 0, 100)
    else Cmyk(RoundPercent(mx - r, mx), RoundPercent(mx - g, mx), RoundPercent(mx - b, mx),
              RoundPercent(255 - mx, 255))
  }

  /** The floor of an exact quotient is the integer quotient. */
  lemma FloorOfQuotient(n: int, d: int)
    requires d > 0
    ensures (n as real / d as real).Floor == n / d
  {
    var q, rm := n / d, n % d;
    var fr := rm as real / d as real;
    assert 0.0 <= fr && fr * d as real == rm as real;
    assert fr < 1.0 by {
      assert (1.0 - fr) * d as real == (d - rm) as real;
    }
    assert n as real == q as real * d as real + rm as real;
    assert n as real / d as real == q as real + fr;
  }

  /** format(num / den) is RoundPercent(num, den). */
  lemma FormatQuotient(num: nat, den: nat)
    requires den > 0
    ensures Format(num as real / den as real) == RoundPercent(num, den)
  {
    var x := num as real / den as real;
    var y := (200 * num + den) as real / (2 * den) as real;
    assert x * den as real == num as real;
    assert y * (2 * den) as real == (200 * num + den) as real;
    assert (x * 100.0 + 0.5) * (2 * den) as real == (200 * num + den) as real;
    CancelFactor(x * 100.0 + 0.5, y, (2 * den) as real);
    FloorOfQuotient(200 * num + den, 2 * den);
  }

  lemma CancelFactor(a: real, b: real, d: real)
    requires d != 0.0 && a * d == b * d
    ensures a == b
  {
    assert (a - b) * d == 0.0;
  }

  /** (a / s) / (b / s) == a / b. */
  lemma CancelDivisor(a: real, b: real, s: real)
    requires b != 0.0 && s != 0.0
    ensures (a / s) / (b / s) == a / b
  {
  }

  /** For non-black input the step-by-step computation equals the closed form. */
  lemma CmykPercentagesExact(r: Byte, g: Byte, b: Byte)
    requires !IsBlack(r, g, b)
    ensures CmykPercentages(r, g, b) == CmykReference(r, g, b)
  {
    var mx := Max3(r, g, b);
    var c := 1.0 - r as real / 255.0;
    var m := 1.0 - g as real / 255.0;
    var y := 1.0 - b as real / 255.0;
    var k := Min3(c, m, y);
    assert k == 1.0 - mx as real / 255.0;
    assert 1.0 - k == mx as real / 255.0;
    assert c - k == (mx - r) as real / 255.0;
    assert m - k == (mx - g) as real / 255.0;
    assert y - k == (mx - b) as real / 255.0;
    assert k == (255 - mx) as real / 255.0;
    CancelDivisor((mx - r) as real, mx as real, 255.0);
    CancelDivisor((mx - g) as real, mx as real, 255.0);
    CancelDivisor((mx - b) as real, mx as real, 255.0);
    FormatQuotient(mx - r, mx);
    FormatQuotient(mx - g, mx);
    FormatQuotient(mx - b, mx);
    FormatQuotient(255 - mx, 255);
  }

  /** A rounded percentage of a fraction in [0, 1] lies in [0, 100]; 0 and 1 give 0 and 100. */
  lemma RoundPercentBounds(num: nat, den: nat)
    requires 0 < den && num <= den
    ensures 0 <= RoundPercent(num, den) <= 100
    ensures num == 0 ==> RoundPercent(num, den) == 0
    ensures num == den ==> RoundPercent(num, den) == 100
  {
    var x, d := 200 * num + den, 2 * den;
    assert x < 101 * d;
    DivBelow(x, d, 101);
    if num == 0 {
      DivBelow(x, d, 1);
    }
    if num == den {
      assert x == 100 * d + den;
      DivExact(x, d, 100, den);
    }
  }

  lemma DivBelow(x: nat, d: nat, q: nat)
    requires 0 < d && x < q * d
    ensures x / d < q
  {
  }

  lemma DivExact(x: nat, d: nat, q: nat, rm: nat)
    requires 0 <= rm < d && x == q * d + rm
    ensures x / d == q
  {
    var e := x / d - q;
    assert e * d == rm - x % d;
    if e > 0 {
      MulAtLeast(e, d);
    } else if e < 0 {
      MulAtLeast(-e, d);
    }
  }

  lemma MulAtLeast(e: int, d: int)
    requires e >= 1 && d > 0
    ensures e * d >= d
  {
  }

  /** rgbToCmyk of a non-black colour: every percentage lies in [0, 100], the
      channel(s) equal to the largest channel get 0, and K is the rounded
      percentage of (255 - max) / 255 although the code computes it as the
      minimum of the three complements. */
  lemma CmykPercentagesBounds(r: Byte, g: Byte, b: Byte)
    requires !IsBlack(r, g, b)
    ensures var p := CmykPercentages(r, g, b);
      && 0 <= p.c <= 100 && 0 <= p.m <= 100 && 0 <= p.y <= 100 && 0 <= p.k <= 100
      && (r == Max3(r, g, b) ==> p.c == 0)
      && (g == Max3(r, g, b) ==> p.m == 0)
      && (b == Max3(r, g, b) ==> p.y == 0)
      && p.k == Format((255 - Max3(r, g, b)) as real / 255.0)
  {
    var mx := Max3(r, g, b);
    CmykPercentagesExact(r, g, b);
    RoundPercentBounds(mx - r, mx);
    RoundPercentBounds(mx - g, mx);
    RoundPercentBounds(mx - b, mx);
    RoundPercentBounds(255 - mx, 255);
    FormatQuotient(255 - mx, 255);
  }

  /** CmykText of non-negative percentages is the "cmyk" call text of the four. */
  lemma CmykTextIsCallText(p: Cmyk)
    requires 0 <= p.c && 0 <= p.m && 0 <= p.y && 0 <= p.k
    ensures CmykText(p) == CallText("cmyk", [p.c as nat, p.m as nat, p.y as nat, p.k as nat])
  {
    var xs: seq<nat> := [p.c, p.m, p.y, p.k];
    var c, m, y, k := Decimal(p.c), Decimal(p.m), Decimal(p.y), Decimal(p.k);
    assert IntText(p.c) == c && IntText(p.m) == m && IntText(p.y) == y && IntText(p.k) == k;
    assert xs[1..][1..][1..] == [p.k as nat];
    assert JoinDecimals(xs[1..][1..][1..]) == k;
    assert xs[1..][1..] == [p.y as nat, p.k as nat];
    var yk := y + ", " + k;
    assert JoinDecimals(xs[1..][1..]) == yk;
    assert xs[1..] == [p.m as nat, p.y as nat, p.k as nat];
    var myk := m + ", " + yk;
    assert JoinDecimals(xs[1..]) == myk;
    var all := c + ", " + myk;
    assert JoinDecimals(xs) == all;
    assert CmykText(p) == "cmyk(" + all + ")";
  }

  /** The literal of the black case is the text of the percentages (0, 0, 0, 100). */
  lemma BlackText()
    ensures CmykText(Cmyk(0, 0, 0, 100)) == "cmyk(0, 0, 0, 100)"
  {
    assert Decimal(100) == "100" && Decimal(0) == "0";
  }

  /** For every input, black included, the closed-form percentages lie in [0, 100]. */
  lemma CmykReferenceBounds(r: Byte, g: Byte, b: Byte)
    ensures var p := CmykReference(r, g, b);
      0 <= p.c <= 100 && 0 <= p.m <= 100 && 0 <= p.y <= 100 && 0 <= p.k <= 100
  {
    if !IsBlack(r, g, b) {
      CmykPercentagesExact(r, g, b);
      CmykPercentagesBounds(r, g, b);
    }
  }

  /** The text rgbToCmyk returns, for every input including black, names the four
      closed-form percentages in the order c, m, y, k, each in [0, 100]. */
  lemma RgbToCmykText(r: Byte, g: Byte, b: Byte)
    ensures var p := CmykReference(r, g, b);
      && 0 <= p.c <= 100 && 0 <= p.m <= 100 && 0 <= p.y <= 100 && 0 <= p.k <= 100
      && ParseCallText("cmyk", RgbToCmyk(r, g, b)) == Some([p.c as nat, p.m as nat, p.y as nat, p.k as nat])
  {
    var p := CmykReference(r, g, b);
    CmykReferenceBounds(r, g, b);
    if IsBlack(r, g, b) {
      BlackText();
    } else {
      CmykPercentagesExact(r, g, b);
    }
    assert RgbToCmyk(r, g, b) == CmykText(p);
    CmykTextIsCallText(p);
    CallTextRoundTrip("cmyk", [p.c as nat, p.m as nat, p.y as nat, p.k as nat]);
  }

  lemma RgbToCmykBlack()
    ensures RgbToCmyk(0, 0, 0) == "cmyk(0, 0, 0, 100)"
  {
  }

  lemma RgbToCmykWhite()
    ensures RgbToCmyk(255, 255, 255) == "cmyk(0, 0, 0, 0)"
  {
    CmykPercentagesExact(255, 255, 255);
    assert CmykReference(255, 255, 255) == Cmyk(0, 0, 0, 0);
    assert CmykText(Cmyk(0, 0, 0, 0)) == "cmyk(0, 0, 0, 0)";
  }

  lemma RgbToCmykRed()
    ensures RgbToCmyk(255, 0, 0) == "cmyk(0, 100, 100, 0)"
  {
    CmykPercentagesExact(255, 0, 0);
    assert CmykReference(255, 0, 0) == Cmyk(0, 100, 100, 0);
    RedText();
  }

  lemma RedText()
    ensures CmykText(Cmyk(0, 100, 100, 0)) == "cmyk(0, 100, 100, 0)"
  {
    assert Decimal(100) == "100" && Decimal(0) == "0";
  }
}
