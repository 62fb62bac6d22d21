/** Decimal rendering of whole numbers, as JavaScript writes an integer-valued
    number into a string, and the matching parser for the "name(a, b, c)"
    read-outs the colour picker shows. */
module Text {

  datatype Option<T> = None | Some(value: T)

  predicate IsDigit(ch: char) {
    '0' <= ch <= '9'
  }

  predicate AllDigits(s: string) {
    forall i :: 0 <= i < |s| ==> IsDigit(s[i])
  }

  function DigitChar(d: nat): (ch: char)
    requires d < 10
    ensures IsDigit(ch) && ch as int - '0' as int == d
  {
    ('0' as int + d) as char
  }

  /** The decimal digits of n, most significant first, without leading zeros. */
  function Decimal(n: nat): (s: string)
    ensures |s| >= 1 && AllDigits(s)
    ensures s[0] == '0' <==> n == 0
  {
    if n < 10 then [DigitChar(n)] else Decimal(n / 10) + [DigitChar(n % 10)]
  }

  /** The decimal text of an integer: a minus sign in front of a negative value. */
  function IntText(i: int): (s: string)
    ensures |s| >= 1
    ensures s[0] == '-' <==> i < 0
  {
    if i < 0 then "-" + Decimal(-i) else Decimal(i)
  }

  /** The number a string of decimal digits denotes. */
  function DigitsValue(s: string): nat
    requires AllDigits(s)
  {
    if s == [] then 0 else DigitsValue(s[..|s| - 1]) * 10 + (s[|s| - 1] as int - '0' as int)
  }

  /** Reading back the digits Decimal writes gives the number again. */
  lemma {:induction false} DecimalValue(n: nat)
    ensures DigitsValue(Decimal(n)) == n
  {
    if n >= 10 {
      var s := Decimal(n);
      assert s[..|s| - 1] == Decimal(n / 10);
      DecimalValue(n / 10);
    }
  }

  /** Decimal is one-to-one. */
  lemma DecimalInjective(a: nat, b: nat)
    requires Decimal(a) == Decimal(b)
    ensures a == b
  {
    DecimalValue(a);
    DecimalValue(b);
  }

  /** The longest prefix of digits, and what follows it. */
  function SpanDigits(s: string): (p: (string, string))
    ensures p.0 + p.1 == s && AllDigits(p.0)
    ensures p.1 == [] || !IsDigit(p.1[0])
  {
    if s != [] && IsDigit(s[0]) then
      var (d, rest) := SpanDigits(s[1..]);
      ([s[0]] + d, rest)
    else
      ([], s)
  }

  /** SpanDigits stops exactly where the digits end. */
  lemma {:induction false} SpanDigitsSplits(d: string, t: string)
    requires AllDigits(d)
    requires t == [] || !IsDigit(t[0])
    ensures SpanDigits(d + t) == (d, t)
  {
    if d != [] {
      assert (d + t)[0] == d[0] && (d + t)[1..] == d[1..] + t;
      SpanDigitsSplits(d[1..], t);
      assert [d[0]] + d[1..] == d;
    } else {
      assert d + t == t;
    }
  }

  /** Numbers in decimal, separated by a comma and a space. */
  function JoinDecimals(xs: seq<nat>): string
    requires xs != []
  {
    if |xs| == 1 then Decimal(xs[0]) else Decimal(xs[0]) + ", " + JoinDecimals(xs[1..])
  }

  /** Reads a non-empty ", "-separated list of decimal numbers; None on anything else. */
  function ParseDecimals(s: string): (r: Option<seq<nat>>)
    ensures r.Some? ==> r.value != []
    decreases |s|
  {
    var (d, rest) := SpanDigits(s);
    if d == [] then None
    else if rest == [] then Some([DigitsValue(d)])
    else if |rest| >= 2 && rest[..2] == ", " then
      match ParseDecimals(rest[2..])
      case None => None
      case Some(tail) => Some([DigitsValue(d)] + tail)
    else None
  }

  lemma {:induction false} JoinDecimalsRoundTrip(xs: seq<nat>)
    requires xs != []
    ensures ParseDecimals(JoinDecimals(xs)) == Some(xs)
  {
    var d := Decimal(xs[0]);
    DecimalValue(xs[0]);
    if |xs| == 1 {
      assert d + [] == d;
      SpanDigitsSplits(d, []);
      assert xs == [xs[0]];
    } else {
      var t := ", " + JoinDecimals(xs[1..]);
      assert JoinDecimals(xs) == d + t;
      SpanDigitsSplits(d, t);
      assert t[..2] == ", " && t[2..] == JoinDecimals(xs[1..]);
      JoinDecimalsRoundTrip(xs[1..]);
      assert [xs[0]] + xs[1..] == xs;
    }
  }

  /** name + "(" + the arguments + ")": the shape of the "rgb(...)" and "cmyk(...)" read-outs. */
  function CallText(name: string, args: seq<nat>): string
    requires args != []
  {
    name + "(" + JoinDecimals(args) + ")"
  }

  /** Recovers the arguments of a CallText with the given name; None if s is not one. */
  function ParseCallText(name: string, s: string): Option<seq<nat>> {
    var open := name + "(";
    if |s| >= |open| + 1 && s[..|open|] == open && s[|s| - 1] == ')' then
      ParseDecimals(s[|open|..|s| - 1])
    else
      None
  }

  lemma CallTextRoundTrip(name: string, args: seq<nat>)
    requires args != []
    ensures ParseCallText(name, CallText(name, args)) == Some(args)
  {
    var open := name + "(";
    var s := CallText(name, args);
    assert s == open + JoinDecimals(args) + ")";
    assert s[..|open|] == open;
    assert s[|open|..|s| - 1] == JoinDecimals(args);
    JoinDecimalsRoundTrip(args);
  }
}
