/**
 * The colour helpers of `theme/ThemeProvider.tsx`: reading a six-digit hex colour into
 * its channels and turning a colour into a translucent `rgba(…)` one.
 */
module Theme {
  import opened Wrappers
  import opened Strings

  datatype Rgb = Rgb(r: nat, g: nat, b: nat)

  predicate InRange(c: Rgb) {
    c.r < 256 && c.g < 256 && c.b < 256
  }

  /** `[a-f\d]` under the `i` flag: an ASCII digit or a letter a-f in either case. */
  predicate IsHexDigit(c: char) {
    IsDigit(c) || 'a' <= c <= 'f' || 'A' <= c <= 'F'
  }

  predicate AllHex(s: string) {
    forall i :: 0 <= i < |s| ==> IsHexDigit(s[i])
  }

  function HexValue(c: char): (n: nat)
    requires IsHexDigit(c)
    ensures n < 16
  {
    if IsDigit(c) then DigitValue(c)
    else if 'a' <= c <= 'f' then c as int - 'a' as int + 10
    else c as int - 'A' as int + 10
  }

  /** `parseInt(pair, 16)` for two hex digits. */
  function PairValue(a: char, b: char): (n: nat)
    requires IsHexDigit(a) && IsHexDigit(b)
    ensures n < 256
  {
    HexValue(a) * 16 + HexValue(b)
  }

  /** What `/^#?([a-f\d]{2}){3}$/i` matches: six hex digits, with or without a leading '#'. */
  predicate IsHexColour(s: string) {
    (|s| == 6 && AllHex(s)) || (|s| == 7 && s[0] == '#' && AllHex(s[1..]))
  }

  /** `hexToRgb`: the three channels of a six-digit hex colour, or null for anything else. */
  function HexToRgb(hex: string): (r: Option<Rgb>)
    ensures r.Some? <==> IsHexColour(hex)
    ensures r.Some? ==> InRange(r.value)
  {
    var body := if |hex| == 7 && hex[0] == '#' then hex[1..] else hex;
    if |body| == 6 && AllHex(body) then
      Some(Rgb(PairValue(body[0], body[1]), PairValue(body[2], body[3]), PairValue(body[4], body[5])))
    else None
  }

  /** Three-digit shorthand and an eight-digit colour with alpha are both refused. */
  lemma OtherLengthsRefused(hex: string)
    requires |hex| != 6 && |hex| != 7
    ensures HexToRgb(hex).None?
  {
  }

  // ------------------------------------------------------------ formatting

  function HexChar(n: nat): (c: char)
    requires n < 16
    ensures IsHexDigit(c) && HexValue(c) == n
  {
    if n < 10 then DigitChar(n) else ('a' as int + n - 10) as char
  }

  /** A channel as two lower-case hex digits. */
  function Hex2(n: nat): (s: string)
    requires n < 256
    ensures |s| == 2 && AllHex(s) && PairValue(s[0], s[1]) == n
  {
    [HexChar(n / 16), HexChar(n % 16)]
  }

  function ToHex(c: Rgb): (s: string)
    requires InRange(c)
    ensures |s| == 7 && s[0] == '#'
  {
    "#" + Hex2(c.r) + Hex2(c.g) + Hex2(c.b)
  }

  /** Formatting the channels as hex and reading them back gives the same channels. */
  lemma HexRoundTrip(c: Rgb)
    requires InRange(c)
    ensures HexToRgb(ToHex(c)) == Some(c)
    ensures HexToRgb(ToHex(c)[1..]) == Some(c)
  {
    var s := ToHex(c);
    var body := Hex2(c.r) + Hex2(c.g) + Hex2(c.b);
    assert s[1..] == body;
    assert body[0..2] == Hex2(c.r) && body[2..4] == Hex2(c.g) && body[4..6] == Hex2(c.b);
  }

  /** Two digits read alike: both hex digits of the same value, or both not hex digits. */
  predicate ReadAlike(c: char, d: char) {
    (IsHexDigit(c) <==> IsHexDigit(d)) && (IsHexDigit(c) ==> HexValue(c) == HexValue(d))
  }

  /** Strings whose characters read alike pairwise, with a '#' in the same places, read alike. */
  lemma SameReading(a: string, b: string)
    requires |a| == |b|
    requires forall i :: 0 <= i < |a| ==> ReadAlike(a[i], b[i]) && (a[i] == '#' <==> b[i] == '#')
    ensures HexToRgb(a) == HexToRgb(b)
  {
    if |a| == 7 && a[0] == '#' {
      assert forall i :: 0 <= i < 6 ==> a[1..][i] == a[i + 1] && b[1..][i] == b[i + 1];
    }
  }

  /** Case does not matter: folding the letters of the input gives the same answer. */
  lemma CaseInsensitive(hex: string)
    ensures HexToRgb(FoldCase(hex)) == HexToRgb(hex)
  {
    SameReading(FoldCase(hex), hex);
  }

  // ------------------------------------------------------------ alpha

  /**
   * `withAlpha`: an `rgb(`/`rgba(` colour or anything that is not a hex colour comes back
   * unchanged; a hex colour becomes `rgba(r, g, b, alpha)` with the channels in decimal.
   * `alpha` is the text JavaScript prints for the number.
   */
  function WithAlpha(colour: string, alpha: string): (r: string)
    ensures StartsWith(colour, "rgb(") || StartsWith(colour, "rgba(") ==> r == colour
    ensures HexToRgb(colour).None? ==> r == colour
    ensures r != colour ==> StartsWith(r, "rgba(")
  {
    if StartsWith(colour, "rgb(") || StartsWith(colour, "rgba(") then colour
    else match HexToRgb(colour)
      case None => colour
      case Some(c) =>
        var r := "rgba(" + NatToDigits(c.r) + ", " + NatToDigits(c.g) + ", " + NatToDigits(c.b) + ", " + alpha + ")";
        assert r[..5] == "rgba(";
        r
  }

  /** A hex colour gets its channels written out in decimal, followed by the alpha. */
  lemma WithAlphaOfHex(c: Rgb, alpha: string)
    requires InRange(c)
    ensures WithAlpha(ToHex(c), alpha)
            == "rgba(" + NatToDigits(c.r) + ", " + NatToDigits(c.g) + ", " + NatToDigits(c.b) + ", " + alpha + ")"
  {
    HexRoundTrip(c);
    var s := ToHex(c);
    assert !StartsWith(s, "rgb(") by { assert s[0] == '#'; }
    assert !StartsWith(s, "rgba(") by { assert s[0] == '#'; }
  }

  /** Applying an alpha to a colour that already has one changes nothing. */
  lemma WithAlphaIdempotent(colour: string, a: string, b: string)
    ensures WithAlpha(WithAlpha(colour, a), b) == WithAlpha(colour, a)
  {
  }
}
