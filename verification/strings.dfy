/**
 * The JavaScript string operations the ledger relies on, over `string` (= `seq<char>`):
 * decimal digit text, `split`/`join`, `trim`, UTF-16 `length`, `includes`, `startsWith`,
 * and the case-insensitive name order of SQLite's `COLLATE NOCASE`.
 */
module Strings {

  // ---------------------------------------------------------------- digits

  predicate IsDigit(c: char) {
    '0' <= c <= '9'
  }

  predicate AllDigits(s: string) {
    forall i :: 0 <= i < |s| ==> IsDigit(s[i])
  }

  function DigitValue(c: char): nat
    requires IsDigit(c)
  {
    c as int - '0' as int
  }

  function DigitChar(n: nat): (c: char)
    requires n < 10
    ensures IsDigit(c) && DigitValue(c) == n
  {
    ('0' as int + n) as char
  }

  /** The number a non-empty-or-empty string of decimal digits denotes, most significant first. */
  function DigitsToNat(s: string): nat
    requires AllDigits(s)
    decreases |s|
  {
    if s == [] then 0 else DigitsToNat(s[..|s| - 1]) * 10 + DigitValue(s[|s| - 1])
  }

  /** Digit text without superfluous leading zeros: "0", or a string starting with 1-9. */
  predicate CanonicalDigits(s: string) {
    AllDigits(s) && |s| >= 1 && (|s| == 1 || s[0] != '0')
  }

  /** Decimal rendering of a natural number, as `String(n)` prints it. */
  function NatToDigits(n: nat): (s: string)
    ensures CanonicalDigits(s)
    ensures DigitsToNat(s) == n
    decreases n
  {
    if n < 10 then [DigitChar(n)]
    else
      var p := NatToDigits(n / 10);
      var s := p + [DigitChar(n % 10)];
      assert s[..|s| - 1] == p;
      s
  }

  lemma {:induction false} LeadingNonZeroPositive(s: string)
    requires AllDigits(s) && |s| >= 1 && s[0] != '0'
    ensures DigitsToNat(s) >= 1
    decreases |s|
  {
    if |s| > 1 {
      var p := s[..|s| - 1];
      assert p[0] == s[0];
      LeadingNonZeroPositive(p);
    }
  }

  /** Reading canonical digit text and printing the number back gives the same text. */
  lemma {:induction false} CanonicalDigitsRoundTrip(s: string)
    requires CanonicalDigits(s)
    ensures NatToDigits(DigitsToNat(s)) == s
    decreases |s|
  {
    if |s| > 1 {
      var p := s[..|s| - 1];
      assert p[0] == s[0];
      LeadingNonZeroPositive(p);
      CanonicalDigitsRoundTrip(p);
      var n := DigitsToNat(s);
      assert n / 10 == DigitsToNat(p);
      assert n % 10 == DigitValue(s[|s| - 1]);
      assert s == p + [s[|s| - 1]];
    }
  }

  // ------------------------------------------------------------ split / join

  function IndexOf(s: string, c: char): (k: nat)
    requires c in s
    ensures k < |s| && s[k] == c && c !in s[..k]
  {
    if s[0] == c then 0
    else
      var k := 1 + IndexOf(s[1..], c);
      assert s[..k] == [s[0]] + s[1..][..k - 1];
      k
  }

  /** `xs.join(sep)`. */
  function Join(xs: seq<string>, sep: string): string
    decreases |xs|
  {
    if |xs| == 0 then ""
    else if |xs| == 1 then xs[0]
    else xs[0] + sep + Join(xs[1..], sep)
  }

  /** `s.split(sep)` for a one-character separator. */
  function Split(s: string, sep: char): (parts: seq<string>)
    ensures |parts| >= 1
    ensures forall i :: 0 <= i < |parts| ==> sep !in parts[i]
    ensures |parts| == 1 <==> sep !in s
    ensures Join(parts, [sep]) == s
    decreases |s|
  {
    if sep !in s then [s]
    else
      var k := IndexOf(s, sep);
      var rest := Split(s[k + 1..], sep);
      var parts := [s[..k]] + rest;
      assert parts[1..] == rest;
      assert s == s[..k] + [sep] + s[k + 1..];
      parts
  }

  lemma {:induction false} IndexOfAfterFree(a: string, b: string, c: char)
    requires c !in a
    ensures IndexOf(a + [c] + b, c) == |a|
    decreases |a|
  {
    if a != [] {
      assert (a + [c] + b)[1..] == a[1..] + [c] + b;
      IndexOfAfterFree(a[1..], b, c);
    }
  }

  /** GROUP_CONCAT followed by `split`: joining pieces free of the separator and splitting again restores them. */
  lemma {:induction false} SplitJoin(xs: seq<string>, sep: char)
    requires |xs| >= 1
    requires forall i :: 0 <= i < |xs| ==> sep !in xs[i]
    ensures Split(Join(xs, [sep]), sep) == xs
    decreases |xs|
  {
    if |xs| > 1 {
      var tail := Join(xs[1..], [sep]);
      var s := xs[0] + [sep] + tail;
      assert s[|xs[0]|] == sep;
      IndexOfAfterFree(xs[0], tail, sep);
      assert s[..|xs[0]|] == xs[0];
      assert s[|xs[0]| + 1..] == tail;
      SplitJoin(xs[1..], sep);
    }
  }

  /** Joining with the empty separator is concatenation: no character other than the pieces' appears. */
  lemma {:induction false} JoinEmptyChars(xs: seq<string>, c: char)
    requires forall i :: 0 <= i < |xs| ==> c !in xs[i]
    ensures c !in Join(xs, "")
    decreases |xs|
  {
    if |xs| > 1 {
      JoinEmptyChars(xs[1..], c);
    }
  }

  // ------------------------------------------------------------ whitespace

  /** The characters `String.prototype.trim` removes (ECMAScript WhiteSpace and LineTerminator). */
  predicate IsWhitespace(c: char) {
    var n := c as int;
    n == 0x09 || n == 0x0A || n == 0x0B || n == 0x0C || n == 0x0D || n == 0x20
    || n == 0xA0 || n == 0x1680 || (0x2000 <= n <= 0x200A) || n == 0x2028 || n == 0x2029
    || n == 0x202F || n == 0x205F || n == 0x3000 || n == 0xFEFF
  }

  predicate AllWhitespace(s: string) {
    forall i :: 0 <= i < |s| ==> IsWhitespace(s[i])
  }

  function LeadingSpace(s: string): (k: nat)
    ensures k <= |s|
    ensures AllWhitespace(s[..k])
    ensures k < |s| ==> !IsWhitespace(s[k])
  {
    if s == [] || !IsWhitespace(s[0]) then 0
    else
      var k := 1 + LeadingSpace(s[1..]);
      assert s[..k] == [s[0]] + s[1..][..k - 1];
      k
  }

  function TrailingSpace(s: string): (k: nat)
    ensures k <= |s|
    ensures AllWhitespace(s[|s| - k..])
    ensures k < |s| ==> !IsWhitespace(s[|s| - 1 - k])
    decreases |s|
  {
    if s == [] || !IsWhitespace(s[|s| - 1]) then 0
    else
      var p := s[..|s| - 1];
      var k := 1 + TrailingSpace(p);
      assert s[|s| - k..] == p[|p| - (k - 1)..] + [s[|s| - 1]];
      k
  }

  /** `s.trim()`: the slice of `s` between its leading and its trailing whitespace. */
  function Trim(s: string): (r: string)
    ensures |r| <= |s|
    ensures r == [] || (!IsWhitespace(r[0]) && !IsWhitespace(r[|r| - 1]))
    ensures r == [] <==> AllWhitespace(s)
  {
    var a := LeadingSpace(s);
    var t := s[a..];
    var b := TrailingSpace(t);
    var r := t[..|t| - b];
    if r == [] then
      assert t == t[|t| - b..];
      assert s == s[..a] + t;
      r
    else
      assert r[0] == s[a];
      r
  }

  /** `r` sits in `s` at `a`, with only whitespace before and after it. */
  predicate TrimmedAt(s: string, r: string, a: int) {
    0 <= a <= |s| - |r| && s[a..a + |r|] == r && AllWhitespace(s[..a]) && AllWhitespace(s[a + |r|..])
  }

  /** What `trim` keeps is a slice of its input with only whitespace around it. */
  lemma TrimIsSlice(s: string)
    ensures exists a :: TrimmedAt(s, Trim(s), a)
  {
    var a := LeadingSpace(s);
    var t := s[a..];
    var b := TrailingSpace(t);
    var r := t[..|t| - b];
    assert r == Trim(s);
    SliceOfSlice(s, a, |t| - b);
    assert TrimmedAt(s, r, a);
  }

  /** Cutting `t = s[a..]` at `k` cuts `s` at `a + k`. */
  lemma SliceOfSlice(s: string, a: nat, k: nat)
    requires a <= |s| && k <= |s| - a
    ensures s[a..a + k] == s[a..][..k] && s[a + k..] == s[a..][k..]
  {
  }

  lemma {:induction false} LeadingSpaceOf(w: string, t: string)
    requires AllWhitespace(w) && (t == [] || !IsWhitespace(t[0]))
    ensures LeadingSpace(w + t) == |w|
    decreases |w|
  {
    if w != [] {
      assert (w + t)[1..] == w[1..] + t;
      LeadingSpaceOf(w[1..], t);
    } else {
      assert w + t == t;
    }
  }

  lemma {:induction false} TrailingSpaceOf(t: string, w: string)
    requires AllWhitespace(w) && (t == [] || !IsWhitespace(t[|t| - 1]))
    ensures TrailingSpace(t + w) == |w|
    decreases |w|
  {
    if w != [] {
      assert (t + w)[..|t + w| - 1] == t + w[..|w| - 1];
      TrailingSpaceOf(t, w[..|w| - 1]);
    } else {
      assert t + w == t;
    }
  }

  /** Whitespace around a trimmed text is exactly what `trim` takes away. */
  lemma TrimSurrounded(w1: string, t: string, w2: string)
    requires AllWhitespace(w1) && AllWhitespace(w2) && t != [] && Trim(t) == t
    ensures Trim(w1 + t + w2) == t
  {
    var s := w1 + t + w2;
    LeadingSpaceOf(w1, t + w2);
    assert s == w1 + (t + w2);
    assert s[|w1|..] == t + w2;
    TrailingSpaceOf(t, w2);
    assert (t + w2)[..|t|] == t;
  }

  /** Trimming twice trims nothing more. */
  lemma TrimIdempotent(s: string)
    ensures Trim(Trim(s)) == Trim(s)
  {
    var r := Trim(s);
    if r != [] {
      assert LeadingSpace(r) == 0;
      assert TrailingSpace(r) == 0;
    }
  }

  // ------------------------------------------------------------ misc

  /** `s.length`: JavaScript counts UTF-16 code units, so a character outside the BMP counts twice. */
  function Utf16Length(s: string): (n: nat)
    ensures |s| <= n <= 2 * |s|
  {
    if s == [] then 0 else (if s[0] as int > 0xFFFF then 2 else 1) + Utf16Length(s[1..])
  }

  /** `s.startsWith(p)`. */
  predicate StartsWith(s: string, p: string) {
    |p| <= |s| && s[..|p|] == p
  }

  /** `s.includes(sub)`. */
  predicate Contains(s: string, sub: string)
    decreases |s|
  {
    StartsWith(s, sub) || (s != [] && Contains(s[1..], sub))
  }

  // ------------------------------------------------------------ ordering

  /** Lexicographic order on code points; equals SQLite's byte order on UTF-8 text. */
  predicate LexLe(a: string, b: string)
    decreases |a|
  {
    a == [] || (b != [] && (a[0] < b[0] || (a[0] == b[0] && LexLe(a[1..], b[1..]))))
  }

  lemma {:induction false} LexTotal(a: string, b: string)
    ensures LexLe(a, b) || LexLe(b, a)
    decreases |a|
  {
    if a != [] && b != [] && a[0] == b[0] {
      LexTotal(a[1..], b[1..]);
    }
  }

  lemma {:induction false} LexTransitive(a: string, b: string, c: string)
    requires LexLe(a, b) && LexLe(b, c)
    ensures LexLe(a, c)
    decreases |a|
  {
    if a != [] && b != [] && c != [] && a[0] == b[0] && b[0] == c[0] {
      LexTransitive(a[1..], b[1..], c[1..]);
    }
  }

  /** ASCII-only lower-casing, the folding `COLLATE NOCASE` applies. */
  function FoldCase(s: string): (r: string)
    ensures |r| == |s|
    ensures forall i :: 0 <= i < |s| ==> r[i] == (if 'A' <= s[i] <= 'Z' then (s[i] as int + 32) as char else s[i])
  {
    seq(|s|, i requires 0 <= i < |s| => if 'A' <= s[i] <= 'Z' then (s[i] as int + 32) as char else s[i])
  }

  /** Case-insensitive name order: `ORDER BY name COLLATE NOCASE`. */
  predicate NameLe(a: string, b: string) {
    LexLe(FoldCase(a), FoldCase(b))
  }

  lemma NameLeTotal(a: string, b: string)
    ensures NameLe(a, b) || NameLe(b, a)
  {
    LexTotal(FoldCase(a), FoldCase(b));
  }

  lemma NameLeTransitive(a: string, b: string, c: string)
    requires NameLe(a, b) && NameLe(b, c)
    ensures NameLe(a, c)
  {
    LexTransitive(FoldCase(a), FoldCase(b), FoldCase(c));
  }
}
