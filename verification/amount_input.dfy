/**
 * The sanitiser of the amount fields of the debt, payment and edit dialogs (`formatAmount`):
 * it keeps digits and points, merges every point after the first into the fraction, and
 * cuts a fraction to two digits.
 */
module AmountInput {
  import opened Strings

  predicate Allowed(c: char) {
    IsDigit(c) || c == '.'
  }

  /** How often `c` occurs in `s`. */
  function Count(s: string, c: char): nat {
    if s == [] then 0 else (if s[0] == c then 1 else 0) + Count(s[1..], c)
  }

  /**
   * `a` can be obtained from `b` by deleting characters. Either the first character of
   * `b` is used for the first of `a`, or it is deleted.
   */
  predicate IsSubsequence(a: string, b: string)
    decreases |b|
  {
    if a == [] then true
    else if b == [] then false
    else (a[0] == b[0] && IsSubsequence(a[1..], b[1..])) || IsSubsequence(a, b[1..])
  }

  /** Well-formed field text: digits and at most one point, followed by at most two digits. */
  predicate WellFormed(s: string) {
    (forall i :: 0 <= i < |s| ==> Allowed(s[i]))
    && Count(s, '.') <= 1
    && forall i :: 0 <= i < |s| && s[i] == '.' ==> |s| - i - 1 <= 2
  }

  // ------------------------------------------------------------ the sanitiser

  /** `text.replace(/[^0-9.]/g, '')`. */
  function Clean(s: string): (r: string)
    ensures forall i :: 0 <= i < |r| ==> Allowed(r[i])
    ensures Count(r, '.') == Count(s, '.')
    ensures |r| <= |s|
  {
    if s == [] then []
    else
      var head := if Allowed(s[0]) then [s[0]] else [];
      CountAppend(head, Clean(s[1..]), '.');
      head + Clean(s[1..])
  }

  /** `formatAmount(text)`, as written. */
  function FormatAmount(text: string): (r: string)
    ensures IsSubsequence(r, text)
    ensures Count(r, '.') <= 1
  {
    var cleaned := Clean(text);
    var parts := Split(cleaned, '.');
    CleanIsSubsequence(text);
    if |parts| > 2 then
      MergeShape(cleaned);
      SubsequenceTransitive(parts[0] + "." + Join(parts[1..], ""), cleaned, text);
      parts[0] + "." + Join(parts[1..], "")
    else if |parts| == 2 && |parts[1]| > 2 then
      CutShape(cleaned);
      SubsequenceTransitive(parts[0] + "." + parts[1][..2], cleaned, text);
      parts[0] + "." + parts[1][..2]
    else
      KeepShape(cleaned);
      cleaned
  }

  // ------------------------------------------------------------ counting and subsequences

  lemma {:induction false} CountAppend(a: string, b: string, c: char)
    ensures Count(a + b, c) == Count(a, c) + Count(b, c)
    decreases |a|
  {
    if a == [] {
      assert a + b == b;
    } else {
      assert (a + b)[1..] == a[1..] + b;
      CountAppend(a[1..], b, c);
    }
  }

  lemma {:induction false} CountAbsent(s: string, c: char)
    ensures Count(s, c) == 0 <==> c !in s
    decreases |s|
  {
    if s != [] {
      CountAbsent(s[1..], c);
      assert s == [s[0]] + s[1..];
    }
  }

  /** The pieces of a split are as many as the separators plus one. */
  lemma {:induction false} SplitCount(s: string, sep: char)
    ensures |Split(s, sep)| == Count(s, sep) + 1
    decreases |s|
  {
    if sep !in s {
      CountAbsent(s, sep);
    } else {
      var k := IndexOf(s, sep);
      assert s == s[..k] + [sep] + s[k + 1..];
      CountAppend(s[..k] + [sep], s[k + 1..], sep);
      CountAppend(s[..k], [sep], sep);
      CountAbsent(s[..k], sep);
      SplitCount(s[k + 1..], sep);
    }
  }

  lemma {:induction false} SubsequenceEmpty(b: string)
    ensures IsSubsequence([], b)
  {
  }

  lemma {:induction false} SubsequenceRefl(a: string)
    ensures IsSubsequence(a, a)
    decreases |a|
  {
    if a != [] {
      SubsequenceRefl(a[1..]);
    }
  }

  /** Deleting a prefix of `b` keeps a subsequence. */
  lemma {:induction false} SubsequenceOfSuffix(a: string, w: string, b: string)
    requires IsSubsequence(a, b)
    ensures IsSubsequence(a, w + b)
    decreases |w|
  {
    if w == [] {
      assert w + b == b;
    } else {
      assert (w + b)[1..] == w[1..] + b;
      SubsequenceOfSuffix(a, w[1..], b);
      if a != [] {
        assert IsSubsequence(a, (w + b)[1..]);
      }
    }
  }

  lemma {:induction false} SubsequenceAppend(a1: string, b1: string, a2: string, b2: string)
    requires IsSubsequence(a1, b1) && IsSubsequence(a2, b2)
    ensures IsSubsequence(a1 + a2, b1 + b2)
    decreases |b1|
  {
    if a1 == [] {
      assert a1 + a2 == a2;
      SubsequenceOfSuffix(a2, b1, b2);
    } else {
      assert (b1 + b2)[1..] == b1[1..] + b2;
      if a1[0] == b1[0] && IsSubsequence(a1[1..], b1[1..]) {
        SubsequenceAppend(a1[1..], b1[1..], a2, b2);
        assert (a1 + a2)[1..] == a1[1..] + a2;
      } else {
        SubsequenceAppend(a1, b1[1..], a2, b2);
      }
    }
  }

  lemma {:induction false} SubsequenceTransitive(a: string, b: string, c: string)
    requires IsSubsequence(a, b) && IsSubsequence(b, c)
    ensures IsSubsequence(a, c)
    decreases |c|
  {
    if a != [] {
      if b[0] == c[0] && IsSubsequence(b[1..], c[1..]) {
        if a[0] == b[0] && IsSubsequence(a[1..], b[1..]) {
          SubsequenceTransitive(a[1..], b[1..], c[1..]);
        } else {
          SubsequenceTransitive(a, b[1..], c[1..]);
        }
      } else {
        SubsequenceTransitive(a, b, c[1..]);
      }
    }
  }

  lemma {:induction false} PrefixIsSubsequence(s: string, k: nat)
    requires k <= |s|
    ensures IsSubsequence(s[..k], s)
  {
    SubsequenceRefl(s[..k]);
    SubsequenceEmpty(s[k..]);
    SubsequenceAppend(s[..k], s[..k], [], s[k..]);
    assert s[..k] + [] == s[..k] && s[..k] + s[k..] == s;
  }

  lemma {:induction false} CleanIsSubsequence(s: string)
    ensures IsSubsequence(Clean(s), s)
    decreases |s|
  {
    if s != [] {
      CleanIsSubsequence(s[1..]);
      var head := if Allowed(s[0]) then [s[0]] else [];
      if Allowed(s[0]) {
        SubsequenceRefl(head);
      }
      SubsequenceAppend(head, [s[0]], Clean(s[1..]), s[1..]);
      assert s == [s[0]] + s[1..];
    }
  }

  /** Text made of allowed characters is left alone by the cleaning. */
  lemma {:induction false} CleanKeepsAllowed(s: string)
    requires forall i :: 0 <= i < |s| ==> Allowed(s[i])
    ensures Clean(s) == s
    decreases |s|
  {
    if s != [] {
      CleanKeepsAllowed(s[1..]);
      assert s == [s[0]] + s[1..];
    }
  }

  /** Gluing pieces together drops only the separators. */
  lemma {:induction false} GlueIsSubsequence(xs: seq<string>, sep: string)
    ensures IsSubsequence(Join(xs, ""), Join(xs, sep))
    decreases |xs|
  {
    if |xs| == 0 {
      SubsequenceEmpty("");
    } else if |xs| == 1 {
      SubsequenceRefl(xs[0]);
    } else {
      SubsequenceRefl(xs[0]);
      GlueIsSubsequence(xs[1..], sep);
      SubsequenceOfSuffix(Join(xs[1..], ""), sep, Join(xs[1..], sep));
      SubsequenceAppend(xs[0], xs[0], Join(xs[1..], ""), sep + Join(xs[1..], sep));
      assert xs[0] + sep + Join(xs[1..], sep) == xs[0] + (sep + Join(xs[1..], sep));
      assert xs[0] + "" + Join(xs[1..], "") == xs[0] + Join(xs[1..], "");
    }
  }

  lemma {:induction false} SubsequenceChars(a: string, b: string)
    requires IsSubsequence(a, b)
    ensures forall c :: c in a ==> c in b
    decreases |b|
  {
    if a != [] {
      if a[0] == b[0] && IsSubsequence(a[1..], b[1..]) {
        SubsequenceChars(a[1..], b[1..]);
        assert a == [a[0]] + a[1..];
      } else {
        SubsequenceChars(a, b[1..]);
      }
    }
  }

  // ------------------------------------------------------------ the shapes of the result

  /** One point between two point-free pieces: it is the only point, at the end of the first piece. */
  lemma OnePoint(x: string, y: string)
    requires '.' !in x && '.' !in y
    ensures Count(x + "." + y, '.') == 1
    ensures forall i :: 0 <= i < |x + "." + y| && (x + "." + y)[i] == '.' ==> i == |x|
  {
    CountAppend(x + ".", y, '.');
    CountAppend(x, ".", '.');
    CountAbsent(x, '.');
    CountAbsent(y, '.');
  }

  lemma SplitInTwo(s: string)
    requires |Split(s, '.')| == 2
    ensures s == Split(s, '.')[0] + "." + Split(s, '.')[1]
  {
    var parts := Split(s, '.');
    assert Join(parts, ".") == parts[0] + "." + Join(parts[1..], ".");
  }

  lemma SplitInMany(s: string)
    requires |Split(s, '.')| > 2
    ensures s == Split(s, '.')[0] + "." + Join(Split(s, '.')[1..], ".")
  {
  }

  /** Text with at most one point that is followed by at most two digits. */
  lemma ShortFraction(x: string, y: string)
    requires '.' !in x && '.' !in y && |y| <= 2
    ensures Count(x + "." + y, '.') <= 1
    ensures forall i :: 0 <= i < |x + "." + y| && (x + "." + y)[i] == '.' ==> |x + "." + y| - i - 1 <= 2
  {
    OnePoint(x, y);
  }

  /** The branch merging the points after the first: one point, and a subsequence of the cleaned text. */
  lemma MergeShape(cleaned: string)
    requires |Split(cleaned, '.')| > 2
    ensures var parts := Split(cleaned, '.');
            var r := parts[0] + "." + Join(parts[1..], "");
            Count(r, '.') == 1 && IsSubsequence(r, cleaned)
  {
    var parts := Split(cleaned, '.');
    var tail := Join(parts[1..], "");
    JoinEmptyChars(parts[1..], '.');
    OnePoint(parts[0], tail);
    SplitInMany(cleaned);
    GlueIsSubsequence(parts[1..], ".");
    SubsequenceRefl(parts[0] + ".");
    SubsequenceAppend(parts[0] + ".", parts[0] + ".", tail, Join(parts[1..], "."));
  }

  /** The branch cutting the fraction: one point, two digits after it, and a prefix of the cleaned text. */
  lemma CutShape(cleaned: string)
    requires |Split(cleaned, '.')| == 2 && |Split(cleaned, '.')[1]| > 2
    ensures var parts := Split(cleaned, '.');
            var r := parts[0] + "." + parts[1][..2];
            Count(r, '.') <= 1 && IsSubsequence(r, cleaned)
            && forall i :: 0 <= i < |r| && r[i] == '.' ==> |r| - i - 1 <= 2
  {
    var parts := Split(cleaned, '.');
    var r := parts[0] + "." + parts[1][..2];
    assert '.' !in parts[1][..2] by {
      assert forall c :: c in parts[1][..2] ==> c in parts[1];
    }
    ShortFraction(parts[0], parts[1][..2]);
    SplitInTwo(cleaned);
    assert r == cleaned[..|parts[0]| + 3];
    PrefixIsSubsequence(cleaned, |parts[0]| + 3);
  }

  /** The branch returning the cleaned text: taken with at most two digits after its only point. */
  lemma KeepShape(cleaned: string)
    requires |Split(cleaned, '.')| <= 2
    requires |Split(cleaned, '.')| == 2 ==> |Split(cleaned, '.')[1]| <= 2
    ensures Count(cleaned, '.') <= 1
    ensures forall i :: 0 <= i < |cleaned| && cleaned[i] == '.' ==> |cleaned| - i - 1 <= 2
  {
    var parts := Split(cleaned, '.');
    SplitCount(cleaned, '.');
    if |parts| == 2 {
      SplitInTwo(cleaned);
      ShortFraction(parts[0], parts[1]);
    }
  }

  /**
   * What `formatAmount` returns: digits and points only, at most one point, deleting
   * characters of the input and adding none; and, when the input has at most one point,
   * at most two digits after it.
   */
  lemma FormatAmountShape(text: string)
    ensures var r := FormatAmount(text);
            (forall i :: 0 <= i < |r| ==> Allowed(r[i]))
            && Count(r, '.') <= 1
            && IsSubsequence(r, text)
            && (Count(Clean(text), '.') <= 1 ==> WellFormed(r))
  {
    var cleaned := Clean(text);
    var parts := Split(cleaned, '.');
    var r := FormatAmount(text);
    SplitCount(cleaned, '.');
    if |parts| > 2 {
      MergeShape(cleaned);
    } else if |parts| == 2 && |parts[1]| > 2 {
      CutShape(cleaned);
    } else {
      KeepShape(cleaned);
      SubsequenceRefl(cleaned);
    }
    CleanIsSubsequence(text);
    SubsequenceTransitive(r, cleaned, text);
    SubsequenceChars(r, cleaned);
    forall i | 0 <= i < |r|
      ensures Allowed(r[i])
    {
      assert r[i] in cleaned;
    }
  }

  /** Well-formed text is returned unchanged. */
  lemma FormatAmountKeepsWellFormed(s: string)
    requires WellFormed(s)
    ensures FormatAmount(s) == s
  {
    CleanKeepsAllowed(s);
    var parts := Split(s, '.');
    SplitCount(s, '.');
    if |parts| == 2 {
      SplitInTwo(s);
      OnePoint(parts[0], parts[1]);
      assert s[|parts[0]|] == '.';
    }
  }

  /** With at most one point in the input, a second pass changes nothing. */
  lemma FormatAmountIdempotent(text: string)
    requires Count(Clean(text), '.') <= 1
    ensures FormatAmount(FormatAmount(text)) == FormatAmount(text)
  {
    FormatAmountShape(text);
    FormatAmountKeepsWellFormed(FormatAmount(text));
  }

  // ------------------------------------------------------------ points after the first

  lemma DigitsAllowed(s: string)
    requires AllDigits(s)
    ensures forall i :: 0 <= i < |s| ==> Allowed(s[i])
    ensures '.' !in s
  {
  }

  lemma JoinThree(x: string, y: string, z: string)
    ensures Join([x, y, z], ".") == x + "." + y + "." + z
    ensures Join([x, y, z][1..], "") == y + z
  {
    assert [x, y, z][1..] == [y, z];
    assert [y, z][1..] == [z];
    assert Join([z], ".") == z;
    assert Join([y, z], ".") == y + "." + z;
    assert Join([x, y, z], ".") == x + "." + (y + "." + z);
    assert Join([y, z], "") == y + "" + z;
  }

  /** Digits and two points are left alone by the cleaning. */
  lemma ThreeClean(x: string, y: string, z: string)
    requires AllDigits(x) && AllDigits(y) && AllDigits(z)
    ensures Clean(x + "." + y + "." + z) == x + "." + y + "." + z
    ensures '.' !in x && '.' !in y && '.' !in z
  {
    DigitsAllowed(x);
    DigitsAllowed(y);
    DigitsAllowed(z);
    CleanKeepsAllowed(x + "." + y + "." + z);
  }

  /** Digits, a point, digits, a point, digits: the second point is dropped and nothing is cut. */
  lemma FormatAmountMerges(x: string, y: string, z: string)
    requires AllDigits(x) && AllDigits(y) && AllDigits(z)
    ensures FormatAmount(x + "." + y + "." + z) == x + "." + y + z
  {
    ThreeClean(x, y, z);
    ThreeParts(x, y, z);
    MergeOfClean(x, y, z);
  }

  lemma ThreeParts(x: string, y: string, z: string)
    requires '.' !in x && '.' !in y && '.' !in z
    ensures Split(x + "." + y + "." + z, '.') == [x, y, z]
  {
    JoinThree(x, y, z);
    SplitJoin([x, y, z], '.');
  }

  lemma MergeOfClean(x: string, y: string, z: string)
    requires Clean(x + "." + y + "." + z) == x + "." + y + "." + z
    requires Split(x + "." + y + "." + z, '.') == [x, y, z]
    ensures FormatAmount(x + "." + y + "." + z) == x + "." + y + z
  {
    JoinThree(x, y, z);
  }

  /** Digits, a point, and more than two digits: the fraction is cut to two. */
  lemma FormatAmountCuts(x: string, w: string)
    requires AllDigits(x) && AllDigits(w) && |w| > 2
    ensures FormatAmount(x + "." + w) == x + "." + w[..2]
  {
    DigitsAllowed(x);
    DigitsAllowed(w);
    CleanKeepsAllowed(x + "." + w);
    TwoParts(x, w);
    CutOfClean(x, w);
  }

  lemma TwoParts(x: string, w: string)
    requires '.' !in x && '.' !in w
    ensures Split(x + "." + w, '.') == [x, w]
  {
    assert Join([x, w], ".") == x + "." + w by {
      assert [x, w][1..] == [w];
    }
    SplitJoin([x, w], '.');
  }

  lemma CutOfClean(x: string, w: string)
    requires Clean(x + "." + w) == x + "." + w
    requires Split(x + "." + w, '.') == [x, w] && |w| > 2
    ensures FormatAmount(x + "." + w) == x + "." + w[..2]
  {
  }

  /**
   * As written: a second point merges its digits into the fraction without the fraction
   * being cut, so digits `x.y.z` with more than two digits in `y` and `z` together (as in
   * "1.2.345") come out as `x.yz` ("1.2345"): more than two decimals, which a second pass
   * then cuts ("1.23").
   */
  lemma MergedFractionNotCut(x: string, y: string, z: string)
    requires AllDigits(x) && AllDigits(y) && AllDigits(z) && |y| + |z| > 2
    ensures FormatAmount(x + "." + y + "." + z) == x + "." + (y + z)
    ensures !WellFormed(FormatAmount(x + "." + y + "." + z))
    ensures FormatAmount(FormatAmount(x + "." + y + "." + z)) == x + "." + (y + z)[..2]
  {
    FormatAmountMerges(x, y, z);
    var r := x + "." + (y + z);
    assert x + "." + y + z == r;
    assert AllDigits(y + z) by {
      forall i | 0 <= i < |y + z|
        ensures IsDigit((y + z)[i])
      {
        if i < |y| {
          assert (y + z)[i] == y[i];
        } else {
          assert (y + z)[i] == z[i - |y|];
        }
      }
    }
    FormatAmountCuts(x, y + z);
    assert r[|x|] == '.' && |r| - |x| - 1 > 2;
  }

  // ------------------------------------------------------------ corrected

  /** Cuts the digits after the only point to two. */
  function LimitFraction(s: string): string {
    var parts := Split(s, '.');
    if |parts| == 2 && |parts[1]| > 2 then parts[0] + "." + parts[1][..2] else s
  }

  /** `formatAmount` with the fraction cut after the merge as well. */
  function FormatAmountFixed(text: string): (r: string)
    ensures WellFormed(r)
    ensures IsSubsequence(r, text)
  {
    var cleaned := Clean(text);
    var parts := Split(cleaned, '.');
    var merged := if |parts| > 2 then parts[0] + "." + Join(parts[1..], "") else cleaned;
    MergedShape(text, merged);
    LimitIsFormat(merged);
    CleanKeepsAllowed(merged);
    FormatAmountShape(merged);
    SubsequenceTransitive(LimitFraction(merged), merged, text);
    LimitFraction(merged)
  }

  /** After the merge: clean text with at most one point, deleting characters of the input. */
  lemma MergedShape(text: string, merged: string)
    requires var parts := Split(Clean(text), '.');
             merged == if |parts| > 2 then parts[0] + "." + Join(parts[1..], "") else Clean(text)
    ensures (forall i :: 0 <= i < |merged| ==> Allowed(merged[i])) && Count(merged, '.') <= 1
    ensures IsSubsequence(merged, text)
  {
    var cleaned := Clean(text);
    var parts := Split(cleaned, '.');
    SplitCount(cleaned, '.');
    if |parts| > 2 {
      MergeShape(cleaned);
      SubsequenceChars(merged, cleaned);
      forall i | 0 <= i < |merged|
        ensures Allowed(merged[i])
      {
        assert merged[i] in cleaned;
      }
    } else {
      SubsequenceRefl(cleaned);
    }
    CleanIsSubsequence(text);
    SubsequenceTransitive(merged, cleaned, text);
  }

  /** On clean text with at most one point, the cut is what `formatAmount` does. */
  lemma LimitIsFormat(m: string)
    requires (forall i :: 0 <= i < |m| ==> Allowed(m[i])) && Count(m, '.') <= 1
    ensures LimitFraction(m) == FormatAmount(m)
  {
    CleanKeepsAllowed(m);
    SplitCount(m, '.');
  }

  /**
   * The corrected sanitiser always returns well-formed text, deletes characters of the
   * input and adds none, and agrees with `formatAmount` when the input has at most one point.
   */
  lemma FormatAmountFixedShape(text: string)
    ensures WellFormed(FormatAmountFixed(text))
    ensures IsSubsequence(FormatAmountFixed(text), text)
    ensures Count(Clean(text), '.') <= 1 ==> FormatAmountFixed(text) == FormatAmount(text)
  {
    var cleaned := Clean(text);
    SplitCount(cleaned, '.');
    if Count(cleaned, '.') <= 1 {
      LimitIsFormat(cleaned);
      CleanKeepsAllowed(cleaned);
    }
  }


  /** The corrected sanitiser leaves well-formed text alone, so a second pass never changes anything. */
  lemma FormatAmountFixedIdempotent(text: string)
    ensures FormatAmountFixed(FormatAmountFixed(text)) == FormatAmountFixed(text)
  {
    var r := FormatAmountFixed(text);
    FormatAmountFixedShape(text);
    CleanKeepsAllowed(r);
    SplitCount(r, '.');
    LimitIsFormat(r);
    FormatAmountKeepsWellFormed(r);
  }
}
