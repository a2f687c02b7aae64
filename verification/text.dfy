/** Python string operations the log tools rely on: `strip`, `lower`,
    `upper`, `startswith`, `in`, `split` on one character, `str()` of an
    integer, and the code-point order used by `sorted`. */
module Text {

  /** The characters Python's `str.isspace()` accepts, which are exactly the
      ones `str.strip()` removes when called without arguments. */
  predicate IsSpace(c: char) {
    || ('\t' <= c <= '\r')
    || ('\U{1c}' <= c <= '\U{1f}')
    || c == ' '
    || c == '\U{85}'
    || c == '\U{a0}'
    || c == '\U{1680}'
    || ('\U{2000}' <= c <= '\U{200a}')
    || c == '\U{2028}'
    || c == '\U{2029}'
    || c == '\U{202f}'
    || c == '\U{205f}'
    || c == '\U{3000}'
  }

  /** Index of the first non-whitespace character of `s` at or after `i`,
      or `|s|` when there is none. */
  function SkipSpaces(s: string, i: nat): (k: nat)
    requires i <= |s|
    ensures i <= k <= |s|
    ensures forall j :: i <= j < k ==> IsSpace(s[j])
    ensures k == |s| || !IsSpace(s[k])
    decreases |s| - i
  {
    if i < |s| && IsSpace(s[i]) then SkipSpaces(s, i + 1) else i
  }

  /** One past the last non-whitespace character of `s[lo..hi]`, or `lo`
      when there is none. */
  function SkipSpacesBack(s: string, lo: nat, hi: nat): (k: nat)
    requires lo <= hi <= |s|
    ensures lo <= k <= hi
    ensures forall j :: k <= j < hi ==> IsSpace(s[j])
    ensures k == lo || !IsSpace(s[k - 1])
    decreases hi
  {
    if lo < hi && IsSpace(s[hi - 1]) then SkipSpacesBack(s, lo, hi - 1) else hi
  }

  /** `r` occurs in `s` at offset `a` with only whitespace around it. */
  ghost predicate SpaceAround(r: string, s: string, a: int) {
    && 0 <= a <= |s| - |r|
    && s[a..a + |r|] == r
    && (forall i :: 0 <= i < a ==> IsSpace(s[i]))
    && (forall i :: a + |r| <= i < |s| ==> IsSpace(s[i]))
  }

  /** `r` is `s` with all leading and trailing whitespace removed: a
      contiguous slice of `s`, everything outside it is whitespace, and it
      neither starts nor ends with whitespace. */
  ghost predicate IsStripOf(r: string, s: string) {
    && (|r| == 0 || (!IsSpace(r[0]) && !IsSpace(r[|r| - 1])))
    && exists a :: SpaceAround(r, s, a)
  }

  /** `s.strip()`. */
  function Strip(s: string): (r: string)
    ensures IsStripOf(r, s)
    ensures |r| <= |s|
  {
    var lo := SkipSpaces(s, 0);
    var hi := SkipSpacesBack(s, lo, |s|);
    assert SpaceAround(s[lo..hi], s, lo);
    s[lo..hi]
  }

  /** A string that neither starts nor ends with white space is its own
      `strip()`. */
  lemma StripUntouched(s: string)
    requires |s| == 0 || (!IsSpace(s[0]) && !IsSpace(s[|s| - 1]))
    ensures Strip(s) == s
  {
    if |s| > 0 {
      assert SkipSpaces(s, 0) == 0;
      assert SkipSpacesBack(s, 0, |s|) == |s|;
    }
  }

  /** Stripping twice is stripping once. */
  lemma StripIdempotent(s: string)
    ensures Strip(Strip(s)) == Strip(s)
  {
    var r := Strip(s);
    if |r| > 0 {
      assert !IsSpace(r[0]) && !IsSpace(r[|r| - 1]);
      assert SkipSpaces(r, 0) == 0;
      assert SkipSpacesBack(r, 0, |r|) == |r|;
    }
  }

  /** Skipping from any point inside a run of white space lands on its end. */
  lemma {:induction false} SkipSpacesRun(s: string, i: nat, e: nat)
    requires i <= e <= |s|
    requires forall j :: i <= j < e ==> IsSpace(s[j])
    requires e == |s| || !IsSpace(s[e])
    ensures SkipSpaces(s, i) == e
    decreases e - i
  {
    if i < e {
      SkipSpacesRun(s, i + 1, e);
    }
  }

  /** Skipping back from any point inside a trailing run of white space
      lands on its start. */
  lemma {:induction false} SkipSpacesBackRun(s: string, lo: nat, e: nat, hi: nat)
    requires lo <= e <= hi <= |s|
    requires forall j :: e <= j < hi ==> IsSpace(s[j])
    requires e == lo || !IsSpace(s[e - 1])
    ensures SkipSpacesBack(s, lo, hi) == e
    decreases hi
  {
    if e < hi {
      SkipSpacesBackRun(s, lo, e, hi - 1);
    }
  }

  /** Padding a word that neither starts nor ends with white space by white
      space on either side is undone by `strip()`. */
  lemma StripPadded(pre: string, w: string, post: string)
    requires forall i :: 0 <= i < |pre| ==> IsSpace(pre[i])
    requires forall i :: 0 <= i < |post| ==> IsSpace(post[i])
    requires |w| > 0 && !IsSpace(w[0]) && !IsSpace(w[|w| - 1])
    ensures Strip(pre + w + post) == w
  {
    var s := pre + w + post;
    var e := |pre| + |w|;
    assert s[|pre|] == w[0] && s[e - 1] == w[|w| - 1];
    SkipSpacesRun(s, 0, |pre|);
    SkipSpacesBackRun(s, |pre|, e, |s|);
    assert s[|pre|..e] == w;
  }

  predicate IsUpperAscii(c: char) {
    'A' <= c <= 'Z'
  }

  predicate IsLowerAscii(c: char) {
    'a' <= c <= 'z'
  }

  function LowerChar(c: char): char {
    if IsUpperAscii(c) then (c as int + 32) as char else c
  }

  function UpperChar(c: char): char {
    if IsLowerAscii(c) then (c as int - 32) as char else c
  }

  /** `s.lower()` on ASCII letters: the same length, no upper-case letter
      left, and every character either kept or replaced by its lower-case
      partner. */
  function Lower(s: string): (r: string)
    ensures |r| == |s|
    ensures forall i :: 0 <= i < |r| ==> !IsUpperAscii(r[i])
    ensures forall i :: 0 <= i < |r| ==>
      r[i] == s[i] || (IsUpperAscii(s[i]) && r[i] as int == s[i] as int + 32)
  {
    if |s| == 0 then [] else [LowerChar(s[0])] + Lower(s[1..])
  }

  /** `s.upper()` on ASCII letters. */
  function Upper(s: string): (r: string)
    ensures |r| == |s|
    ensures forall i :: 0 <= i < |r| ==> !IsLowerAscii(r[i])
    ensures forall i :: 0 <= i < |r| ==>
      r[i] == s[i] || (IsLowerAscii(s[i]) && r[i] as int == s[i] as int - 32)
  {
    if |s| == 0 then [] else [UpperChar(s[0])] + Upper(s[1..])
  }

  /** A character that upper-cases to a letter is no white space. */
  lemma UpperLetter(w: string, i: int)
    requires 0 <= i < |w| && IsUpperAscii(Upper(w)[i])
    ensures !IsSpace(w[i])
  {
  }

  /** A string without upper-case letters is its own `lower()`. */
  lemma {:induction false} LowerOfLower(s: string)
    requires forall i :: 0 <= i < |s| ==> !IsUpperAscii(s[i])
    ensures Lower(s) == s
  {
    if |s| > 0 {
      LowerOfLower(s[1..]);
    }
  }

  /** `lower()` is idempotent. */
  lemma LowerIdempotent(s: string)
    ensures Lower(Lower(s)) == Lower(s)
  {
    LowerOfLower(Lower(s));
  }

  /** A string without lower-case letters is its own `upper()`. */
  lemma {:induction false} UpperOfUpper(s: string)
    requires forall i :: 0 <= i < |s| ==> !IsLowerAscii(s[i])
    ensures Upper(s) == s
  {
    if |s| > 0 {
      UpperOfUpper(s[1..]);
    }
  }

  /** Upper-casing a stripped string leaves nothing to strip: letters are
      never white space. */
  lemma UpperKeepsStrip(s: string)
    requires Strip(s) == s
    ensures Strip(Upper(s)) == Upper(s)
  {
    var u := Upper(s);
    if |s| > 0 {
      assert !IsSpace(s[0]) && !IsSpace(s[|s| - 1]);
      assert !IsSpace(u[0]) && !IsSpace(u[|u| - 1]);
    }
    StripUntouched(u);
  }

  /** Lower-casing a stripped string leaves nothing to strip. */
  lemma LowerKeepsStrip(s: string)
    requires Strip(s) == s
    ensures Strip(Lower(s)) == Lower(s)
  {
    var l := Lower(s);
    if |s| > 0 {
      assert !IsSpace(s[0]) && !IsSpace(s[|s| - 1]);
      assert !IsSpace(l[0]) && !IsSpace(l[|l| - 1]);
    }
    StripUntouched(l);
  }

  /** `s.startswith(p)`. */
  predicate StartsWith(s: string, p: string) {
    |p| <= |s| && s[..|p|] == p
  }

  /** `s.endswith(p)`. */
  predicate EndsWith(s: string, p: string) {
    |p| <= |s| && s[|s| - |p|..] == p
  }

  /** `sub in s`. */
  predicate Contains(s: string, sub: string) {
    exists i :: 0 <= i <= |s| - |sub| && OccursAt(s, sub, i)
  }

  predicate OccursAt(s: string, sub: string, i: int)
    requires 0 <= i <= |s| - |sub|
  {
    s[i..i + |sub|] == sub
  }

  /** Number of occurrences of the character `c` in `s`. */
  function CountChar(s: string, c: char): nat {
    if |s| == 0 then 0 else (if s[0] == c then 1 else 0) + CountChar(s[1..], c)
  }

  /** Index of the first `c` in `s`, or `|s|` when there is none. */
  function FindChar(s: string, c: char): (k: nat)
    ensures k <= |s|
    ensures forall i :: 0 <= i < k ==> s[i] != c
    ensures k < |s| ==> s[k] == c
  {
    if |s| == 0 || s[0] == c then 0 else 1 + FindChar(s[1..], c)
  }

  /** `s.split(sep)` for a one-character separator: one piece more than
      there are separators, and no piece holds the separator. */
  function Split(s: string, sep: char): (parts: seq<string>)
    ensures |parts| == CountChar(s, sep) + 1
    ensures forall k :: 0 <= k < |parts| ==> CountChar(parts[k], sep) == 0
    decreases |s|
  {
    var k := FindChar(s, sep);
    NoSepBeforeFind(s, sep);
    if k == |s| then
      assert s[..k] == s;
      [s]
    else
      CountAround(s, sep, k);
      [s[..k]] + Split(s[k + 1..], sep)
  }

  /** `sep.join(parts)`. */
  function Join(parts: seq<string>, sep: char): string {
    if |parts| == 0 then ""
    else if |parts| == 1 then parts[0]
    else parts[0] + [sep] + Join(parts[1..], sep)
  }

  /** Splitting on a separator and joining with it gives the string back. */
  lemma {:induction false} JoinSplit(s: string, sep: char)
    ensures Join(Split(s, sep), sep) == s
    decreases |s|
  {
    var k := FindChar(s, sep);
    if k < |s| {
      JoinSplit(s[k + 1..], sep);
      SplitAt(s, sep);
      var rest := Split(s[k + 1..], sep);
      assert |rest| >= 1;
      assert (Split(s, sep))[1..] == rest;
    }
  }

  /** A string holding the separator splits into the piece before its first
      occurrence followed by the pieces of the rest. */
  lemma SplitAt(s: string, sep: char)
    requires FindChar(s, sep) < |s|
    ensures var k := FindChar(s, sep);
      && Split(s, sep) == [s[..k]] + Split(s[k + 1..], sep)
      && s == s[..k] + [sep] + s[k + 1..]
  {
  }

  lemma {:induction false} CountCharAppend(a: string, b: string, c: char)
    ensures CountChar(a + b, c) == CountChar(a, c) + CountChar(b, c)
  {
    if |a| > 0 {
      assert (a + b)[1..] == a[1..] + b;
      CountCharAppend(a[1..], b, c);
    } else {
      assert a + b == b;
    }
  }

  lemma NoSepBeforeFind(s: string, c: char)
    ensures CountChar(s[..FindChar(s, c)], c) == 0
  {
    var k := FindChar(s, c);
    NoCharCount(s[..k], c);
  }

  lemma {:induction false} NoCharCount(s: string, c: char)
    requires forall i :: 0 <= i < |s| ==> s[i] != c
    ensures CountChar(s, c) == 0
  {
    if |s| > 0 {
      NoCharCount(s[1..], c);
    }
  }

  lemma CountAround(s: string, c: char, k: nat)
    requires k < |s| && s[k] == c
    ensures CountChar(s, c) == CountChar(s[..k], c) + 1 + CountChar(s[k + 1..], c)
  {
    assert s == s[..k] + ([c] + s[k + 1..]);
    CountCharAppend(s[..k], [c] + s[k + 1..], c);
    assert ([c] + s[k + 1..])[1..] == s[k + 1..];
  }

  /** Python's `a < b` on strings: code-point lexicographic order. */
  predicate LexLess(a: string, b: string) {
    if |a| == 0 then |b| > 0
    else if |b| == 0 then false
    else if a[0] != b[0] then a[0] < b[0]
    else LexLess(a[1..], b[1..])
  }

  lemma {:induction false} LexLessIrreflexive(a: string)
    ensures !LexLess(a, a)
  {
    if |a| > 0 {
      LexLessIrreflexive(a[1..]);
    }
  }

  lemma {:induction false} LexLessTransitive(a: string, b: string, c: string)
    requires LexLess(a, b) && LexLess(b, c)
    ensures LexLess(a, c)
  {
    if |a| > 0 && |b| > 0 && |c| > 0 && a[0] == b[0] && b[0] == c[0] {
      LexLessTransitive(a[1..], b[1..], c[1..]);
    }
  }

  /** Two different strings are ordered one way or the other. */
  lemma {:induction false} LexLessTotal(a: string, b: string)
    requires a != b
    ensures LexLess(a, b) || LexLess(b, a)
  {
    if |a| > 0 && |b| > 0 && a[0] == b[0] {
      assert a == [a[0]] + a[1..] && b == [b[0]] + b[1..];
      LexLessTotal(a[1..], b[1..]);
    }
  }

  lemma {:induction false} LexLessAsymmetric(a: string, b: string)
    requires LexLess(a, b)
    ensures !LexLess(b, a)
  {
    if |a| > 0 && |b| > 0 && a[0] == b[0] {
      LexLessAsymmetric(a[1..], b[1..]);
    }
  }

  function DigitChar(d: nat): char
    requires d < 10
  {
    ('0' as int + d) as char
  }

  predicate IsDigits(s: string) {
    forall i :: 0 <= i < |s| ==> '0' <= s[i] <= '9'
  }

  /** Decimal digits of a natural number, most significant first. */
  function NatToString(n: nat): (s: string)
    ensures |s| >= 1
    ensures IsDigits(s)
    ensures |s| > 1 ==> s[0] != '0'
  {
    if n < 10 then [DigitChar(n)] else NatToString(n / 10) + [DigitChar(n % 10)]
  }

  /** A three-digit number is spelled by its three decimal digits. */
  lemma ThreeDigits(n: int)
    requires 100 <= n < 1000
    ensures IntToString(n) == [DigitChar(n / 100), DigitChar(n / 10 % 10), DigitChar(n % 10)]
  {
    assert NatToString(n / 10 / 10) == [DigitChar(n / 100)];
    assert NatToString(n / 10) == [DigitChar(n / 100), DigitChar(n / 10 % 10)];
  }

  /** The number a string of decimal digits denotes. */
  function DigitsValue(s: string): nat
    requires IsDigits(s)
  {
    if |s| == 0 then 0
    else 10 * DigitsValue(s[..|s| - 1]) + (s[|s| - 1] as int - '0' as int)
  }

  /** Reading the rendered digits back yields the number. */
  lemma {:induction false} NatToStringValue(n: nat)
    ensures DigitsValue(NatToString(n)) == n
  {
    if n >= 10 {
      NatToStringValue(n / 10);
      var s := NatToString(n);
      assert s[..|s| - 1] == NatToString(n / 10);
    }
  }

  /** Python's `str(i)` for an integer. */
  function IntToString(i: int): (s: string)
    ensures i >= 0 ==> IsDigits(s) && DigitsValue(s) == i
    ensures i < 0 ==> |s| >= 2 && s[0] == '-' && IsDigits(s[1..]) && DigitsValue(s[1..]) == -i
  {
    NatToStringValue(if i >= 0 then i else -i);
    if i >= 0 then NatToString(i)
    else
      var d := NatToString(-i);
      assert ("-" + d)[1..] == d;
      "-" + d
  }
}
