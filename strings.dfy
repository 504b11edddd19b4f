/**
 * Models of the Python string built-ins the generator relies on, over
 * `seq<char>` and restricted to ASCII: `isspace` (and the regex class `\s`),
 * `isdigit` (`\d`), `isalnum`, `upper`, `strip`, `in`, `count`, `replace`,
 * `split`, `join`, `zfill` and `str` of a non-negative integer.
 */
module Strings {

  // ---------------------------------------------------------------------
  // Character classes
  // ---------------------------------------------------------------------

  /** Python whitespace in the ASCII range: what `str.isspace` accepts and `\s` matches. */
  predicate IsSpace(c: char)
  {
    c == ' ' || c == '\t' || c == '\n' || c == '\r' || c == '\U{000B}' || c == '\U{000C}'
    || ('\U{001C}' <= c <= '\U{001F}')
  }

  predicate IsDigit(c: char)
  {
    '0' <= c <= '9'
  }

  predicate IsLetter(c: char)
  {
    ('a' <= c <= 'z') || ('A' <= c <= 'Z')
  }

  predicate IsAlnum(c: char)
  {
    IsLetter(c) || IsDigit(c)
  }

  predicate AllDigits(s: string)
  {
    forall k :: 0 <= k < |s| ==> IsDigit(s[k])
  }

  // ---------------------------------------------------------------------
  // Upper case
  // ---------------------------------------------------------------------

  function Upper(c: char): char
  {
    if 'a' <= c <= 'z' then (c as int - 'a' as int + 'A' as int) as char else c
  }

  function UpperStr(s: string): (u: string)
  {
    seq(|s|, i requires 0 <= i < |s| => Upper(s[i]))
  }

  /** Upper-casing changes letters only: it keeps spaces, digits and punctuation. */
  lemma UpperKeepsNonLetters(c: char)
    ensures !('a' <= c <= 'z') ==> Upper(c) == c
    ensures IsSpace(Upper(c)) == IsSpace(c) && IsDigit(Upper(c)) == IsDigit(c)
    ensures IsAlnum(Upper(c)) == IsAlnum(c)
    ensures Upper(c) == ' ' <==> c == ' '
    ensures Upper(c) == '|' <==> c == '|'
  {
  }

  /** Upper-casing commutes with taking a slice. */
  lemma UpperSlice(s: string, i: nat, j: nat)
    requires i <= j <= |s|
    ensures UpperStr(s[i..j]) == UpperStr(s)[i..j]
  {
  }

  // ---------------------------------------------------------------------
  // Substrings: Python's `sub in s`
  // ---------------------------------------------------------------------

  predicate OccursAt(s: string, p: string, i: nat)
  {
    i + |p| <= |s| && s[i..i + |p|] == p
  }

  predicate Contains(s: string, p: string)
  {
    exists i :: 0 <= i <= |s| && OccursAt(s, p, i)
  }

  /** A string without the first character of a pattern does not contain it. */
  lemma FirstCharAbsent(s: string, p: string)
    requires p != []
    requires forall j :: 0 <= j < |s| ==> s[j] != p[0]
    ensures !Contains(s, p)
  {
    forall i | 0 <= i <= |s| ensures !OccursAt(s, p, i) {
      if i + |p| <= |s| {
        assert s[i..i + |p|][0] == s[i];
      }
    }
  }

  /** A string made of characters that are not `'|'` holds no `" | "` separator,
      not even one that starts in its last character and runs on into `" |"`. */
  lemma {:induction false} NoBarNoSeparator(a: string)
    requires forall k :: 0 <= k < |a| ==> a[k] != '|'
    ensures !Contains(a + " |", " | ")
  {
    var s := a + " |";
    forall i | 0 <= i <= |s| ensures !OccursAt(s, " | ", i) {
      if i + 3 <= |s| {
        if i + 1 < |a| {
          assert s[i + 1] == a[i + 1];
        } else {
          assert s[i + 1] == ' ';
        }
        assert s[i..i + 3][1] == s[i + 1];
      }
    }
  }

  /** Upper-casing neither creates nor destroys a `" | "` separator. */
  lemma UpperKeepsSeparator(x: string)
    ensures Contains(UpperStr(x), " | ") <==> Contains(x, " | ")
  {
    var u := UpperStr(x);
    forall i | 0 <= i <= |x| ensures OccursAt(u, " | ", i) <==> OccursAt(x, " | ", i) {
      if i + 3 <= |x| {
        UpperKeepsNonLetters(x[i]);
        UpperKeepsNonLetters(x[i + 1]);
        UpperKeepsNonLetters(x[i + 2]);
        assert u[i..i + 3] == [Upper(x[i]), Upper(x[i + 1]), Upper(x[i + 2])];
        assert x[i..i + 3] == [x[i], x[i + 1], x[i + 2]];
      }
    }
  }

  /** A string of digits holds no `" | "` separator. */
  lemma DigitsHaveNoSeparator(s: string)
    requires AllDigits(s)
    ensures !Contains(s, " | ")
  {
    forall i | 0 <= i <= |s| ensures !OccursAt(s, " | ", i) {
      if i + 3 <= |s| {
        assert s[i..i + 3][0] == s[i];
      }
    }
  }

  // ---------------------------------------------------------------------
  // `str.count` of one character
  // ---------------------------------------------------------------------

  function Count(s: string, c: char): nat
  {
    if s == [] then 0 else Count(s[..|s| - 1], c) + (if s[|s| - 1] == c then 1 else 0)
  }

  /** The count is the number of copies of `c` in the string seen as a multiset. */
  lemma {:induction false} CountIsMultiplicity(s: string, c: char)
    ensures Count(s, c) == multiset(s)[c]
  {
    if s != [] {
      CountIsMultiplicity(s[..|s| - 1], c);
      assert s == s[..|s| - 1] + [s[|s| - 1]];
    }
  }

  // ---------------------------------------------------------------------
  // `str.strip()`
  // ---------------------------------------------------------------------

  /** The end of the longest run of whitespace starting at `k`. */
  function SpaceRunEnd(s: string, k: nat): (e: nat)
    requires k <= |s|
    ensures k <= e <= |s|
    ensures forall m :: k <= m < e ==> IsSpace(s[m])
    ensures e == |s| || !IsSpace(s[e])
    decreases |s| - k
  {
    if k < |s| && IsSpace(s[k]) then SpaceRunEnd(s, k + 1) else k
  }

  /** A stretch of whitespace from `k` to `x` is covered by the run starting at `k`. */
  lemma {:induction false} SpaceRunAtLeast(s: string, k: nat, x: nat)
    requires k <= x <= |s|
    requires forall m :: k <= m < x ==> IsSpace(s[m])
    ensures SpaceRunEnd(s, k) >= x
    decreases x - k
  {
    if k < x {
      SpaceRunAtLeast(s, k + 1, x);
    }
  }

  /** The start of the longest run of whitespace ending at `j`, not going below `lo`. */
  function SpaceRunStart(s: string, lo: nat, j: nat): (b: nat)
    requires lo <= j <= |s|
    ensures lo <= b <= j
    ensures forall m :: b <= m < j ==> IsSpace(s[m])
    ensures b == lo || !IsSpace(s[b - 1])
    decreases j
  {
    if lo < j && IsSpace(s[j - 1]) then SpaceRunStart(s, lo, j - 1) else j
  }

  /** `r` is the infix of `s` starting at `i`, and everything outside it is whitespace. */
  predicate InfixWithin(s: string, r: string, i: nat)
  {
    i + |r| <= |s| && r == s[i..i + |r|]
    && (forall k :: 0 <= k < i ==> IsSpace(s[k]))
    && (forall k :: i + |r| <= k < |s| ==> IsSpace(s[k]))
  }

  /** Python's `strip()`: whitespace removed from both ends. */
  function Strip(s: string): (r: string)
    ensures |r| <= |s|
  {
    var i := SpaceRunEnd(s, 0);
    s[i..SpaceRunStart(s, i, |s|)]
  }

  /** What `strip()` keeps is an infix of the string, and all it cuts off on either
      side is whitespace. */
  lemma StripIsInfix(s: string)
    ensures exists i :: 0 <= i && InfixWithin(s, Strip(s), i)
  {
    var i := SpaceRunEnd(s, 0);
    assert InfixWithin(s, Strip(s), i);
  }

  /** What `strip()` keeps neither starts nor ends with whitespace. */
  lemma StripEnds(s: string)
    ensures Strip(s) != [] ==> !IsSpace(Strip(s)[0]) && !IsSpace(Strip(s)[|Strip(s)| - 1])
  {
  }

  /** A string without whitespace at either end is left as it is. */
  lemma StripWithoutOuterSpace(s: string)
    requires s != [] ==> !IsSpace(s[0]) && !IsSpace(s[|s| - 1])
    ensures Strip(s) == s
  {
    assert SpaceRunEnd(s, 0) == 0;
    assert SpaceRunStart(s, 0, |s|) == |s|;
  }

  /** Stripping twice is stripping once. */
  lemma StripIdempotent(s: string)
    ensures Strip(Strip(s)) == Strip(s)
  {
    StripEnds(s);
    StripWithoutOuterSpace(Strip(s));
  }

  // ---------------------------------------------------------------------
  // Filtering a string by a character predicate (a list comprehension + `join`)
  // ---------------------------------------------------------------------

  function Filter(s: string, keep: char -> bool): (r: string)
    ensures forall k :: 0 <= k < |r| ==> keep(r[k])
    ensures |r| <= |s|
  {
    if s == [] then [] else (if keep(s[0]) then [s[0]] else []) + Filter(s[1..], keep)
  }

  lemma {:induction false} FilterAppend(a: string, b: string, keep: char -> bool)
    ensures Filter(a + b, keep) == Filter(a, keep) + Filter(b, keep)
  {
    if a != [] {
      assert (a + b)[1..] == a[1..] + b;
      FilterAppend(a[1..], b, keep);
    } else {
      assert a + b == b;
    }
  }

  /** A filter that keeps every character returns the string itself. */
  lemma {:induction false} FilterAllKept(a: string, keep: char -> bool)
    requires forall k :: 0 <= k < |a| ==> keep(a[k])
    ensures Filter(a, keep) == a
  {
    if a != [] {
      FilterAllKept(a[1..], keep);
      assert [a[0]] + a[1..] == a;
    }
  }

  /** Dropping characters that the filter would drop anyway changes nothing. */
  lemma {:induction false} FilterAllDropped(a: string, keep: char -> bool)
    requires forall k :: 0 <= k < |a| ==> !keep(a[k])
    ensures Filter(a, keep) == []
  {
    if a != [] {
      FilterAllDropped(a[1..], keep);
    }
  }

  /** Filtering with a wider test first and a narrower one after is filtering with
      the narrower one. */
  lemma {:induction false} FilterNarrower(s: string, wide: char -> bool, narrow: char -> bool)
    requires forall c :: narrow(c) ==> wide(c)
    ensures Filter(Filter(s, wide), narrow) == Filter(s, narrow)
  {
    if s != [] {
      FilterNarrower(s[1..], wide, narrow);
      var head := if wide(s[0]) then [s[0]] else [];
      FilterAppend(head, Filter(s[1..], wide), narrow);
      if wide(s[0]) {
        assert head[1..] == [];
      }
    }
  }

  /** Trimming whitespace keeps every character that a filter rejecting whitespace keeps. */
  lemma FilterStrip(s: string, keep: char -> bool)
    requires forall c :: IsSpace(c) ==> !keep(c)
    ensures Filter(Strip(s), keep) == Filter(s, keep)
  {
    StripIsInfix(s);
    var r := Strip(s);
    var i :| 0 <= i && InfixWithin(s, r, i);
    var pre, post := s[..i], s[i + |r|..];
    assert s == pre + r + post;
    forall k | 0 <= k < |pre| ensures !keep(pre[k]) {
      assert IsSpace(s[k]);
    }
    forall k | 0 <= k < |post| ensures !keep(post[k]) {
      assert IsSpace(s[i + |r| + k]);
    }
    FilterAppend(pre + r, post, keep);
    FilterAppend(pre, r, keep);
    FilterAllDropped(pre, keep);
    FilterAllDropped(post, keep);
  }

  // ---------------------------------------------------------------------
  // Replacement of one character by another (a one-character `replace` or `re.sub`)
  // ---------------------------------------------------------------------

  function ReplaceChar(s: string, a: char, b: char): string
  {
    seq(|s|, i requires 0 <= i < |s| => if s[i] == a then b else s[i])
  }

  /** Replacing `a` by `b` loses nothing when `b` did not occur before. */
  lemma ReplaceCharInjective(s: string, t: string, a: char, b: char)
    requires forall k :: 0 <= k < |s| ==> s[k] != b
    requires forall k :: 0 <= k < |t| ==> t[k] != b
    requires ReplaceChar(s, a, b) == ReplaceChar(t, a, b)
    ensures s == t
  {
    assert |s| == |ReplaceChar(s, a, b)|;
    forall k | 0 <= k < |s| ensures s[k] == t[k] {
      assert ReplaceChar(s, a, b)[k] == ReplaceChar(t, a, b)[k];
    }
  }

  /** Swapping one rejected character for another does not change what a filter keeps. */
  lemma {:induction false} FilterReplaceChar(s: string, a: char, b: char, keep: char -> bool)
    requires !keep(a) && !keep(b)
    ensures Filter(ReplaceChar(s, a, b), keep) == Filter(s, keep)
  {
    if s != [] {
      assert ReplaceChar(s, a, b)[1..] == ReplaceChar(s[1..], a, b);
      FilterReplaceChar(s[1..], a, b, keep);
    }
  }

  // ---------------------------------------------------------------------
  // `str.replace(old, new)`, `str.split(sep)` and `sep.join(parts)`
  // ---------------------------------------------------------------------

  /** Python's `replace`: scans left to right and replaces every non-overlapping
      occurrence of `pat`, leftmost first. */
  function Replace(s: string, pat: string, rep: string): string
    requires |pat| > 0
    decreases |s|
  {
    if |s| < |pat| then s
    else if s[..|pat|] == pat then rep + Replace(s[|pat|..], pat, rep)
    else [s[0]] + Replace(s[1..], pat, rep)
  }

  /** Python's `split(sep)` with an explicit, non-empty separator. */
  function Split(s: string, sep: string): (parts: seq<string>)
    requires |sep| > 0
    ensures |parts| >= 1
    decreases |s|
  {
    if |s| < |sep| then [s]
    else if s[..|sep|] == sep then [""] + Split(s[|sep|..], sep)
    else
      var rest := Split(s[1..], sep);
      [[s[0]] + rest[0]] + rest[1..]
  }

  function Join(sep: string, parts: seq<string>): string
  {
    if |parts| == 0 then ""
    else if |parts| == 1 then parts[0]
    else parts[0] + sep + Join(sep, parts[1..])
  }

  lemma JoinConsFirst(sep: string, c: char, x: string, xs: seq<string>)
    ensures Join(sep, [[c] + x] + xs) == [c] + Join(sep, [x] + xs)
  {
    if xs != [] {
      assert ([[c] + x] + xs)[1..] == xs;
      assert ([x] + xs)[1..] == xs;
    }
  }

  /** `s.replace(pat, rep)` is `rep.join(s.split(pat))`: the two built-ins agree. */
  lemma {:induction false} ReplaceIsJoinOfSplit(s: string, pat: string, rep: string)
    requires |pat| > 0
    ensures Replace(s, pat, rep) == Join(rep, Split(s, pat))
    decreases |s|
  {
    if |s| < |pat| {
    } else if s[..|pat|] == pat {
      ReplaceIsJoinOfSplit(s[|pat|..], pat, rep);
      var tail := Split(s[|pat|..], pat);
      assert Split(s, pat) == [""] + tail;
      assert ([""] + tail)[1..] == tail;
    } else {
      ReplaceIsJoinOfSplit(s[1..], pat, rep);
      var rest := Split(s[1..], pat);
      assert rest == [rest[0]] + rest[1..];
      JoinConsFirst(rep, s[0], rest[0], rest[1..]);
    }
  }

  /** Dropping the first character cannot create an occurrence. */
  lemma NoOccurrenceInTail(x: string, sep: string)
    requires |x| >= 1 && !Contains(x, sep)
    ensures !Contains(x[1..], sep)
  {
    var t := x[1..];
    forall i | 0 <= i <= |t| ensures !OccursAt(t, sep, i) {
      assert !OccursAt(x, sep, i + 1);
      if i + |sep| <= |t| {
        assert t[i..i + |sep|] == x[i + 1..i + 1 + |sep|];
      }
    }
  }

  /** A string without the separator splits into itself alone. */
  lemma {:induction false} SplitWithoutSeparator(s: string, sep: string)
    requires |sep| > 0
    requires !Contains(s, sep)
    ensures Split(s, sep) == [s]
    decreases |s|
  {
    if |s| >= |sep| {
      assert !OccursAt(s, sep, 0);
      assert s[..|sep|] != sep;
      NoOccurrenceInTail(s, sep);
      SplitWithoutSeparator(s[1..], sep);
      assert [s[0]] + s[1..] == s;
    }
  }

  /** Replacing a pattern that does not occur changes nothing. */
  lemma ReplaceWithoutOccurrence(s: string, pat: string, rep: string)
    requires |pat| > 0 && !Contains(s, pat)
    ensures Replace(s, pat, rep) == s
  {
    ReplaceIsJoinOfSplit(s, pat, rep);
    SplitWithoutSeparator(s, pat);
  }

  /** Splitting `a + sep + b` cuts at the separator written between `a` and `b`,
      provided no occurrence of `sep` starts inside `a` (which covers one that
      would straddle the boundary). */
  lemma {:induction false} SplitAtFirstSeparator(a: string, b: string, sep: string)
    requires |sep| > 0
    requires !Contains(a + sep[..|sep| - 1], sep)
    ensures Split(a + sep + b, sep) == [a] + Split(b, sep)
    decreases |a|
  {
    var s := a + sep + b;
    if a == [] {
      assert s[..|sep|] == sep;
      assert s[|sep|..] == b;
    } else {
      var a' := a + sep[..|sep| - 1];
      assert !OccursAt(a', sep, 0);
      assert s[..|sep|] == a'[..|sep|];
      assert s[..|sep|] != sep;
      NoOccurrenceInTail(a', sep);
      assert a' == [a[0]] + (a[1..] + sep[..|sep| - 1]);
      assert a'[1..] == a[1..] + sep[..|sep| - 1];
      SplitAtFirstSeparator(a[1..], b, sep);
      assert s[1..] == a[1..] + sep + b;
      var rest := Split(s[1..], sep);
      assert rest == [a[1..]] + Split(b, sep);
      assert Split(s, sep) == [[s[0]] + rest[0]] + rest[1..];
      assert [a[0]] + a[1..] == a;
    }
  }

  // ---------------------------------------------------------------------
  // `str.zfill(width)` and `str` of a natural number
  // ---------------------------------------------------------------------

  function Repeat(c: char, n: nat): (r: string)
    ensures |r| == n && forall k :: 0 <= k < n ==> r[k] == c
  {
    if n == 0 then [] else [c] + Repeat(c, n - 1)
  }

  /** Python's `zfill`: pads on the left with '0' up to `width`, keeping a leading
      sign in front; a string already `width` long or longer is returned unchanged. */
  function ZFill(s: string, width: nat): (r: string)
    ensures |r| == if |s| >= width then |s| else width
    ensures |s| >= width ==> r == s
  {
    if |s| >= width then s
    else
      var pad := Repeat('0', width - |s|);
      if |s| > 0 && (s[0] == '+' || s[0] == '-') then [s[0]] + pad + s[1..] else pad + s
  }

  function DigitChar(d: nat): (c: char)
    requires d < 10
    ensures IsDigit(c)
  {
    ('0' as int + d) as char
  }

  function DigitValue(c: char): (d: nat)
    requires IsDigit(c)
    ensures d < 10
  {
    c as int - '0' as int
  }

  /** The value of a string of decimal digits. */
  function DecimalValue(s: string): nat
    requires AllDigits(s)
  {
    if s == [] then 0 else 10 * DecimalValue(s[..|s| - 1]) + DigitValue(s[|s| - 1])
  }

  /** `str(n)` for `n >= 0`: decimal digits without a leading zero. */
  function NatToString(n: nat): (r: string)
    ensures |r| >= 1 && AllDigits(r)
    ensures r[0] == '0' <==> n == 0
  {
    if n < 10 then [DigitChar(n)] else NatToString(n / 10) + [DigitChar(n % 10)]
  }

  lemma {:induction false} NatToStringRoundTrip(n: nat)
    ensures DecimalValue(NatToString(n)) == n
  {
    if n >= 10 {
      NatToStringRoundTrip(n / 10);
      var r := NatToString(n);
      assert r[..|r| - 1] == NatToString(n / 10);
    }
  }

  lemma {:induction false} LeadingZerosAddNothing(z: nat, s: string)
    requires AllDigits(s)
    ensures AllDigits(Repeat('0', z) + s)
    ensures DecimalValue(Repeat('0', z) + s) == DecimalValue(s)
    decreases |s|
  {
    var t := Repeat('0', z) + s;
    if s == [] {
      assert t == Repeat('0', z);
      ZerosAreZero(z);
    } else {
      assert t[..|t| - 1] == Repeat('0', z) + s[..|s| - 1];
      LeadingZerosAddNothing(z, s[..|s| - 1]);
    }
  }

  lemma {:induction false} ZerosAreZero(z: nat)
    ensures AllDigits(Repeat('0', z)) && DecimalValue(Repeat('0', z)) == 0
  {
    if z > 0 {
      var r := Repeat('0', z);
      assert r[..z - 1] == Repeat('0', z - 1) by {
        assert r == [r[0]] + Repeat('0', z - 1);
      }
      ZerosAreZero(z - 1);
    }
  }

  /** Zero-filling a digit string keeps it a digit string of the same value. */
  lemma ZFillKeepsValue(s: string, width: nat)
    requires AllDigits(s)
    ensures AllDigits(ZFill(s, width))
    ensures DecimalValue(ZFill(s, width)) == DecimalValue(s)
  {
    if |s| < width {
      LeadingZerosAddNothing(width - |s|, s);
    }
  }
}
