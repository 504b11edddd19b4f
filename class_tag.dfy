/**
 * The class-tag resolver `detect_class_smart`: a tag such as `XII_3` taken from
 * the file name, failing that from the first five lines of the file, failing
 * that the sentinel `KELAS_UMUM`.
 *
 * The two regular expressions are written out as leftmost-match functions.
 * For `XII\s*[-_]?\s*\d+` backtracking never changes the outcome, so its match
 * at a position is: "XII", the longest run of whitespace, an optional `-` or
 * `_`, the longest run of whitespace, and the longest run of digits (at least
 * one). For `KELAS\s+.*?(XII...)` the greedy `\s+` followed by the lazy `.*?`
 * finds the first position after the whitespace run, on the same line (`.`
 * does not match a newline), where the XII pattern matches.
 */
module ClassTag {
  import opened Options
  import opened Strings

  const DefaultTag: string := "KELAS_UMUM"

  /** The end of the longest run of digits starting at `k`. */
  function DigitRunEnd(s: string, k: nat): (e: nat)
    requires k <= |s|
    ensures k <= e <= |s|
    ensures forall m :: k <= m < e ==> IsDigit(s[m])
    ensures e == |s| || !IsDigit(s[e])
    decreases |s| - k
  {
    if k < |s| && IsDigit(s[k]) then DigitRunEnd(s, k + 1) else k
  }

  /** A stretch of digits from `k` to `d` is covered by the run starting at `k`. */
  lemma {:induction false} DigitRunAtLeast(s: string, k: nat, d: nat)
    requires k <= d <= |s|
    requires forall m :: k <= m < d ==> IsDigit(s[m])
    ensures DigitRunEnd(s, k) >= d
    decreases d - k
  {
    if k < d {
      DigitRunAtLeast(s, k + 1, d);
    }
  }

  /** The character at `p` matches the upper-case letter `lit`, ignoring case when asked. */
  predicate LetterAt(s: string, p: nat, lit: char, ignoreCase: bool)
    requires p < |s|
  {
    if ignoreCase then Upper(s[p]) == lit else s[p] == lit
  }

  predicate SeparatorChar(c: char)
  {
    IsSpace(c) || c == '-' || c == '_' || IsDigit(c)
  }

  /** Past the `-` or `_` at `a`, if there is one there. */
  function OptionalDash(s: string, a: nat): (b: nat)
    requires a <= |s|
    ensures a <= b <= |s|
  {
    if a < |s| && (s[a] == '-' || s[a] == '_') then a + 1 else a
  }

  /** The end of the match of `\s*[-_]?\s*\d+` anchored at `k`, if there is one. */
  function XiiTail(s: string, k: nat): (e: Option<nat>)
    requires k <= |s|
    ensures e.Some? ==> k + 1 <= e.value <= |s|
  {
    var c := SpaceRunEnd(s, OptionalDash(s, SpaceRunEnd(s, k)));
    var d := DigitRunEnd(s, c);
    if c < d then Some(d) else None
  }

  /** `s[k..d]` is a string of the language `\s*[-_]?\s*\d+`, split as whitespace
      `[k, a)`, at most one `-` or `_` at `[a, b)`, whitespace `[b, c)` and digits
      `[c, d)`. */
  predicate TailOccurrence(s: string, k: nat, a: nat, b: nat, c: nat, d: nat)
  {
    && k <= a <= b <= c < d <= |s|
    && (forall m :: k <= m < a ==> IsSpace(s[m]))
    && (b == a || (b == a + 1 && (s[a] == '-' || s[a] == '_')))
    && (forall m :: b <= m < c ==> IsSpace(s[m]))
    && (forall m :: c <= m < d ==> IsDigit(s[m]))
  }

  /** A match of the tail is a string of the tail's language, made of whitespace,
      separators and digits, that ends with the longest run of digits. */
  lemma XiiTailShape(s: string, k: nat)
    requires k <= |s| && XiiTail(s, k).Some?
    ensures TailOccurrence(s, k, SpaceRunEnd(s, k), OptionalDash(s, SpaceRunEnd(s, k)),
                           SpaceRunEnd(s, OptionalDash(s, SpaceRunEnd(s, k))), XiiTail(s, k).value)
    ensures forall m :: k <= m < XiiTail(s, k).value ==> SeparatorChar(s[m])
    ensures IsDigit(s[XiiTail(s, k).value - 1])
    ensures XiiTail(s, k).value == |s| || !IsDigit(s[XiiTail(s, k).value])
  {
  }

  /** Every string of the tail's language that starts at `k` is matched, and the
      match reaches at least as far, because every run is taken longest. */
  lemma XiiTailComplete(s: string, k: nat, a: nat, b: nat, c: nat, d: nat)
    requires TailOccurrence(s, k, a, b, c, d)
    ensures XiiTail(s, k).Some? && XiiTail(s, k).value >= d
  {
    var r1 := SpaceRunEnd(s, k);
    assert IsDigit(s[c]);
    if b == a + 1 {
      SpaceRunAtLeast(s, k, a);
      assert r1 == a;
      assert OptionalDash(s, r1) == b;
      SpaceRunAtLeast(s, b, c);
      assert SpaceRunEnd(s, b) == c;
    } else {
      assert forall m :: k <= m < c ==> IsSpace(s[m]) by {
        forall m | k <= m < c ensures IsSpace(s[m]) {
          if m < a {
          } else {
            assert b <= m;
          }
        }
      }
      SpaceRunAtLeast(s, k, c);
      assert r1 == c;
      assert OptionalDash(s, r1) == c;
      assert SpaceRunEnd(s, c) == c;
    }
    DigitRunAtLeast(s, c, d);
  }

  /** The end of the match of `XII\s*[-_]?\s*\d+` anchored at `p`, if there is one. */
  function XiiMatchAt(s: string, p: nat, ignoreCase: bool): (e: Option<nat>)
    ensures e.Some? ==> p + 4 <= e.value <= |s|
  {
    if p + 3 <= |s| && LetterAt(s, p, 'X', ignoreCase) && LetterAt(s, p + 1, 'I', ignoreCase)
       && LetterAt(s, p + 2, 'I', ignoreCase)
    then XiiTail(s, p + 3)
    else None
  }

  /** A match is "XII" (in either case when ignoring case) followed by separators,
      ending with the longest run of digits. */
  lemma XiiMatchShape(s: string, p: nat, ignoreCase: bool)
    requires XiiMatchAt(s, p, ignoreCase).Some?
    ensures LetterAt(s, p, 'X', ignoreCase) && LetterAt(s, p + 1, 'I', ignoreCase)
            && LetterAt(s, p + 2, 'I', ignoreCase)
    ensures TailOccurrence(s, p + 3, SpaceRunEnd(s, p + 3), OptionalDash(s, SpaceRunEnd(s, p + 3)),
                           SpaceRunEnd(s, OptionalDash(s, SpaceRunEnd(s, p + 3))),
                           XiiMatchAt(s, p, ignoreCase).value)
    ensures forall m :: p + 3 <= m < XiiMatchAt(s, p, ignoreCase).value ==> SeparatorChar(s[m])
    ensures IsDigit(s[XiiMatchAt(s, p, ignoreCase).value - 1])
    ensures XiiMatchAt(s, p, ignoreCase).value == |s| || !IsDigit(s[XiiMatchAt(s, p, ignoreCase).value])
  {
    XiiTailShape(s, p + 3);
  }

  /** "XII" followed by a string of the tail's language is a match, reaching at
      least to the end of that string. */
  lemma XiiMatchComplete(s: string, p: nat, a: nat, b: nat, c: nat, d: nat, ignoreCase: bool)
    requires p + 3 <= |s|
    requires LetterAt(s, p, 'X', ignoreCase) && LetterAt(s, p + 1, 'I', ignoreCase)
             && LetterAt(s, p + 2, 'I', ignoreCase)
    requires TailOccurrence(s, p + 3, a, b, c, d)
    ensures XiiMatchAt(s, p, ignoreCase).Some? && XiiMatchAt(s, p, ignoreCase).value >= d
  {
    XiiTailComplete(s, p + 3, a, b, c, d);
  }

  /** `re.search` for the XII pattern from position `from`: the leftmost match. */
  function SearchXii(s: string, from: nat, ignoreCase: bool): (m: Option<(nat, nat)>)
    ensures m.Some? ==> from <= m.value.0 <= m.value.1 <= |s|
    decreases |s| - from
  {
    if from + 3 > |s| then None
    else match XiiMatchAt(s, from, ignoreCase)
      case Some(e) => Some((from, e))
      case None => SearchXii(s, from + 1, ignoreCase)
  }

  /** No position in `[lo, hi)` starts a match of the XII pattern. */
  predicate NoXiiIn(s: string, lo: nat, hi: nat, ignoreCase: bool)
    decreases hi - lo
  {
    lo >= hi || (XiiMatchAt(s, lo, ignoreCase).None? && NoXiiIn(s, lo + 1, hi, ignoreCase))
  }

  lemma {:induction false} NoXiiInMeansNone(s: string, lo: nat, hi: nat, ignoreCase: bool)
    requires NoXiiIn(s, lo, hi, ignoreCase)
    ensures forall k :: lo <= k < hi ==> XiiMatchAt(s, k, ignoreCase).None?
    decreases hi - lo
  {
    if lo < hi {
      NoXiiInMeansNone(s, lo + 1, hi, ignoreCase);
    }
  }

  /** Near the end of the text there is no room for "XII" and a digit. */
  lemma {:induction false} NoXiiNearEnd(s: string, lo: nat, ignoreCase: bool)
    requires lo + 3 > |s|
    ensures NoXiiIn(s, lo, |s|, ignoreCase)
    decreases |s| - lo
  {
    if lo < |s| {
      NoXiiNearEnd(s, lo + 1, ignoreCase);
    }
  }

  lemma {:induction false} SearchXiiSteps(s: string, from: nat, ignoreCase: bool)
    ensures SearchXii(s, from, ignoreCase).Some? ==>
              && XiiMatchAt(s, SearchXii(s, from, ignoreCase).value.0, ignoreCase)
                 == Some(SearchXii(s, from, ignoreCase).value.1)
              && NoXiiIn(s, from, SearchXii(s, from, ignoreCase).value.0, ignoreCase)
    ensures SearchXii(s, from, ignoreCase).None? ==> NoXiiIn(s, from, |s|, ignoreCase)
    decreases |s| - from
  {
    if from + 3 > |s| {
      NoXiiNearEnd(s, from, ignoreCase);
    } else if XiiMatchAt(s, from, ignoreCase).None? {
      SearchXiiSteps(s, from + 1, ignoreCase);
    }
  }

  /** The search finds a match, and no match starts between `from` and it; when it
      finds none, no position from `from` on starts a match. */
  lemma SearchXiiLeftmost(s: string, from: nat, ignoreCase: bool)
    ensures SearchXii(s, from, ignoreCase).Some? ==>
              && XiiMatchAt(s, SearchXii(s, from, ignoreCase).value.0, ignoreCase)
                 == Some(SearchXii(s, from, ignoreCase).value.1)
              && forall k :: from <= k < SearchXii(s, from, ignoreCase).value.0 ==> XiiMatchAt(s, k, ignoreCase).None?
    ensures SearchXii(s, from, ignoreCase).None? ==>
              forall k :: from <= k ==> XiiMatchAt(s, k, ignoreCase).None?
  {
    SearchXiiSteps(s, from, ignoreCase);
    match SearchXii(s, from, ignoreCase)
    case Some((i, _)) =>
      NoXiiInMeansNone(s, from, i, ignoreCase);
    case None =>
      NoXiiInMeansNone(s, from, |s|, ignoreCase);
      forall k | from <= k && |s| <= k ensures XiiMatchAt(s, k, ignoreCase).None? {
        if XiiMatchAt(s, k, ignoreCase).Some? {
          assert false;
        }
      }
  }

  /** When some position from `from` on starts a match, the search finds one, no
      later than that position. */
  lemma SearchXiiFinds(s: string, from: nat, p: nat, ignoreCase: bool)
    requires from <= p && XiiMatchAt(s, p, ignoreCase).Some?
    ensures SearchXii(s, from, ignoreCase).Some? && SearchXii(s, from, ignoreCase).value.0 <= p
  {
    SearchXiiLeftmost(s, from, ignoreCase);
  }

  /** The first newline at or after `q`, or the end of the text. */
  function LineEnd(s: string, q: nat): (e: nat)
    requires q <= |s|
    ensures q <= e <= |s|
    ensures forall k :: q <= k < e ==> s[k] != '\n'
    ensures e == |s| || s[e] == '\n'
    decreases |s| - q
  {
    if q < |s| && s[q] != '\n' then LineEnd(s, q + 1) else q
  }

  /** `.*?` followed by the XII pattern, from `q`: the first position on the same
      line where the XII pattern matches. */
  function LazyXii(s: string, q: nat): (m: Option<(nat, nat)>)
    requires q <= |s|
    ensures m.Some? ==> q <= m.value.0 <= m.value.1 <= |s|
    decreases |s| - q
  {
    match XiiMatchAt(s, q, false)
    case Some(e) => Some((q, e))
    case None => if q < |s| && s[q] != '\n' then LazyXii(s, q + 1) else None
  }

  /** The lazy search stops at the first position of the line where the pattern
      matches; when it finds none, no position of the line starts a match. */
  lemma {:induction false} LazyXiiFirstOnLine(s: string, q: nat)
    requires q <= |s|
    ensures LazyXii(s, q).Some? ==>
              && LazyXii(s, q).value.0 <= LineEnd(s, q)
              && XiiMatchAt(s, LazyXii(s, q).value.0, false) == Some(LazyXii(s, q).value.1)
              && NoXiiIn(s, q, LazyXii(s, q).value.0, false)
    ensures LazyXii(s, q).None? ==> NoXiiIn(s, q, LineEnd(s, q) + 1, false)
    decreases |s| - q
  {
    if XiiMatchAt(s, q, false).None? && q < |s| && s[q] != '\n' {
      LazyXiiFirstOnLine(s, q + 1);
    }
  }

  /** The span of group 1 of `KELAS\s+.*?(XII\s*[-_]?\s*\d+)` anchored at `p`. */
  function KelasMatchAt(s: string, p: nat): (m: Option<(nat, nat)>)
    ensures m.Some? ==> p + 6 <= m.value.0 <= m.value.1 <= |s|
  {
    if OccursAt(s, "KELAS", p) && p + 5 < |s| && IsSpace(s[p + 5]) then
      var q := SpaceRunEnd(s, p + 5);
      LazyXii(s, q)
    else None
  }

  /** `s[p..]` starts with a string of `KELAS\s+.*?` followed by a match of the XII
      pattern at `x`: "KELAS", whitespace `[p + 5, w)` (at least one character),
      then a stretch `[w, x)` without a newline. */
  predicate KelasOccurrence(s: string, p: nat, w: nat, x: nat)
  {
    && OccursAt(s, "KELAS", p) && p + 5 < w <= x <= |s|
    && (forall k :: p + 5 <= k < w ==> IsSpace(s[k]))
    && (forall k :: w <= k < x ==> s[k] != '\n')
    && XiiMatchAt(s, x, false).Some?
  }

  /** A match is "KELAS", the whitespace run, then on the same line a match of the
      XII pattern, which is group 1. */
  lemma KelasMatchShape(s: string, p: nat)
    requires KelasMatchAt(s, p).Some?
    ensures OccursAt(s, "KELAS", p) && p + 5 < |s| && IsSpace(s[p + 5])
    ensures XiiMatchAt(s, KelasMatchAt(s, p).value.0, false) == Some(KelasMatchAt(s, p).value.1)
    ensures SpaceRunEnd(s, p + 5) <= KelasMatchAt(s, p).value.0
    ensures forall k :: p + 5 <= k < SpaceRunEnd(s, p + 5) ==> IsSpace(s[k])
    ensures forall k :: SpaceRunEnd(s, p + 5) <= k < KelasMatchAt(s, p).value.0 ==> s[k] != '\n'
    ensures KelasOccurrence(s, p, SpaceRunEnd(s, p + 5), KelasMatchAt(s, p).value.0)
  {
    LazyXiiFirstOnLine(s, SpaceRunEnd(s, p + 5));
  }

  /** Every occurrence of the KELAS pattern at `p` is matched, with group 1 starting
      no later than the occurrence's XII part. */
  lemma KelasMatchComplete(s: string, p: nat, w: nat, x: nat)
    requires KelasOccurrence(s, p, w, x)
    ensures KelasMatchAt(s, p).Some? && KelasMatchAt(s, p).value.0 <= x
  {
    var q := SpaceRunEnd(s, p + 5);
    SpaceRunAtLeast(s, p + 5, w);
    assert q <= x;
    assert LineEnd(s, q) >= x;
    LazyXiiFirstOnLine(s, q);
    if LazyXii(s, q).None? {
      NoXiiInMeansNone(s, q, LineEnd(s, q) + 1, false);
      assert false;
    }
    assert LazyXii(s, q).value.0 <= x by {
      if LazyXii(s, q).value.0 > x {
        NoXiiInMeansNone(s, q, LazyXii(s, q).value.0, false);
      }
    }
  }

  /** `re.search` for the KELAS pattern from `from`: group 1 of the leftmost match. */
  function SearchKelas(s: string, from: nat): (m: Option<(nat, nat)>)
    ensures m.Some? ==> from + 6 <= m.value.0 <= m.value.1 <= |s|
    decreases |s| - from
  {
    if from + 5 > |s| then None
    else match KelasMatchAt(s, from)
      case Some(g) => Some(g)
      case None => SearchKelas(s, from + 1)
  }

  /** The search returns group 1 of the leftmost match, or nothing when no position
      from `from` on matches. */
  lemma {:induction false} SearchKelasLeftmost(s: string, from: nat)
    ensures SearchKelas(s, from).Some? ==>
              exists p :: from <= p && KelasMatchAt(s, p) == SearchKelas(s, from)
                          && forall k :: from <= k < p ==> KelasMatchAt(s, k).None?
    ensures SearchKelas(s, from).None? ==> forall p :: from <= p ==> KelasMatchAt(s, p).None?
    decreases |s| - from
  {
    if from + 5 > |s| {
      forall p | from <= p ensures KelasMatchAt(s, p).None? {
        assert !OccursAt(s, "KELAS", p);
      }
    } else if KelasMatchAt(s, from).None? {
      SearchKelasLeftmost(s, from + 1);
      if SearchKelas(s, from).Some? {
        var p :| from + 1 <= p && KelasMatchAt(s, p) == SearchKelas(s, from)
                 && forall k :: from + 1 <= k < p ==> KelasMatchAt(s, k).None?;
        assert forall k :: from <= k < p ==> KelasMatchAt(s, k).None?;
      }
    } else {
      assert KelasMatchAt(s, from) == SearchKelas(s, from);
    }
  }

  /** When some position from `from` on starts a match, the search finds one. */
  lemma SearchKelasFinds(s: string, from: nat, p: nat)
    requires from <= p && KelasMatchAt(s, p).Some?
    ensures SearchKelas(s, from).Some?
  {
    SearchKelasLeftmost(s, from);
  }

  /** The character `re.sub(r'[- ]', '_', ...)` leaves in place of `c`. */
  function UnderscoreChar(c: char): char
  {
    if c == '-' || c == ' ' then '_' else c
  }

  /** `re.sub(r'[- ]', '_', raw)`. */
  function Underscored(raw: string): string
  {
    seq(|raw|, i requires 0 <= i < |raw| => UnderscoreChar(raw[i]))
  }

  /** Step 1: the tag found in the file name, searched ignoring case. */
  function FromFilename(filename: string): Option<string>
  {
    match SearchXii(filename, 0, true)
    case Some((i, e)) => Some(Underscored(UpperStr(filename[i..e])))
    case None => None
  }

  /** What five calls of `readline` return: the first five lines, then empty strings. */
  function HeadLines(lines: seq<string>): (h: seq<string>)
  {
    seq(5, k requires 0 <= k < 5 => if k < |lines| then lines[k] else "")
  }

  /** Step 2: the tag found in the first five lines, joined by spaces and upper-cased. */
  function FromContent(lines: seq<string>): Option<string>
  {
    var text := UpperStr(Join(" ", HeadLines(lines)));
    match SearchKelas(text, 0)
    case Some((i, e)) => Some(Underscored(text[i..e]))
    case None => None
  }

  /** The characters that may follow "XII" in a tag. */
  predicate TagChar(c: char)
  {
    c == '_' || IsDigit(c) || (IsSpace(c) && c != ' ')
  }

  /** A tag is the sentinel, or "XII" followed by separators and ending in a digit. */
  predicate IsClassTag(t: string)
  {
    t == DefaultTag
    || (|t| >= 4 && t[..3] == "XII" && IsDigit(t[|t| - 1]) && forall k :: 3 <= k < |t| ==> TagChar(t[k]))
  }

  /** `detect_class_smart(file_path, filename)`; `content` is `None` when the file
      cannot be opened, otherwise its lines as `readline` returns them. */
  function DetectClass(filename: string, content: Option<seq<string>>): (tag: string)
    ensures IsClassTag(tag)
  {
    match FromFilename(filename)
    case Some(t) =>
      FilenameTagShape(filename);
      t
    case None =>
      match content
      case None => DefaultTag
      case Some(lines) =>
        match FromContent(lines)
        case Some(t) =>
          ContentTagShape(lines);
          t
        case None => DefaultTag
  }

  // ---------------------------------------------------------------------
  // Properties
  // ---------------------------------------------------------------------

  /** A character of a match after "XII" becomes a tag character, a digit staying a digit. */
  lemma SeparatorBecomesTagChar(c: char)
    requires SeparatorChar(c)
    ensures TagChar(UnderscoreChar(Upper(c)))
    ensures IsDigit(c) ==> IsDigit(UnderscoreChar(Upper(c)))
  {
    UpperKeepsNonLetters(c);
  }

  /** The underscored, upper-cased text of a match of the XII pattern is a
      well-formed tag. */
  lemma MatchTagShape(s: string, i: nat, e: nat, ignoreCase: bool)
    requires XiiMatchAt(s, i, ignoreCase) == Some(e)
    ensures IsClassTag(Underscored(UpperStr(s[i..e])))
    ensures |Underscored(UpperStr(s[i..e]))| >= 3 && Underscored(UpperStr(s[i..e]))[..3] == "XII"
  {
    XiiMatchShape(s, i, ignoreCase);
    var u := UpperStr(s[i..e]);
    var t := Underscored(u);
    assert u[0] == Upper(s[i]) && u[1] == Upper(s[i + 1]) && u[2] == Upper(s[i + 2]);
    assert t[0] == 'X' && t[1] == 'I' && t[2] == 'I';
    forall k | 3 <= k < |t| ensures TagChar(t[k]) {
      assert u[k] == Upper(s[i + k]);
      SeparatorBecomesTagChar(s[i + k]);
    }
    assert u[|t| - 1] == Upper(s[e - 1]);
    SeparatorBecomesTagChar(s[e - 1]);
    assert t[..3] == "XII";
    NotDefault(t);
  }

  lemma FilenameTagShape(filename: string)
    requires FromFilename(filename).Some?
    ensures IsClassTag(FromFilename(filename).value)
    ensures |FromFilename(filename).value| >= 3 && FromFilename(filename).value[..3] == "XII"
  {
    var m := SearchXii(filename, 0, true).value;
    SearchXiiLeftmost(filename, 0, true);
    MatchTagShape(filename, m.0, m.1, true);
  }

  lemma ContentTagShape(lines: seq<string>)
    requires FromContent(lines).Some?
    ensures IsClassTag(FromContent(lines).value)
    ensures |FromContent(lines).value| >= 3 && FromContent(lines).value[..3] == "XII"
  {
    var text := UpperStr(Join(" ", HeadLines(lines)));
    var m := SearchKelas(text, 0).value;
    SearchKelasLeftmost(text, 0);
    var p :| 0 <= p && KelasMatchAt(text, p) == Some(m) && forall k :: 0 <= k < p ==> KelasMatchAt(text, k).None?;
    KelasMatchShape(text, p);
    UpperIdempotent(Join(" ", HeadLines(lines)));
    MatchTagShape(text, m.0, m.1, false);
    assert UpperStr(text[m.0..m.1]) == text[m.0..m.1] by {
      UpperSlice(text, m.0, m.1);
    }
  }

  lemma UpperIdempotent(s: string)
    ensures UpperStr(UpperStr(s)) == UpperStr(s)
  {
  }

  /** A tag holds neither a space nor a `'|'`: so neither can be confused with the
      payload's field separator. */
  lemma TagHasNoSpaceOrBar(t: string)
    requires IsClassTag(t)
    ensures forall k :: 0 <= k < |t| ==> t[k] != ' ' && t[k] != '|' && t[k] != '-'
  {
    if t != DefaultTag {
      forall k | 0 <= k < |t| ensures t[k] != ' ' && t[k] != '|' && t[k] != '-' {
        if k < 3 {
          assert t[k] == t[..3][k];
        }
      }
    }
  }

  /** A match in the file name decides the tag whatever the content says. */
  lemma FilenameTakesPriority(filename: string, c1: Option<seq<string>>, c2: Option<seq<string>>)
    requires FromFilename(filename).Some?
    ensures DetectClass(filename, c1) == DetectClass(filename, c2) == FromFilename(filename).value
  {
  }

  /** The sentinel comes out exactly when neither the file name nor the content matches. */
  lemma DefaultExactlyWhenNoMatch(filename: string, content: Option<seq<string>>)
    ensures DetectClass(filename, content) == DefaultTag
            <==> FromFilename(filename).None? && (content.None? || FromContent(content.value).None?)
  {
    var tag := DetectClass(filename, content);
    if FromFilename(filename).Some? {
      var t := FromFilename(filename).value;
      assert tag == t;
      FilenameTagShape(filename);
      NotDefault(t);
    } else if content.Some? && FromContent(content.value).Some? {
      var t := FromContent(content.value).value;
      assert tag == t;
      ContentTagShape(content.value);
      NotDefault(t);
    }
  }

  lemma NotDefault(t: string)
    requires |t| >= 3 && t[..3] == "XII"
    ensures t != DefaultTag
  {
    assert t[0] == 'X';
  }

  /** Only the first five lines are read: lines after them never change the tag. */
  lemma OnlyFirstFiveLines(filename: string, lines: seq<string>, more: seq<string>)
    requires |lines| >= 5
    ensures DetectClass(filename, Some(lines + more)) == DetectClass(filename, Some(lines))
  {
    assert HeadLines(lines + more) == HeadLines(lines);
  }

  // The case-insensitive search agrees with a literal search of the upper-cased text.

  lemma {:induction false} SpaceRunIgnoresCase(s: string, k: nat)
    requires k <= |s|
    ensures SpaceRunEnd(UpperStr(s), k) == SpaceRunEnd(s, k)
    decreases |s| - k
  {
    if k < |s| {
      UpperKeepsNonLetters(s[k]);
      SpaceRunIgnoresCase(s, k + 1);
    }
  }

  lemma {:induction false} DigitRunIgnoresCase(s: string, k: nat)
    requires k <= |s|
    ensures DigitRunEnd(UpperStr(s), k) == DigitRunEnd(s, k)
    decreases |s| - k
  {
    if k < |s| {
      UpperKeepsNonLetters(s[k]);
      DigitRunIgnoresCase(s, k + 1);
    }
  }

  lemma OptionalDashIgnoresCase(s: string, a: nat)
    requires a <= |s|
    ensures OptionalDash(UpperStr(s), a) == OptionalDash(s, a)
  {
    if a < |s| {
      UpperKeepsNonLetters(s[a]);
      assert UpperStr(s)[a] == Upper(s[a]);
    }
  }

  lemma XiiTailIgnoresCase(s: string, k: nat)
    requires k <= |s|
    ensures XiiTail(UpperStr(s), k) == XiiTail(s, k)
  {
    SpaceRunIgnoresCase(s, k);
    var a := SpaceRunEnd(s, k);
    OptionalDashIgnoresCase(s, a);
    var b := OptionalDash(s, a);
    SpaceRunIgnoresCase(s, b);
    DigitRunIgnoresCase(s, SpaceRunEnd(s, b));
  }

  lemma XiiMatchIgnoresCase(s: string, p: nat)
    ensures XiiMatchAt(s, p, true) == XiiMatchAt(UpperStr(s), p, false)
  {
    if p + 3 <= |s| {
      var u := UpperStr(s);
      assert u[p] == Upper(s[p]) && u[p + 1] == Upper(s[p + 1]) && u[p + 2] == Upper(s[p + 2]);
      XiiTailIgnoresCase(s, p + 3);
    }
  }

  lemma {:induction false} SearchXiiIgnoresCase(s: string, from: nat)
    ensures SearchXii(s, from, true) == SearchXii(UpperStr(s), from, false)
    decreases |s| - from
  {
    if from + 3 <= |s| {
      XiiMatchIgnoresCase(s, from);
      SearchXiiIgnoresCase(s, from + 1);
    }
  }

  /** File names that differ only in letter case give the same tag. */
  lemma FilenameIgnoresCase(f1: string, f2: string)
    requires UpperStr(f1) == UpperStr(f2)
    ensures FromFilename(f1) == FromFilename(f2)
  {
    SearchXiiIgnoresCase(f1, 0);
    SearchXiiIgnoresCase(f2, 0);
    match SearchXii(f1, 0, true)
    case Some((i, e)) =>
      UpperSlice(f1, i, e);
      UpperSlice(f2, i, e);
    case None =>
  }
}
