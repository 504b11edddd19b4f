/**
 * The record normaliser in `main`: drops rows without a name, computes each
 * row's roll number, filters out short names and repeated header rows, and
 * builds the QR payload "NAME | CLASS | NO" and the image's base file name.
 */
module Records {
  import opened Options
  import opened Strings
  import opened Loader
  import opened ClassTag

  /** One badge to render: the trimmed name, the roll number, the class tag (the
      folder), the text encoded in the QR code and the file name without ".png". */
  datatype Badge = Badge(name: string, number: string, tag: string, payload: string, fileName: string)

  /** A row that `dropna` kept, with its ORIGINAL position: `dropna` does not
      renumber the index that `iterrows` later reports. */
  datatype KeptRow = KeptRow(index: nat, row: seq<Option<string>>)

  // ---------------------------------------------------------------------
  // dropna(subset=[name column])
  // ---------------------------------------------------------------------

  function DropMissingNames(rows: seq<seq<Option<string>>>, nameCol: nat): (kept: seq<KeptRow>)
    ensures forall k :: 0 <= k < |kept| ==>
              kept[k].index < |rows| && kept[k].row == rows[kept[k].index]
              && CellAt(kept[k].row, nameCol).Some?
    ensures forall k, l :: 0 <= k < l < |kept| ==> kept[k].index < kept[l].index
    decreases |rows|
  {
    if rows == [] then []
    else
      var last := |rows| - 1;
      var prefix := DropMissingNames(rows[..last], nameCol);
      assert forall k :: 0 <= k < |prefix| ==> rows[..last][prefix[k].index] == rows[prefix[k].index];
      if CellAt(rows[last], nameCol).Some? then
        var kept := prefix + [KeptRow(last, rows[last])];
        assert kept[|prefix|].index == last;
        assert forall k :: 0 <= k < |prefix| ==> kept[k] == prefix[k];
        kept
      else prefix
  }

  /** `dropna` keeps every row whose name cell is present. */
  lemma {:induction false} DropMissingNamesKeepsNamed(rows: seq<seq<Option<string>>>, nameCol: nat, i: nat)
    requires i < |rows| && CellAt(rows[i], nameCol).Some?
    ensures exists k :: 0 <= k < |DropMissingNames(rows, nameCol)| && DropMissingNames(rows, nameCol)[k].index == i
    decreases |rows|
  {
    var last := |rows| - 1;
    var prefix := DropMissingNames(rows[..last], nameCol);
    if i == last {
      assert DropMissingNames(rows, nameCol)[|prefix|].index == i;
    } else {
      DropMissingNamesKeepsNamed(rows[..last], nameCol, i);
      var k :| 0 <= k < |prefix| && prefix[k].index == i;
      assert DropMissingNames(rows, nameCol)[k] == prefix[k];
    }
  }

  // ---------------------------------------------------------------------
  // The pieces of one record
  // ---------------------------------------------------------------------

  /** The roll number: with a number column and a present cell, the cell's text with
      every ".0" removed; otherwise the row's position among the table's data rows
      plus one, the row right after the header being at position 0. Either way
      zero-filled to width two, which never truncates. */
  function SequenceNumber(r: KeptRow, noCol: Option<nat>): string
  {
    if noCol.Some? && CellAt(r.row, noCol.value).Some? then
      ZFill(Replace(CellAt(r.row, noCol.value).value, ".0", ""), 2)
    else
      ZFill(NatToString(r.index + 1), 2)
  }

  /** The row filter: a trimmed name is kept unless it is empty, is the header text
      "NAMA SISWA" again, or is shorter than three characters. */
  predicate IsValidName(name: string)
  {
    !(name == [] || UpperStr(name) == "NAMA SISWA" || |name| < 3)
  }

  /** The class as shown in the payload: underscores become spaces. */
  function Label(tag: string): string
  {
    ReplaceChar(tag, '_', ' ')
  }

  function Payload(name: string, tag: string, number: string): string
  {
    UpperStr(name) + " | " + Label(tag) + " | " + number
  }

  /** The characters the file name keeps from a name. */
  predicate SafeChar(c: char)
  {
    IsAlnum(c) || c == ' ' || c == '_'
  }

  /** The name part of the file name: safe characters only, trimmed, spaces to '_'. */
  function SafeStem(name: string): string
  {
    ReplaceChar(Strip(Filter(name, SafeChar)), ' ', '_')
  }

  function FileName(number: string, name: string): string
  {
    number + "_" + SafeStem(name)
  }

  /** The badge for a trimmed name and a roll number, or nothing when the name
      filter rejects the name. */
  function MakeBadge(name: string, number: string, tag: string): Option<Badge>
  {
    if IsValidName(name) then Some(Badge(name, number, tag, Payload(name, tag, number), FileName(number, name)))
    else None
  }

  /** What the loop body makes of one kept row. */
  function RowBadge(r: KeptRow, nameCol: nat, noCol: Option<nat>, tag: string): Option<Badge>
    requires CellAt(r.row, nameCol).Some?
  {
    MakeBadge(Strip(CellAt(r.row, nameCol).value), SequenceNumber(r, noCol), tag)
  }

  predicate AllNamed(kept: seq<KeptRow>, nameCol: nat)
  {
    forall k :: 0 <= k < |kept| ==> CellAt(kept[k].row, nameCol).Some?
  }

  /** A row's contribution to the list of badges: its badge, or nothing. */
  function AsList(o: Option<Badge>): seq<Badge>
  {
    match o
    case Some(b) => [b]
    case None => []
  }

  /** The badges of the kept rows, in row order. */
  function Badges(kept: seq<KeptRow>, nameCol: nat, noCol: Option<nat>, tag: string): seq<Badge>
    requires AllNamed(kept, nameCol)
  {
    if kept == [] then []
    else
      Badges(kept[..|kept| - 1], nameCol, noCol, tag) + AsList(RowBadge(kept[|kept| - 1], nameCol, noCol, tag))
  }

  lemma RowBadgeOf(r: KeptRow, nameCol: nat, noCol: Option<nat>, tag: string, name: string, number: string)
    requires CellAt(r.row, nameCol).Some?
    requires name == Strip(CellAt(r.row, nameCol).value) && number == SequenceNumber(r, noCol)
    ensures RowBadge(r, nameCol, noCol, tag) == MakeBadge(name, number, tag)
  {
  }

  lemma BadgesStep(kept: seq<KeptRow>, k: nat, nameCol: nat, noCol: Option<nat>, tag: string)
    requires AllNamed(kept, nameCol) && k < |kept|
    ensures AllNamed(kept[..k], nameCol) && AllNamed(kept[..k + 1], nameCol)
    ensures Badges(kept[..k + 1], nameCol, noCol, tag)
            == Badges(kept[..k], nameCol, noCol, tag)
               + AsList(RowBadge(kept[k], nameCol, noCol, tag))
  {
    assert kept[..k + 1][..k] == kept[..k];
  }

  /** The row loop of `main` for one table, up to the call of the renderer. */
  method Normalize(t: Table, nameCol: nat, noCol: Option<nat>, tag: string) returns (badges: seq<Badge>)
    ensures AllNamed(DropMissingNames(t.rows, nameCol), nameCol)
    ensures badges == Badges(DropMissingNames(t.rows, nameCol), nameCol, noCol, tag)
    ensures forall b :: b in badges ==> WellFormedBadge(b) && b.tag == tag
  {
    var kept := DropMissingNames(t.rows, nameCol);
    badges := [];
    var k := 0;
    while k < |kept|
      invariant 0 <= k <= |kept|
      invariant AllNamed(kept[..k], nameCol)
      invariant badges == Badges(kept[..k], nameCol, noCol, tag)
    {
      var row := kept[k].row;
      var name := Strip(CellAt(row, nameCol).value);
      var number := SequenceNumber(kept[k], noCol);
      ghost var next := Badges(kept[..k + 1], nameCol, noCol, tag);
      assert AllNamed(kept[..k + 1], nameCol) && next == badges + AsList(MakeBadge(name, number, tag)) by {
        BadgesStep(kept, k, nameCol, noCol, tag);
        RowBadgeOf(kept[k], nameCol, noCol, tag, name, number);
      }
      if !IsValidName(name) {
        k := k + 1;
        continue;
      }
      var payload := Payload(name, tag, number);
      var fileName := FileName(number, name);
      badges := badges + [Badge(name, number, tag, payload, fileName)];
      k := k + 1;
    }
    assert kept[..k] == kept;
    assert forall b :: b in badges ==> WellFormedBadge(b) && b.tag == tag by {
      AllBadgesWellFormed(kept, nameCol, noCol, tag);
    }
  }

  // ---------------------------------------------------------------------
  // Properties of the badges
  // ---------------------------------------------------------------------

  /** The badges of two runs of rows are those of the first run followed by those of
      the second: the rows are handled one at a time, in order. */
  lemma {:induction false} BadgesAppend(a: seq<KeptRow>, b: seq<KeptRow>, nameCol: nat, noCol: Option<nat>, tag: string)
    requires AllNamed(a, nameCol) && AllNamed(b, nameCol)
    ensures AllNamed(a + b, nameCol)
    ensures Badges(a + b, nameCol, noCol, tag) == Badges(a, nameCol, noCol, tag) + Badges(b, nameCol, noCol, tag)
    decreases |b|
  {
    assert forall k :: 0 <= k < |a + b| ==> (a + b)[k] == if k < |a| then a[k] else b[k - |a|];
    if b == [] {
      assert a + b == a;
    } else {
      var b' := b[..|b| - 1];
      assert (a + b)[..|a + b| - 1] == a + b';
      assert (a + b)[|a + b| - 1] == b[|b| - 1];
      BadgesAppend(a, b', nameCol, noCol, tag);
    }
  }

  /** A badge comes out exactly when it is what one of the kept rows yields. */
  lemma {:induction false} BadgesAreRowBadges(kept: seq<KeptRow>, nameCol: nat, noCol: Option<nat>, tag: string, b: Badge)
    requires AllNamed(kept, nameCol)
    ensures b in Badges(kept, nameCol, noCol, tag)
            <==> exists k :: 0 <= k < |kept| && RowBadge(kept[k], nameCol, noCol, tag) == Some(b)
    decreases |kept|
  {
    if kept != [] {
      var last := |kept| - 1;
      var prefix := kept[..last];
      assert AllNamed(prefix, nameCol);
      var rb := RowBadge(kept[last], nameCol, noCol, tag);
      assert b in Badges(kept, nameCol, noCol, tag) <==> b in Badges(prefix, nameCol, noCol, tag) || rb == Some(b) by {
        assert Badges(kept, nameCol, noCol, tag) == Badges(prefix, nameCol, noCol, tag) + AsList(rb);
      }
      BadgesAreRowBadges(prefix, nameCol, noCol, tag, b);
      assert b in Badges(kept, nameCol, noCol, tag)
             ==> exists k :: 0 <= k < |kept| && RowBadge(kept[k], nameCol, noCol, tag) == Some(b) by {
        if b in Badges(prefix, nameCol, noCol, tag) {
          var k :| 0 <= k < |prefix| && RowBadge(prefix[k], nameCol, noCol, tag) == Some(b);
          assert prefix[k] == kept[k];
          assert 0 <= k < |kept| && RowBadge(kept[k], nameCol, noCol, tag) == Some(b);
        } else if rb == Some(b) {
          assert 0 <= last < |kept| && RowBadge(kept[last], nameCol, noCol, tag) == Some(b);
        }
      }
      assert (exists k :: 0 <= k < |kept| && RowBadge(kept[k], nameCol, noCol, tag) == Some(b))
             ==> b in Badges(kept, nameCol, noCol, tag) by {
        if exists k :: 0 <= k < |kept| && RowBadge(kept[k], nameCol, noCol, tag) == Some(b) {
          var k :| 0 <= k < |kept| && RowBadge(kept[k], nameCol, noCol, tag) == Some(b);
          if k < last {
            assert prefix[k] == kept[k];
            assert RowBadge(prefix[k], nameCol, noCol, tag) == Some(b);
          } else {
            assert k == last;
          }
        }
      }
    }
  }

  /** What every badge satisfies: its trimmed name has at least three characters, no
      whitespace at either end and is not the header text; its roll number has at
      least two characters; the payload is "NAME | CLASS | NO" and the file name is
      the roll number and the safe stem of the name. */
  predicate WellFormedBadge(b: Badge)
  {
    && |b.name| >= 3 && !IsSpace(b.name[0]) && !IsSpace(b.name[|b.name| - 1])
    && UpperStr(b.name) != "NAMA SISWA"
    && |b.number| >= 2
    && b.payload == Payload(b.name, b.tag, b.number)
    && b.fileName == FileName(b.number, b.name)
  }

  /** A name without outer spaces yields a badge exactly when it passes the filter,
      and the badge is well formed. */
  lemma MakeBadgeWellFormed(name: string, number: string, tag: string)
    requires name != [] ==> !IsSpace(name[0]) && !IsSpace(name[|name| - 1])
    requires |number| >= 2
    ensures MakeBadge(name, number, tag).Some? <==> IsValidName(name)
    ensures MakeBadge(name, number, tag).Some? ==>
              var b := MakeBadge(name, number, tag).value;
              WellFormedBadge(b) && b.tag == tag && b.name == name && b.number == number
  {
  }

  /** A kept row yields a badge exactly when its trimmed name passes the filter; the
      badge carries that name, the row's roll number and the class tag. */
  lemma RowBadgeWellFormed(r: KeptRow, nameCol: nat, noCol: Option<nat>, tag: string)
    requires CellAt(r.row, nameCol).Some?
    ensures RowBadge(r, nameCol, noCol, tag).Some? <==> IsValidName(Strip(CellAt(r.row, nameCol).value))
    ensures RowBadge(r, nameCol, noCol, tag).Some? ==>
              var b := RowBadge(r, nameCol, noCol, tag).value;
              && WellFormedBadge(b) && b.tag == tag
              && b.name == Strip(CellAt(r.row, nameCol).value) && b.number == SequenceNumber(r, noCol)
  {
    var name := Strip(CellAt(r.row, nameCol).value);
    var number := SequenceNumber(r, noCol);
    StripEnds(CellAt(r.row, nameCol).value);
    MakeBadgeWellFormed(name, number, tag);
  }

  /** Every badge of a table is well formed and carries the class tag. */
  lemma AllBadgesWellFormed(kept: seq<KeptRow>, nameCol: nat, noCol: Option<nat>, tag: string)
    requires AllNamed(kept, nameCol)
    ensures forall b :: b in Badges(kept, nameCol, noCol, tag) ==> WellFormedBadge(b) && b.tag == tag
  {
    forall b | b in Badges(kept, nameCol, noCol, tag) ensures WellFormedBadge(b) && b.tag == tag {
      BadgesAreRowBadges(kept, nameCol, noCol, tag, b);
      var k :| 0 <= k < |kept| && RowBadge(kept[k], nameCol, noCol, tag) == Some(b);
      RowBadgeWellFormed(kept[k], nameCol, noCol, tag);
    }
  }

  /** Without a number column, or with its cell missing, the roll number is the row's
      original position plus one in decimal, with at least two digits. */
  lemma FallbackNumber(r: KeptRow, noCol: Option<nat>)
    requires noCol.None? || CellAt(r.row, noCol.value).None?
    ensures AllDigits(SequenceNumber(r, noCol)) && |SequenceNumber(r, noCol)| >= 2
    ensures DecimalValue(SequenceNumber(r, noCol)) == r.index + 1
  {
    NatToStringRoundTrip(r.index + 1);
    ZFillKeepsValue(NatToString(r.index + 1), 2);
  }

  /** A present number cell without ".0" and at least two characters long is used as
      it stands. */
  lemma CellNumberAsWritten(r: KeptRow, noCol: Option<nat>)
    requires noCol.Some? && CellAt(r.row, noCol.value).Some?
    requires !Contains(CellAt(r.row, noCol.value).value, ".0") && |CellAt(r.row, noCol.value).value| >= 2
    ensures SequenceNumber(r, noCol) == CellAt(r.row, noCol.value).value
  {
    ReplaceWithoutOccurrence(CellAt(r.row, noCol.value).value, ".0", "");
  }

  /** The class field of the payload holds no '_', and, as a class tag holds no
      `'|'`, no `'|'` either. */
  lemma LabelChars(tag: string)
    requires IsClassTag(tag)
    ensures forall k :: 0 <= k < |Label(tag)| ==> Label(tag)[k] != '_' && Label(tag)[k] != '|'
  {
    TagHasNoSpaceOrBar(tag);
  }

  /** Splitting the payload at " | " gives back the upper-cased name, the class label
      and the roll number, provided the name holds no " | " and does not end in " |",
      and the number holds no " | ". */
  lemma PayloadSplits(name: string, tag: string, number: string)
    requires !Contains(name + " |", " | ")
    requires IsClassTag(tag)
    requires !Contains(number, " | ")
    ensures Split(Payload(name, tag, number), " | ") == [UpperStr(name), Label(tag), number]
  {
    var u := UpperStr(name);
    var l := Label(tag);
    UpperKeepsSeparator(name + " |");
    assert UpperStr(name + " |") == u + " |";
    LabelChars(tag);
    NoBarNoSeparator(l);
    assert " | "[..2] == " |";
    SplitWithoutSeparator(number, " | ");
    SplitAtFirstSeparator(l, number, " | ");
    assert Payload(name, tag, number) == u + " | " + (l + " | " + number);
    SplitAtFirstSeparator(u, l + " | " + number, " | ");
  }

  /** Under the same conditions two payloads are equal exactly when the upper-cased
      names, the class tags and the roll numbers are: a payload never confuses two
      classes. */
  lemma PayloadDetermines(n1: string, t1: string, r1: string, n2: string, t2: string, r2: string)
    requires !Contains(n1 + " |", " | ") && IsClassTag(t1) && !Contains(r1, " | ")
    requires !Contains(n2 + " |", " | ") && IsClassTag(t2) && !Contains(r2, " | ")
    ensures Payload(n1, t1, r1) == Payload(n2, t2, r2) <==> UpperStr(n1) == UpperStr(n2) && t1 == t2 && r1 == r2
  {
    if Payload(n1, t1, r1) == Payload(n2, t2, r2) {
      PayloadSplits(n1, t1, r1);
      PayloadSplits(n2, t2, r2);
      var p1 := [UpperStr(n1), Label(t1), r1];
      var p2 := [UpperStr(n2), Label(t2), r2];
      assert p1 == p2;
      assert p1[0] == p2[0] && p1[1] == p2[1] && p1[2] == p2[2];
      TagHasNoSpaceOrBar(t1);
      TagHasNoSpaceOrBar(t2);
      ReplaceCharInjective(t1, t2, '_', ' ');
    }
  }

  /** `l + " | " + r` determines `l` and `r` when `l` holds no `'|'`: the first `'|'`
      is the separator's. */
  lemma LabelThenNumber(l1: string, r1: string, l2: string, r2: string)
    requires forall k :: 0 <= k < |l1| ==> l1[k] != '|'
    requires forall k :: 0 <= k < |l2| ==> l2[k] != '|'
    requires l1 + " | " + r1 == l2 + " | " + r2
    ensures l1 == l2 && r1 == r2
  {
    var x := l1 + " | " + r1;
    assert x[|l1| + 1] == '|';
    assert x[|l2| + 1] == '|';
    assert |l1| == |l2|;
    assert l1 == x[..|l1|] == l2;
    assert r1 == x[|l1| + 3..] == r2;
  }

  /** For one and the same name, two payloads are equal exactly when the class tags
      and the roll numbers are, whatever the name and the number hold: two classes
      never share a payload. */
  lemma SameNameDistinct(n: string, t1: string, r1: string, t2: string, r2: string)
    requires IsClassTag(t1) && IsClassTag(t2)
    ensures Payload(n, t1, r1) == Payload(n, t2, r2) <==> t1 == t2 && r1 == r2
  {
    if Payload(n, t1, r1) == Payload(n, t2, r2) {
      var u := UpperStr(n) + " | ";
      var y1 := Label(t1) + " | " + r1;
      var y2 := Label(t2) + " | " + r2;
      assert Payload(n, t1, r1) == u + y1;
      assert Payload(n, t2, r2) == u + y2;
      assert y1 == (u + y1)[|u|..] == (u + y2)[|u|..] == y2;
      LabelChars(t1);
      LabelChars(t2);
      LabelThenNumber(Label(t1), r1, Label(t2), r2);
      TagHasNoSpaceOrBar(t1);
      TagHasNoSpaceOrBar(t2);
      ReplaceCharInjective(t1, t2, '_', ' ');
    }
  }

  /** The stem of the file name holds letters, digits and '_' only: no space and no
      path separator. */
  lemma SafeStemIsSafe(name: string)
    ensures forall k :: 0 <= k < |SafeStem(name)| ==> IsAlnum(SafeStem(name)[k]) || SafeStem(name)[k] == '_'
    ensures forall k :: 0 <= k < |SafeStem(name)| ==> SafeStem(name)[k] !in " /\\."
  {
    var f := Filter(name, SafeChar);
    var r := Strip(f);
    StripIsInfix(f);
    var i :| 0 <= i && InfixWithin(f, r, i);
    forall k | 0 <= k < |r| ensures SafeChar(r[k]) {
      assert r[k] == f[i + k];
    }
  }

  /** The stem keeps every letter and digit of the name, in order. */
  lemma SafeStemKeepsAlnum(name: string)
    ensures Filter(SafeStem(name), IsAlnum) == Filter(name, IsAlnum)
  {
    var f := Filter(name, SafeChar);
    FilterReplaceChar(Strip(f), ' ', '_', IsAlnum);
    FilterStrip(f, IsAlnum);
    FilterNarrower(name, SafeChar, IsAlnum);
  }

  /** The roll number is not sanitised: a number cell used as it stands, such as
      "1/2", opens the file name unchanged, '/' and all. */
  lemma NumberCellInFileName(r: KeptRow, noCol: Option<nat>, name: string)
    requires noCol.Some? && CellAt(r.row, noCol.value).Some?
    requires !Contains(CellAt(r.row, noCol.value).value, ".0") && |CellAt(r.row, noCol.value).value| >= 2
    ensures var cell := CellAt(r.row, noCol.value).value;
            var f := FileName(SequenceNumber(r, noCol), name);
            |cell| < |f| && f[..|cell|] == cell && f[|cell|] == '_'
  {
    CellNumberAsWritten(r, noCol);
  }

  /** With a number made of digits, the whole file name holds letters, digits and
      '_' only. */
  lemma FileNameIsSafe(number: string, name: string)
    requires AllDigits(number)
    ensures forall k :: 0 <= k < |FileName(number, name)| ==> IsAlnum(FileName(number, name)[k]) || FileName(number, name)[k] == '_'
  {
    SafeStemIsSafe(name);
    var f := FileName(number, name);
    forall k | 0 <= k < |f| ensures IsAlnum(f[k]) || f[k] == '_' {
      if k < |number| {
        assert f[k] == number[k];
      } else if k > |number| {
        assert f[k] == SafeStem(name)[k - |number| - 1];
      }
    }
  }

  /** A name of safe characters that begins and ends with a letter or digit
      passes the character filter and the trimming untouched. */
  lemma SafeNameKept(n: string)
    requires forall k :: 0 <= k < |n| ==> SafeChar(n[k])
    requires n != [] ==> IsAlnum(n[0]) && IsAlnum(n[|n| - 1])
    ensures Strip(Filter(n, SafeChar)) == n
  {
    FilterAllKept(n, SafeChar);
    StripWithoutOuterSpace(n);
  }

  /** Two words of letters and digits, one space apart, make a safe name. */
  lemma TwoWordsSafe(first: string, last: string)
    requires forall k :: 0 <= k < |first| ==> IsAlnum(first[k])
    requires forall k :: 0 <= k < |last| ==> IsAlnum(last[k])
    ensures forall k :: 0 <= k < |first + " " + last| ==> SafeChar((first + " " + last)[k])
  {
    var n := first + " " + last;
    forall k | 0 <= k < |n| ensures SafeChar(n[k]) {
      if k < |first| {
        assert n[k] == first[k];
      } else if k > |first| {
        assert n[k] == last[k - |first| - 1];
      }
    }
  }

  /** Replacing the one space between two words by '_'. */
  lemma TwoWordsJoined(first: string, last: string)
    requires forall k :: 0 <= k < |first| ==> IsAlnum(first[k])
    requires forall k :: 0 <= k < |last| ==> IsAlnum(last[k])
    ensures ReplaceChar(first + " " + last, ' ', '_') == first + "_" + last
  {
    var n := first + " " + last;
    var r := ReplaceChar(n, ' ', '_');
    forall k | 0 <= k < |n| ensures r[k] == (first + "_" + last)[k] {
      if k < |first| {
        assert n[k] == first[k];
      } else if k > |first| {
        assert n[k] == last[k - |first| - 1];
      }
    }
  }

  /** A name of two words made of letters and digits, one space apart, keeps both
      words in its stem, joined by '_'. */
  lemma StemOfTwoWords(first: string, last: string)
    requires first != [] && last != []
    requires forall k :: 0 <= k < |first| ==> IsAlnum(first[k])
    requires forall k :: 0 <= k < |last| ==> IsAlnum(last[k])
    ensures SafeStem(first + " " + last) == first + "_" + last
  {
    var n := first + " " + last;
    TwoWordsSafe(first, last);
    assert n[0] == first[0] && n[|n| - 1] == last[|last| - 1];
    SafeNameKept(n);
    TwoWordsJoined(first, last);
  }
}
