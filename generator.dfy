/**
 * The per-file body of `main`: the class tag, the table, the two column roles and
 * the badges of the rows, up to the point where each badge is rendered and saved.
 */
module Generator {
  import opened Options
  import opened Strings
  import opened ClassTag
  import opened Loader
  import opened Columns
  import opened Records

  /** The badges `main` makes from a parsed table: none without a name column,
      otherwise those of the rows that keep a name, numbered from the "NO" column when
      there is one. */
  function TableBadges(t: Table, tag: string): seq<Badge>
  {
    match NameColumnOf(t.columns)
    case None => []
    case Some(n) => Badges(DropMissingNames(t.rows, n), n, NumberColumnOf(t.columns), tag)
  }

  /** Every badge of a table is well formed and carries the class tag. */
  lemma TableBadgesWellFormed(t: Table, tag: string)
    ensures forall b :: b in TableBadges(t, tag) ==> WellFormedBadge(b) && b.tag == tag
  {
    if NameColumnOf(t.columns).Some? {
      var n := NameColumnOf(t.columns).value;
      AllBadgesWellFormed(DropMissingNames(t.rows, n), n, NumberColumnOf(t.columns), tag);
    }
  }

  /** A table whose columns name no student yields no badge, whatever its rows. */
  lemma NoNameColumnNoBadges(t: Table, tag: string)
    requires forall i :: 0 <= i < |t.columns| ==> !IsCompoundNameColumn(t.columns[i]) && !IsBareNameColumn(t.columns[i])
    ensures TableBadges(t, tag) == []
  {
    NameColumnOfChoice(t.columns);
  }

  /** One roster file. `lines` is `None` when the file cannot be opened, otherwise its
      lines as read; `parse` stands for `pandas.read_csv` on that file. `tag` is the
      folder the badges go to; without a name column the file is skipped and yields
      no badge. */
  method ProcessDocument(filename: string, lines: Option<seq<string>>, parse: (nat, char) -> Option<Table>)
    returns (tag: string, badges: seq<Badge>)
    ensures tag == DetectClass(filename, lines) && IsClassTag(tag)
    ensures lines.None? ==> badges == []
    ensures lines.Some? && (forall i :: 0 <= i < |lines.value| && i < ScanLimit ==> !IsHeaderLine(lines.value[i]))
            ==> badges == []
    ensures badges == TableBadges(TableOf(lines, parse), tag)
    ensures forall b :: b in badges ==> WellFormedBadge(b) && b.tag == tag
  {
    tag := DetectClass(filename, lines);
    var t := ReadTable(lines, parse);
    var nameCol := ResolveNameColumn(t.columns);
    if nameCol.None? {
      return tag, [];
    }
    var noCol := FindNumberColumn(t.columns);
    badges := Normalize(t, nameCol.value, noCol, tag);
  }
}
