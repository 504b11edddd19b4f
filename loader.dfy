/**
 * The tabular source loader `smart_read_csv`: the scan that finds the header
 * line and the delimiter, and the hand-off of the file to the CSV parser.
 *
 * The parser itself (`pandas.read_csv`) is a parameter: given the header line's
 * index and the delimiter it returns the parsed table, or `None` when it raised.
 */
module Loader {
  import opened Options
  import opened Strings

  /** At most this many lines are examined for the header. */
  const ScanLimit: nat := 10

  /** A parsed table: its column names in file order and its rows in file order.
      A cell is `None` where pandas has a missing value (NaN), otherwise the text
      that `str()` gives for the parsed value. */
  datatype Table = Table(columns: seq<string>, rows: seq<seq<Option<string>>>)

  /** What the program returns when it cannot read a table: an empty DataFrame. */
  const EmptyTable: Table := Table([], [])

  /** The cell of column `k` in `row`; a row shorter than the header reads as
      missing there, as pandas fills short rows with NaN. */
  function CellAt(row: seq<Option<string>>, k: nat): Option<string>
  {
    if k < |row| then row[k] else None
  }

  datatype Header = Header(row: nat, delimiter: char)

  /** A header line: upper-cased, it contains "NAMA SISWA", or both "NAMA" and "NO"
      (substring tests, so "NOMOR" or "NAMANYA" also qualify). */
  predicate IsHeaderLine(line: string)
  {
    var u := UpperStr(line);
    Contains(u, "NAMA SISWA") || (Contains(u, "NAMA") && Contains(u, "NO"))
  }

  /** The delimiter of a header line: ';' when it has strictly more semicolons than
      commas, otherwise ','. */
  function DelimiterOf(line: string): (d: char)
    ensures d == ';' || d == ','
    ensures d == ';' <==> multiset(line)[';'] > multiset(line)[',']
  {
    CountIsMultiplicity(line, ';');
    CountIsMultiplicity(line, ',');
    if Count(line, ';') > Count(line, ',') then ';' else ','
  }

  /** Line `i` is the first header line among the first `ScanLimit` lines. */
  predicate IsFirstHeader(lines: seq<string>, i: nat)
  {
    i < |lines| && i < ScanLimit && IsHeaderLine(lines[i])
    && forall j :: 0 <= j < i ==> !IsHeaderLine(lines[j])
  }

  /** The first header line at or after `i` among the first `ScanLimit` lines. */
  function FirstHeaderFrom(lines: seq<string>, i: nat): (r: Option<nat>)
    ensures r.Some? ==> i <= r.value < |lines| && r.value < ScanLimit && IsHeaderLine(lines[r.value])
                        && forall j :: i <= j < r.value ==> !IsHeaderLine(lines[j])
    ensures r.None? ==> forall j :: i <= j < |lines| && j < ScanLimit ==> !IsHeaderLine(lines[j])
    decreases ScanLimit - i
  {
    if i >= |lines| || i >= ScanLimit then None
    else if IsHeaderLine(lines[i]) then Some(i)
    else FirstHeaderFrom(lines, i + 1)
  }

  /** Where the scan stops: the first header line, if any. */
  function FirstHeader(lines: seq<string>): Option<nat>
  {
    FirstHeaderFrom(lines, 0)
  }

  /** The scan finds line `i` exactly when `i` is the first header line. */
  lemma FirstHeaderIsFirst(lines: seq<string>, i: nat)
    ensures FirstHeader(lines) == Some(i) <==> IsFirstHeader(lines, i)
  {
    if IsFirstHeader(lines, i) {
      var r := FirstHeader(lines);
      assert r.Some?;
    }
  }

  /** What `smart_read_csv` returns: the parser's table for the first header line and
      its delimiter, or the empty table when the file cannot be opened, has no header
      line among its first lines, or the parser fails. */
  function TableOf(lines: Option<seq<string>>, parse: (nat, char) -> Option<Table>): Table
  {
    match lines
    case None => EmptyTable
    case Some(ls) =>
      match FirstHeader(ls)
      case None => EmptyTable
      case Some(i) =>
        match parse(i, DelimiterOf(ls[i]))
        case None => EmptyTable
        case Some(t) => t
  }

  /** The loader returns the parser's table whenever a first header line exists and
      the parser accepts it. */
  lemma TableOfParsed(lines: seq<string>, parse: (nat, char) -> Option<Table>, i: nat)
    requires IsFirstHeader(lines, i) && parse(i, DelimiterOf(lines[i])).Some?
    ensures TableOf(Some(lines), parse) == parse(i, DelimiterOf(lines[i])).value
  {
    FirstHeaderIsFirst(lines, i);
  }

  /** The scan of the first `ScanLimit` lines: the first header line and its delimiter. */
  method DetectHeader(lines: seq<string>) returns (h: Option<Header>)
    ensures h.None? <==> forall i :: 0 <= i < |lines| && i < ScanLimit ==> !IsHeaderLine(lines[i])
    ensures h.Some? ==> h.value.row < |lines| && h.value.row < ScanLimit
    ensures h.Some? ==> IsHeaderLine(lines[h.value.row])
    ensures h.Some? ==> forall j :: 0 <= j < h.value.row ==> !IsHeaderLine(lines[j])
    ensures h.Some? ==> h.value.delimiter == DelimiterOf(lines[h.value.row])
    ensures h.None? <==> FirstHeader(lines).None?
    ensures h.Some? ==> FirstHeader(lines) == Some(h.value.row)
  {
    h := None;
    var i := 0;
    while i < |lines| && i < ScanLimit
      invariant 0 <= i <= |lines|
      invariant i <= ScanLimit
      invariant forall j :: 0 <= j < i ==> !IsHeaderLine(lines[j])
      invariant FirstHeaderFrom(lines, i) == FirstHeader(lines)
    {
      if IsHeaderLine(lines[i]) {
        h := Some(Header(i, DelimiterOf(lines[i])));
        return;
      }
      i := i + 1;
    }
  }

  /** `smart_read_csv`: `lines` is `None` when the file cannot be opened. Without a
      header line among the first lines, or when the parser fails, the result is
      the empty table; otherwise it is what the parser returns for that header. */
  method ReadTable(lines: Option<seq<string>>, parse: (nat, char) -> Option<Table>) returns (t: Table)
    ensures lines.None? ==> t == EmptyTable
    ensures lines.Some? && (forall i :: 0 <= i < |lines.value| && i < ScanLimit ==> !IsHeaderLine(lines.value[i]))
            ==> t == EmptyTable
    ensures t != EmptyTable ==>
              lines.Some? &&
              exists i :: 0 <= i < |lines.value| && i < ScanLimit && IsHeaderLine(lines.value[i])
                          && (forall j :: 0 <= j < i ==> !IsHeaderLine(lines.value[j]))
                          && parse(i, DelimiterOf(lines.value[i])) == Some(t)
    ensures lines.Some? ==>
              forall i: nat :: IsFirstHeader(lines.value, i) && parse(i, DelimiterOf(lines.value[i])).Some?
                          ==> t == parse(i, DelimiterOf(lines.value[i])).value
    ensures t == TableOf(lines, parse)
  {
    if lines.None? {
      return EmptyTable;
    }
    var h := DetectHeader(lines.value);
    if h.None? {
      return EmptyTable;
    }
    var parsed := parse(h.value.row, h.value.delimiter);
    if parsed.None? {
      return EmptyTable;
    }
    t := parsed.value;
  }
}
