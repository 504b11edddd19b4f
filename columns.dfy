/**
 * The column-role resolution in `main`: which column holds the student's name
 * and which holds the roll number, chosen from the column names in file order.
 * Roles are given as column positions; pandas keeps column names unique, so a
 * position names exactly one column.
 */
module Columns {
  import opened Options
  import opened Strings

  /** The upper-cased name contains both "NAMA" and "SISWA". */
  predicate IsCompoundNameColumn(col: string)
  {
    var u := UpperStr(col);
    Contains(u, "NAMA") && Contains(u, "SISWA")
  }

  /** The stripped, upper-cased name is exactly "NAMA". */
  predicate IsBareNameColumn(col: string)
  {
    UpperStr(Strip(col)) == "NAMA"
  }

  /** The stripped, upper-cased name is exactly "NO". */
  predicate IsNumberColumn(col: string)
  {
    UpperStr(Strip(col)) == "NO"
  }

  /** No column in `cols[lo..hi]` is a compound name column. */
  predicate NoCompoundIn(cols: seq<string>, lo: nat, hi: nat)
    requires lo <= hi <= |cols|
  {
    forall j :: lo <= j < hi ==> !IsCompoundNameColumn(cols[j])
  }

  /** No column in `cols[lo..hi]` is a bare "NAMA" column. */
  predicate NoBareIn(cols: seq<string>, lo: nat, hi: nat)
    requires lo <= hi <= |cols|
  {
    forall j :: lo <= j < hi ==> !IsBareNameColumn(cols[j])
  }

  /** The scan for `target_col` from column `i` on, with `acc` chosen so far. */
  function NameScan(cols: seq<string>, i: nat, acc: Option<nat>): Option<nat>
    requires i <= |cols|
    decreases |cols| - i
  {
    if i == |cols| then acc
    else if IsCompoundNameColumn(cols[i]) then Some(i)
    else NameScan(cols, i + 1, if IsBareNameColumn(cols[i]) then Some(i) else acc)
  }

  /** The name column `main` settles on, if any. */
  function NameColumnOf(cols: seq<string>): Option<nat>
  {
    NameScan(cols, 0, None)
  }

  /** The first column at or after `i` whose name is exactly "NO". */
  function NumberColumnFrom(cols: seq<string>, i: nat): (r: Option<nat>)
    requires i <= |cols|
    ensures r.None? <==> forall j :: i <= j < |cols| ==> !IsNumberColumn(cols[j])
    ensures r.Some? ==> i <= r.value < |cols| && IsNumberColumn(cols[r.value])
                        && forall j :: i <= j < r.value ==> !IsNumberColumn(cols[j])
    decreases |cols| - i
  {
    if i == |cols| then None
    else if IsNumberColumn(cols[i]) then Some(i)
    else NumberColumnFrom(cols, i + 1)
  }

  /** The number column `main` settles on, if any. */
  function NumberColumnOf(cols: seq<string>): Option<nat>
  {
    NumberColumnFrom(cols, 0)
  }

  /** The scan's choice: a compound column ends it; before one, a later bare column
      replaces an earlier choice. */
  lemma {:induction false} NameScanChoice(cols: seq<string>, i: nat, acc: Option<nat>)
    requires i <= |cols|
    requires acc.Some? ==> acc.value < i && IsBareNameColumn(cols[acc.value]) && NoBareIn(cols, acc.value + 1, i)
    requires acc.None? ==> NoBareIn(cols, 0, i)
    requires NoCompoundIn(cols, 0, i)
    ensures !NoCompoundIn(cols, 0, |cols|) ==>
              && NameScan(cols, i, acc).Some? && NameScan(cols, i, acc).value < |cols|
              && IsCompoundNameColumn(cols[NameScan(cols, i, acc).value])
              && NoCompoundIn(cols, 0, NameScan(cols, i, acc).value)
    ensures NoCompoundIn(cols, 0, |cols|) ==>
              && (NameScan(cols, i, acc).Some? <==> !NoBareIn(cols, 0, |cols|))
              && (NameScan(cols, i, acc).Some? ==>
                    NameScan(cols, i, acc).value < |cols| && IsBareNameColumn(cols[NameScan(cols, i, acc).value])
                    && NoBareIn(cols, NameScan(cols, i, acc).value + 1, |cols|))
    decreases |cols| - i
  {
    if i < |cols| && !IsCompoundNameColumn(cols[i]) {
      NameScanChoice(cols, i + 1, if IsBareNameColumn(cols[i]) then Some(i) else acc);
    }
  }

  /** The name column is the first compound column; without one, the last bare "NAMA"
      column; without either, none. */
  lemma NameColumnOfChoice(cols: seq<string>)
    ensures !NoCompoundIn(cols, 0, |cols|) ==>
              && NameColumnOf(cols).Some? && NameColumnOf(cols).value < |cols|
              && IsCompoundNameColumn(cols[NameColumnOf(cols).value])
              && NoCompoundIn(cols, 0, NameColumnOf(cols).value)
    ensures NoCompoundIn(cols, 0, |cols|) ==>
              && (NameColumnOf(cols).Some? <==> !NoBareIn(cols, 0, |cols|))
              && (NameColumnOf(cols).Some? ==>
                    NameColumnOf(cols).value < |cols| && IsBareNameColumn(cols[NameColumnOf(cols).value])
                    && NoBareIn(cols, NameColumnOf(cols).value + 1, |cols|))
  {
    NameScanChoice(cols, 0, None);
  }

  /** The loop that sets `target_col`: the first compound column stops the scan;
      before that every bare "NAMA" column overwrites the choice, so without a
      compound column the LAST bare "NAMA" column is chosen. */
  method ResolveNameColumn(cols: seq<string>) returns (r: Option<nat>)
    ensures !NoCompoundIn(cols, 0, |cols|) ==>
              && r.Some? && r.value < |cols| && IsCompoundNameColumn(cols[r.value])
              && NoCompoundIn(cols, 0, r.value)
    ensures NoCompoundIn(cols, 0, |cols|) ==>
              && (r.Some? <==> !NoBareIn(cols, 0, |cols|))
              && (r.Some? ==> r.value < |cols| && IsBareNameColumn(cols[r.value])
                              && NoBareIn(cols, r.value + 1, |cols|))
    ensures r == NameColumnOf(cols)
  {
    r := None;
    var i := 0;
    while i < |cols|
      invariant 0 <= i <= |cols|
      invariant NoCompoundIn(cols, 0, i)
      invariant r.None? ==> NoBareIn(cols, 0, i)
      invariant r.Some? ==> r.value < i && IsBareNameColumn(cols[r.value]) && NoBareIn(cols, r.value + 1, i)
      invariant NameScan(cols, i, r) == NameColumnOf(cols)
    {
      if IsCompoundNameColumn(cols[i]) {
        r := Some(i);
        return;
      } else if IsBareNameColumn(cols[i]) {
        r := Some(i);
      }
      i := i + 1;
    }
  }

  /** The loop that sets `no_col`: the first column whose name is exactly "NO". */
  method FindNumberColumn(cols: seq<string>) returns (r: Option<nat>)
    ensures r.None? <==> forall i :: 0 <= i < |cols| ==> !IsNumberColumn(cols[i])
    ensures r.Some? ==> r.value < |cols| && IsNumberColumn(cols[r.value])
                        && forall j :: 0 <= j < r.value ==> !IsNumberColumn(cols[j])
    ensures r == NumberColumnOf(cols)
  {
    r := None;
    var i := 0;
    while i < |cols|
      invariant 0 <= i <= |cols|
      invariant forall j :: 0 <= j < i ==> !IsNumberColumn(cols[j])
      invariant NumberColumnFrom(cols, i) == NumberColumnOf(cols)
    {
      if IsNumberColumn(cols[i]) {
        r := Some(i);
        return;
      }
      i := i + 1;
    }
  }

  /** A name like "NOMOR HP" is not the number column, and a bare "NAMA" column is
      never a compound one: the exact tests keep the roles apart. */
  lemma RolesAreDistinct(col: string)
    ensures IsNumberColumn(col) ==> !IsBareNameColumn(col)
    ensures IsNumberColumn(col) ==> !IsCompoundNameColumn(col)
  {
    if IsNumberColumn(col) {
      var c := Strip(col);
      StripIsInfix(col);
      var i :| 0 <= i && InfixWithin(col, c, i);
      var u := UpperStr(col);
      assert |c| == 2;
      forall j | 0 <= j <= |u| ensures !OccursAt(u, "NAMA", j) {
        if j + 4 <= |u| {
          if i <= j < i + 2 {
            assert IsSpace(col[j + 2]);
            UpperKeepsNonLetters(col[j + 2]);
            assert u[j..j + 4][2] == u[j + 2] != 'M';
          } else {
            assert IsSpace(col[j]);
            UpperKeepsNonLetters(col[j]);
            assert u[j..j + 4][0] == u[j] != 'N';
          }
        }
      }
    }
  }
}
