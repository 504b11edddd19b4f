/**
 * Worked examples: concrete inputs worked out in the model, one behaviour each.
 */
module Examples {
  import opened Options
  import opened Strings
  import opened ClassTag
  import opened Loader
  import opened Records

  // ---------------------------------------------------------------------
  // The class tag
  // ---------------------------------------------------------------------

  lemma FilenameMatchAt()
    ensures XiiMatchAt("Daftar XII-3.csv", 7, true) == Some(12)
  {
    var f := "Daftar XII-3.csv";
    assert f[10] == '-' && f[11] == '3' && f[12] == '.';
    assert SpaceRunEnd(f, 10) == 10;
    assert OptionalDash(f, 10) == 11;
    assert SpaceRunEnd(f, 11) == 11;
    assert DigitRunEnd(f, 12) == 12;
    assert DigitRunEnd(f, 11) == 12;
  }

  lemma FilenameSearch()
    ensures SearchXii("Daftar XII-3.csv", 0, true) == Some((7, 12))
  {
    var f := "Daftar XII-3.csv";
    FilenameMatchAt();
    forall k | 0 <= k < 7 ensures XiiMatchAt(f, k, true).None? {
      assert Upper(f[k]) != 'X';
    }
    assert SearchXii(f, 7, true) == Some((7, 12));
    assert SearchXii(f, 6, true) == Some((7, 12));
    assert SearchXii(f, 5, true) == Some((7, 12));
    assert SearchXii(f, 4, true) == Some((7, 12));
    assert SearchXii(f, 3, true) == Some((7, 12));
    assert SearchXii(f, 2, true) == Some((7, 12));
    assert SearchXii(f, 1, true) == Some((7, 12));
  }

  /** "Daftar XII-3.csv" is filed under XII_3, whatever the file holds. */
  lemma TagFromFilename(content: Option<seq<string>>)
    ensures DetectClass("Daftar XII-3.csv", content) == "XII_3"
  {
    FilenameSearch();
    FilenameGroup();
  }

  lemma FilenameGroup()
    ensures Underscored(UpperStr("Daftar XII-3.csv"[7..12])) == "XII_3"
  {
    assert "Daftar XII-3.csv"[7..12] == "XII-3";
    assert UpperStr("XII-3") == "XII-3";
  }

  lemma NoTagInDataCsv()
    ensures SearchXii("data.csv", 0, true).None?
  {
    var f := "data.csv";
    forall k | 0 <= k < 6 ensures XiiMatchAt(f, k, true).None? {
      assert Upper(f[k]) != 'X';
    }
    assert SearchXii(f, 6, true).None?;
    assert SearchXii(f, 5, true).None?;
    assert SearchXii(f, 4, true).None?;
    assert SearchXii(f, 3, true).None?;
    assert SearchXii(f, 2, true).None?;
    assert SearchXii(f, 1, true).None?;
  }

  lemma ContentText()
    ensures UpperStr(Join(" ", HeadLines(["Kelas XII 2"]))) == "KELAS XII 2    "
  {
    var h := HeadLines(["Kelas XII 2"]);
    assert h == ["Kelas XII 2", "", "", "", ""];
    assert Join(" ", h) == "Kelas XII 2    ";
  }

  lemma ContentSearch()
    ensures SearchKelas("KELAS XII 2    ", 0) == Some((6, 11))
  {
    var t := "KELAS XII 2    ";
    assert OccursAt(t, "KELAS", 0);
    assert SpaceRunEnd(t, 5) == 6;
    assert SpaceRunEnd(t, 9) == 10;
    assert OptionalDash(t, 10) == 10;
    assert DigitRunEnd(t, 10) == 11;
    assert XiiMatchAt(t, 6, false) == Some(11);
    assert LazyXii(t, 6) == Some((6, 11));
  }

  lemma ContentGroup()
    ensures Underscored("KELAS XII 2    "[6..11]) == "XII_2"
  {
    assert "KELAS XII 2    "[6..11] == "XII 2";
  }

  lemma ContentTag()
    ensures FromContent(["Kelas XII 2"]) == Some("XII_2")
  {
    ContentText();
    ContentSearch();
    ContentGroup();
  }

  /** Without a tag in the file name, "KELAS XII 2" in the first lines gives XII_2. */
  lemma TagFromContent()
    ensures DetectClass("data.csv", Some(["Kelas XII 2"])) == "XII_2"
  {
    NoTagInDataCsv();
    assert FromFilename("data.csv").None?;
    ContentTag();
  }

  /** With neither, the file lands in the sentinel class. */
  lemma TagDefault()
    ensures DetectClass("data.csv", None) == DefaultTag
  {
    NoTagInDataCsv();
  }

  // ---------------------------------------------------------------------
  // The header line
  // ---------------------------------------------------------------------

  /** A semicolon-separated header line is a header line, with ';' as its delimiter. */
  lemma HeaderLineExample()
    ensures IsHeaderLine("No;Nama") && DelimiterOf("No;Nama") == ';'
  {
    HeaderLineIsHeader();
    HeaderLineCounts();
  }

  lemma HeaderLineIsHeader()
    ensures IsHeaderLine("No;Nama")
  {
    var u := UpperStr("No;Nama");
    assert u == "NO;NAMA";
    assert OccursAt(u, "NAMA", 3);
    assert OccursAt(u, "NO", 0);
  }

  lemma HeaderLineCounts()
    ensures Count("No;Nama", ';') == 1 && Count("No;Nama", ',') == 0
  {
    var h := "No;Nama";
    assert h[..6] == "No;Nam" && h[..5] == "No;Na" && h[..4] == "No;N";
    assert h[..3] == "No;" && h[..2] == "No" && h[..1] == "N";
    assert Count("N", ';') == 0 && Count("No", ';') == 0 && Count("No;", ';') == 1;
    assert "No;N"[..3] == "No;" && "No;Na"[..4] == "No;N" && "No;Nam"[..5] == "No;Na";
    assert Count("No;N", ';') == 1 && Count("No;Na", ';') == 1 && Count("No;Nam", ';') == 1;
    assert Count(h, ';') == 1;
    assert Count("N", ',') == 0 && Count("No", ',') == 0 && Count("No;", ',') == 0;
    assert Count("No;N", ',') == 0 && Count("No;Na", ',') == 0 && Count("No;Nam", ',') == 0;
    assert Count(h, ',') == 0;
  }

  /** A title line without "NAMA" is not a header line. */
  lemma TitleLineExample()
    ensures !IsHeaderLine("Daftar Hadir")
  {
    var d := UpperStr("Daftar Hadir");
    assert d == "DAFTAR HADIR";
    assert forall j :: 0 <= j < |d| ==> d[j] != 'N';
    FirstCharAbsent(d, "NAMA");
    FirstCharAbsent(d, "NAMA SISWA");
  }

  // ---------------------------------------------------------------------
  // The records
  // ---------------------------------------------------------------------

  /** The name filter rejects the empty name, names shorter than three characters and
      a repeated header row, in any letter case. */
  lemma NameFilterExamples()
    ensures !IsValidName("") && !IsValidName("Al") && IsValidName("Ana")
    ensures !IsValidName("Nama Siswa")
  {
    assert UpperStr("Ana") == "ANA";
    assert UpperStr("Nama Siswa") == "NAMA SISWA";
  }

  /** A number cell "7.0" (how pandas prints a float column) becomes "07". */
  lemma NumberFromFloatCell()
    ensures SequenceNumber(KeptRow(0, [Some("7.0"), Some("Ana")]), Some(0)) == "07"
  {
    assert Replace("", ".0", "") == "";
    assert Replace(".0", ".0", "") == "";
    assert Replace("7.0", ".0", "") == "7";
    assert ZFill("7", 2) == "07";
  }

  /** The fallback number counts rows of the file, not rows that survived `dropna`:
      after a dropped first row, the next row is number 02. */
  lemma FallbackCountsFileRows()
    ensures |DropMissingNames([[None], [Some("Ana")]], 0)| == 1
    ensures DropMissingNames([[None], [Some("Ana")]], 0)[0].index == 1
    ensures SequenceNumber(DropMissingNames([[None], [Some("Ana")]], 0)[0], None) == "02"
  {
    var rows: seq<seq<Option<string>>> := [[None], [Some("Ana")]];
    assert rows[..1] == [[None]];
    assert rows[..1][..0] == [];
    assert DropMissingNames(rows[..1], 0) == [];
    assert NatToString(2) == "2";
    assert ZFill("2", 2) == "02";
  }

  lemma TrimmedName()
    ensures Strip(" Ana ") == "Ana"
  {
    assert SpaceRunEnd(" Ana ", 0) == 1;
    assert SpaceRunStart(" Ana ", 1, 5) == 4;
  }

  lemma StemOfName()
    ensures SafeStem("Ana") == "Ana"
  {
    assert SafeChar('A') && SafeChar('n') && SafeChar('a');
    assert "Ana"[1..] == "na" && "na"[1..] == "a" && "a"[1..] == [];
    assert Filter("a", SafeChar) == "a";
    assert Filter("na", SafeChar) == "na";
    assert Filter("Ana", SafeChar) == "Ana";
    assert SpaceRunEnd("Ana", 0) == 0;
    assert SpaceRunStart("Ana", 0, 3) == 3;
    assert Strip("Ana") == "Ana";
  }

  lemma PayloadExample()
    ensures Payload("Ana", "XII_3", "07") == "ANA | XII 3 | 07"
    ensures FileName("07", "Ana") == "07_Ana"
  {
    StemOfName();
    assert UpperStr("Ana") == "ANA";
    assert Label("XII_3") == "XII 3";
  }

  /** One full record: the name is trimmed, and it makes the payload and the file name. */
  lemma BadgeExample()
    ensures RowBadge(KeptRow(0, [Some("7.0"), Some(" Ana ")]), 1, Some(0), "XII_3")
            == Some(Badge("Ana", "07", "XII_3", "ANA | XII 3 | 07", "07_Ana"))
  {
    var r := KeptRow(0, [Some("7.0"), Some(" Ana ")]);
    NumberFromFloatCell();
    assert SequenceNumber(r, Some(0)) == "07";
    TrimmedName();
    assert CellAt(r.row, 1) == Some(" Ana ");
    NameFilterExamples();
    PayloadExample();
    RowBadgeOf(r, 1, Some(0), "XII_3", "Ana", "07");
  }

  lemma BudiPayload()
    ensures Payload("Budi Santoso", "XII_3", "01") == "BUDI SANTOSO | XII 3 | 01"
  {
    assert UpperStr("Budi Santoso") == "BUDI SANTOSO";
    assert Label("XII_3") == "XII 3";
  }

  lemma BudiStem(name: string)
    requires name == "Budi Santoso"
    ensures SafeStem(name) == "Budi_Santoso"
  {
    var first, last := "Budi", "Santoso";
    forall k | 0 <= k < |first| ensures IsAlnum(first[k]) {}
    forall k | 0 <= k < |last| ensures IsAlnum(last[k]) {}
    StemOfTwoWords(first, last);
    assert first + " " + last == name;
    assert first + "_" + last == "Budi_Santoso";
  }

  /** The image of "Budi Santoso" with number "01" is "01_Budi_Santoso". */
  lemma BudiFileName(number: string, name: string)
    requires number == "01" && name == "Budi Santoso"
    ensures FileName(number, name) == "01_Budi_Santoso"
  {
    BudiStem(name);
  }

  /** A number cell "1/2" reaches the file name as it stands, so the name holds a
      path separator. */
  lemma SlashNumberFileName(r: KeptRow, name: string)
    requires r.row == [Some(name), Some("1/2")]
    ensures FileName(SequenceNumber(r, Some(1)), name)[..4] == "1/2_"
  {
    assert CellAt(r.row, 1) == Some("1/2");
    assert !Contains("1/2", ".0") by {
      FirstCharAbsent("1/2", ".0");
    }
    NumberCellInFileName(r, Some(1), name);
  }
}
