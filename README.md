# QR badge generator: a verified model of its data path

`BARCODE/barcode-generator.py` turns school rosters (CSV files) into QR-code badges,
one per student. For each file it takes four steps:

1. It works out the student's class: a tag such as `XII_3`, or the sentinel `KELAS_UMUM`.
2. It finds the header line and the delimiter.
3. It picks the name column and the roll-number column.
4. It builds, for every usable row, the text encoded in the QR code (`NAME | CLASS | NO`) and the image's file name.

This project models those steps in Dafny and proves what they guarantee. Drawing the
images is not modelled.

The modules follow the program's structure:

- `Options` is the `Option` datatype.
- `Strings` holds the Python string operations the code relies on, restricted to ASCII:
  - `upper`, `strip`
  - `in` (substring), `count`, `replace`, `join`
  - `zfill`, `str(int)` and `isalnum`

  It also holds `split`, which the code never calls. It serves only to state that the payload can be taken apart again.
- `ClassTag` (`detect_class_smart`) holds the two regular expressions, written out as leftmost-match functions.
- `Loader` (`smart_read_csv`) covers the header scan. Its loop becomes the method `DetectHeader`. The hand-off to the CSV parser is `ReadTable`.
- `Columns` holds the two column-role loops of `main`, as methods.
- `Records` covers the row loop of `main`:
  - `dropna`
  - the roll number
  - the name filter
  - the payload
  - the safe file name

  The loop itself is the method `Normalize`, proved against the function `Badges`.
- `Generator` is the per-file body of `main` up to rendering (`ProcessDocument`).
- `Examples` holds concrete inputs worked out in the model, one behaviour each.

Three things the program gets from its surroundings are parameters:

- the file's lines, or `None` when the file cannot be opened;
- the CSV parser (`pandas.read_csv`), as a function from the header line's index and the delimiter to a table, or `None` when it raises;
- the file name.

Where the code and its comments disagree, the model follows the code:

- Without a compound column, the LAST column whose trimmed name is exactly `NAMA` wins, not the first (lines 117-122).
- The header test is a substring test: a line with `NOMOR` and `NAMANYA` qualifies.
- The fallback roll number is the row's position among the parsed data rows, plus one. Position 0 is the row right after the header, so that row gets `01`. Rows that `dropna` removed still count.
- `replace('.0', '')` removes every `.0`, not only a trailing one.
- `zfill(2)` never truncates, so a roll number can be longer than two digits.
- The roll-number part of the file name is not sanitised: a number cell such as `1/2` reaches the file name as written.

## Model

| member | source | states |
|---|---|---|
| ClassTag.DetectClass | BARCODE/barcode-generator.py:30-55 | The result is always a well-formed tag: the sentinel `KELAS_UMUM`, or `XII` followed by separators and ending in a digit |
| ClassTag.DigitRunEnd | BARCODE/barcode-generator.py:33 | `\d+` taken greedily: the end of the longest run of digits from a position. Every character before it is a digit; the one at it is not |
| ClassTag.DigitRunAtLeast | BARCODE/barcode-generator.py:33 | A stretch of digits lies inside the digit run that starts where it starts |
| ClassTag.LetterAt | BARCODE/barcode-generator.py:33 | A literal letter of the pattern: the character equals it, or, under `re.IGNORECASE`, upper-cases to it |
| ClassTag.OptionalDash | BARCODE/barcode-generator.py:33 | `[-_]?`: steps over one `-` or `_` when there is one, otherwise stays; it never moves back |
| ClassTag.XiiTail | BARCODE/barcode-generator.py:33 | The end of the match of `\s*[-_]?\s*\d+` anchored at a position, if any: at least one character on, within the text |
| ClassTag.TailOccurrence | BARCODE/barcode-generator.py:33 | A substring belongs to `\s*[-_]?\s*\d+`: whitespace, at most one `-` or `_`, whitespace, at least one digit |
| ClassTag.XiiTailComplete | BARCODE/barcode-generator.py:33 | Every string of `\s*[-_]?\s*\d+` starting at a position is matched there; the match reaches at least to its end |
| ClassTag.XiiMatchAt | BARCODE/barcode-generator.py:33 | The end of the match of `XII\s*[-_]?\s*\d+` anchored at a position, if any, at least four characters on |
| ClassTag.XiiMatchComplete | BARCODE/barcode-generator.py:33 | `XII` (case ignored when asked) followed by a string of `\s*[-_]?\s*\d+` is a match, reaching at least to that string's end |
| ClassTag.SearchXii | BARCODE/barcode-generator.py:33 | `re.search` for the XII pattern from a position: a match found lies from that position on, within the text |
| ClassTag.SearchXiiFinds | BARCODE/barcode-generator.py:33 | When some position from the start on matches, the search finds a match no later than that position |
| ClassTag.LineEnd | BARCODE/barcode-generator.py:46 | The first newline at or after a position, or the end of the text. `.` never crosses it |
| ClassTag.LazyXii | BARCODE/barcode-generator.py:46 | `.*?` and then the XII pattern from a position: group 1 starts at or after that position |
| ClassTag.KelasMatchAt | BARCODE/barcode-generator.py:46 | Group 1 of `KELAS\s+.*?(XII...)` anchored at a position starts at least six characters on |
| ClassTag.KelasOccurrence | BARCODE/barcode-generator.py:46 | A substring belongs to `KELAS\s+.*?` and the XII pattern matches after it: `KELAS`, one or more whitespace characters, a stretch without newline, then a match of the XII pattern |
| ClassTag.KelasMatchComplete | BARCODE/barcode-generator.py:46 | Every such occurrence at a position is matched there, and group 1 starts no later than the occurrence's XII match |
| ClassTag.SearchKelas | BARCODE/barcode-generator.py:46 | `re.search` for the KELAS pattern: group 1 lies past the start position, within the text |
| ClassTag.SearchKelasFinds | BARCODE/barcode-generator.py:46 | When some position from the start on matches, the search finds a match |
| ClassTag.Underscored | BARCODE/barcode-generator.py:36 | `re.sub(r'[- ]', '_', raw)`: every `-` and space becomes `_`, and nothing else changes |
| ClassTag.UnderscoreChar | BARCODE/barcode-generator.py:36 | The per-character rule of `re.sub(r'[- ]', '_')`: `-` and space become `_`, any other character stays |
| ClassTag.FromFilename | BARCODE/barcode-generator.py:33-36 | Step 1: the upper-cased match in the file name, searched ignoring case, with `-` and space turned into `_` |
| ClassTag.HeadLines | BARCODE/barcode-generator.py:42 | Five `readline` calls: the first five lines, then empty strings |
| ClassTag.FromContent | BARCODE/barcode-generator.py:42-50 | Step 2: group 1 of the KELAS search over the five lines joined by spaces and upper-cased, with `-` and space turned into `_` |
| ClassTag.IsClassTag | BARCODE/barcode-generator.py:36 | What a tag can look like: `KELAS_UMUM`, or `XII` followed by `_`, digits or non-space whitespace, ending in a digit |
| ClassTag.SearchXiiLeftmost | BARCODE/barcode-generator.py:33 | `re.search` for `XII\s*[-_]?\s*\d+` returns the leftmost position where the pattern matches; with no result, no position matches |
| ClassTag.XiiMatchShape | BARCODE/barcode-generator.py:33 | A match is the letters X, I, I (case ignored when asked), then a string of `\s*[-_]?\s*\d+`: whitespace, at most one `-` or `_`, whitespace, at least one digit. It ends at a digit that is not followed by another digit |
| ClassTag.XiiTailShape | BARCODE/barcode-generator.py:33 | The part after `XII` is a string of `\s*[-_]?\s*\d+`, split at the longest whitespace run, the optional `-`/`_` and the second longest whitespace run. It takes the whole run of digits |
| ClassTag.SearchXiiSteps | BARCODE/barcode-generator.py:33 | The search result matches, and no position before it matches; with no result, no position matches |
| ClassTag.NoXiiInMeansNone | BARCODE/barcode-generator.py:33 | The recursive "no match in this range" predicate implies that no position in the range matches |
| ClassTag.NoXiiNearEnd | BARCODE/barcode-generator.py:33 | No match can start within three characters of the end |
| ClassTag.LazyXiiFirstOnLine | BARCODE/barcode-generator.py:46 | The lazy `.*?` stops at the first match of the XII pattern on the same line; without one, nothing matches up to and including the line's end |
| ClassTag.KelasMatchShape | BARCODE/barcode-generator.py:46 | A match of `KELAS\s+.*?(XII...)` is `KELAS`, then the whole whitespace run after it, then a stretch without newline, then group 1, which is a match of the XII pattern |
| ClassTag.SearchKelasLeftmost | BARCODE/barcode-generator.py:46 | The search returns group 1 of the leftmost match; with no result, no position matches |
| ClassTag.SeparatorBecomesTagChar | BARCODE/barcode-generator.py:35-36 | Upper-casing and `re.sub(r'[- ]', '_')` turn every character after `XII` into a tag character; digits stay digits |
| ClassTag.MatchTagShape | BARCODE/barcode-generator.py:35-36 | Any match, upper-cased and with `-` and space turned into `_`, is a class tag beginning with `XII` |
| ClassTag.FilenameTagShape | BARCODE/barcode-generator.py:33-36 | A tag taken from the file name is a class tag beginning with `XII` |
| ClassTag.ContentTagShape | BARCODE/barcode-generator.py:39-50 | A tag taken from the file's first lines is a class tag beginning with `XII` |
| ClassTag.UpperIdempotent | BARCODE/barcode-generator.py:35 | Upper-casing twice is upper-casing once |
| ClassTag.TagHasNoSpaceOrBar | BARCODE/barcode-generator.py:36 | A class tag has no space, no `\|` and no `-` |
| ClassTag.FilenameTakesPriority | BARCODE/barcode-generator.py:33-36 | When the file name holds a tag, the file's content does not matter |
| ClassTag.DefaultExactlyWhenNoMatch | BARCODE/barcode-generator.py:39-55 | The result is `KELAS_UMUM` if and only if the file name has no tag and either the file cannot be opened or its first lines have no tag |
| ClassTag.NotDefault | BARCODE/barcode-generator.py:55 | A tag beginning with `XII` is never the sentinel |
| ClassTag.OnlyFirstFiveLines | BARCODE/barcode-generator.py:42 | Lines after the fifth never change the tag |
| ClassTag.SpaceRunIgnoresCase | BARCODE/barcode-generator.py:33 | Upper-casing does not move the end of a whitespace run |
| ClassTag.DigitRunIgnoresCase | BARCODE/barcode-generator.py:33 | Upper-casing does not move the end of a digit run |
| ClassTag.OptionalDashIgnoresCase | BARCODE/barcode-generator.py:33 | Upper-casing does not change the optional `-`/`_` step |
| ClassTag.XiiTailIgnoresCase | BARCODE/barcode-generator.py:33 | Upper-casing does not change the match after `XII` |
| ClassTag.XiiMatchIgnoresCase | BARCODE/barcode-generator.py:33 | Matching with `re.IGNORECASE` is matching the upper-cased text exactly |
| ClassTag.SearchXiiIgnoresCase | BARCODE/barcode-generator.py:33 | The case-insensitive search equals the exact search on the upper-cased text |
| ClassTag.FilenameIgnoresCase | BARCODE/barcode-generator.py:33-36 | Two file names that differ only in letter case give the same tag |
| Loader.DelimiterOf | BARCODE/barcode-generator.py:70-73 | The delimiter is `;` if and only if the line has strictly more semicolons than commas, otherwise `,` |
| Loader.CellAt | BARCODE/barcode-generator.py:135-137 | The cell of a column in a row. A row shorter than the header reads as missing there |
| Loader.IsHeaderLine | BARCODE/barcode-generator.py:68 | The header test: the upper-cased line contains `NAMA SISWA`, or contains both `NAMA` and `NO` |
| Loader.IsFirstHeader | BARCODE/barcode-generator.py:66-69 | A line is the first header line among the first ten lines |
| Loader.FirstHeaderFrom | BARCODE/barcode-generator.py:66-75 | The scan from a position: the first header line at or after it among the first ten lines, or none exactly when there is none |
| Loader.FirstHeader | BARCODE/barcode-generator.py:66-75 | The header line the scan stops at, if any |
| Loader.FirstHeaderIsFirst | BARCODE/barcode-generator.py:66-75 | The scan stops at a line if and only if that line is the first header line among the first ten |
| Loader.TableOf | BARCODE/barcode-generator.py:58-89 | What `smart_read_csv` returns: the empty table when the file cannot be opened, no header is found or the parser fails; otherwise the parser's table for the first header line and its delimiter |
| Loader.TableOfParsed | BARCODE/barcode-generator.py:80-83 | With a first header line that the parser accepts, the result is the parser's table for that line and its delimiter |
| Loader.DetectHeader | BARCODE/barcode-generator.py:66-75 | Returns nothing if and only if none of the first ten lines is a header line; otherwise the first header line among them, with its delimiter |
| Loader.ReadTable | BARCODE/barcode-generator.py:58-89 | Returns the empty table when the file cannot be opened or has no header line among its first ten lines. When the first header line exists and the parser accepts it, returns exactly the parser's table for that line and its delimiter |
| Columns.ResolveNameColumn | BARCODE/barcode-generator.py:116-122 | Chooses the first column naming both NAMA and SISWA; without one, the last column whose trimmed name is exactly NAMA; otherwise nothing |
| Columns.IsCompoundNameColumn | BARCODE/barcode-generator.py:118 | The upper-cased column name contains both `NAMA` and `SISWA` |
| Columns.IsBareNameColumn | BARCODE/barcode-generator.py:121 | The trimmed, upper-cased column name is exactly `NAMA` |
| Columns.NameScan | BARCODE/barcode-generator.py:116-122 | The `target_col` loop from a column on, with what it has chosen so far |
| Columns.NameColumnOf | BARCODE/barcode-generator.py:116-122 | The column the `target_col` loop settles on |
| Columns.NameScanChoice | BARCODE/barcode-generator.py:116-122 | From any point of the scan, with the choice so far consistent, it ends on the first compound column. Without one it ends on the last bare `NAMA` column, and on nothing exactly when there is none |
| Columns.NameColumnOfChoice | BARCODE/barcode-generator.py:116-122 | The column chosen is the first compound column. Without one it is the last bare `NAMA` column, and nothing exactly when there is none |
| Columns.FindNumberColumn | BARCODE/barcode-generator.py:128-132 | Returns nothing if and only if no column's trimmed, upper-cased name is `NO`; otherwise the first such column |
| Columns.IsNumberColumn | BARCODE/barcode-generator.py:130 | The trimmed, upper-cased column name is exactly `NO` |
| Columns.NumberColumnFrom | BARCODE/barcode-generator.py:128-132 | From a column on: nothing exactly when no column is `NO`; otherwise the first one |
| Columns.NumberColumnOf | BARCODE/barcode-generator.py:128-132 | The column the `no_col` loop settles on |
| Columns.RolesAreDistinct | BARCODE/barcode-generator.py:118-130 | A column that is the number column is never a name column |
| Records.DropMissingNames | BARCODE/barcode-generator.py:125 | Keeps rows in file order, each with its original position and its name cell present |
| Records.DropMissingNamesKeepsNamed | BARCODE/barcode-generator.py:125 | Every row whose name cell is present is kept |
| Records.SequenceNumber | BARCODE/barcode-generator.py:137-141 | The roll number. With a number column and a present cell it is the cell's text with every `.0` removed; otherwise the row's position plus one. Either way `zfill(2)` |
| Records.IsValidName | BARCODE/barcode-generator.py:143-144 | The name filter: a trimmed name is kept unless it is empty, is `NAMA SISWA` in any case, or is shorter than three characters |
| Records.Label | BARCODE/barcode-generator.py:155 | The class as shown in the payload: `_` becomes space |
| Records.Payload | BARCODE/barcode-generator.py:156 | The QR text `NAME \| CLASS \| NO`, with the name upper-cased |
| Records.SafeStem | BARCODE/barcode-generator.py:159-160 | The name part of the file name: letters, digits, spaces and `_` kept, trimmed, with spaces turned into `_` |
| Records.FileName | BARCODE/barcode-generator.py:160 | The image file name: the roll number, `_`, then the safe stem |
| Records.SafeChar | BARCODE/barcode-generator.py:159 | The comprehension's test `c.isalnum() or c in (' ', '_')`: an ASCII letter or digit, a space or `_` |
| Records.MakeBadge | BARCODE/barcode-generator.py:143-160 | The badge of a trimmed name and a roll number, or nothing when the filter rejects the name |
| Records.RowBadge | BARCODE/barcode-generator.py:135-160 | What one pass of the row loop makes of a kept row |
| Records.Badges | BARCODE/barcode-generator.py:134-160 | The badges of the kept rows, in row order |
| Records.Normalize | BARCODE/barcode-generator.py:134-160 | The loop produces the badges of the kept rows in row order, each well formed and carrying the class tag |
| Records.BadgesAppend | BARCODE/barcode-generator.py:134 | The badges of two runs of rows are those of the first run followed by those of the second |
| Records.BadgesAreRowBadges | BARCODE/barcode-generator.py:134-160 | A badge occurs in the output if and only if some kept row yields it |
| Records.MakeBadgeWellFormed | BARCODE/barcode-generator.py:143-160 | A trimmed name yields a badge if and only if it passes the filter; that badge is well formed and carries the given name, number and tag |
| Records.RowBadgeWellFormed | BARCODE/barcode-generator.py:135-160 | A row yields a badge if and only if its trimmed name passes the filter. The badge's name has at least three characters, no outer whitespace, and is not NAMA SISWA; its number has at least two characters; its payload and file name come from those fields |
| Records.AllBadgesWellFormed | BARCODE/barcode-generator.py:134-160 | Every badge of a table is well formed and carries the class tag |
| Records.FallbackNumber | BARCODE/barcode-generator.py:140-141 | Without a number cell, the roll number is all digits, has at least two of them, and reads as the row's original position plus one |
| Records.CellNumberAsWritten | BARCODE/barcode-generator.py:137-139 | A number cell without `.0` and of at least two characters is used as written |
| Records.LabelChars | BARCODE/barcode-generator.py:155 | The class as shown in the payload has no `_` and no `\|` |
| Records.PayloadSplits | BARCODE/barcode-generator.py:152-156 | Splitting the payload at ` \| ` gives back the upper-cased name, the class label and the roll number. This holds when neither the name nor the number holds ` \| ` and the name does not end in ` \|` |
| Records.PayloadDetermines | BARCODE/barcode-generator.py:152-156 | For names that hold no ` \| ` and do not end in ` \|`, class tags, and numbers without ` \| `: two payloads are equal if and only if the upper-cased names, the tags and the numbers are |
| Records.LabelThenNumber | BARCODE/barcode-generator.py:156 | In `label \| number` with a label free of `\|`, the first `\|` is the separator, so the text gives back both parts |
| Records.SameNameDistinct | BARCODE/barcode-generator.py:152-156 | For one and the same name, whatever it and the numbers hold, two payloads are equal if and only if the tags and the numbers are: two classes never share a payload |
| Records.SafeStemIsSafe | BARCODE/barcode-generator.py:159-160 | The name part of the file name holds only letters, digits and `_`, so it has no space, no path separator and no dot |
| Records.SafeStemKeepsAlnum | BARCODE/barcode-generator.py:159-160 | The name part of the file name keeps all the name's letters and digits, in order |
| Records.FileNameIsSafe | BARCODE/barcode-generator.py:160 | With an all-digit roll number, the whole file name holds only letters, digits and `_` |
| Records.NumberCellInFileName | BARCODE/barcode-generator.py:137-160 | A number cell used as written, such as `1/2`, opens the file name unchanged, followed by `_` |
| Records.SafeNameKept | BARCODE/barcode-generator.py:159 | A name of letters, digits, spaces and `_` that starts and ends with a letter or digit passes the filter and the trim unchanged |
| Records.TwoWordsSafe | BARCODE/barcode-generator.py:159 | Two alphanumeric words joined by one space pass the character filter |
| Records.TwoWordsJoined | BARCODE/barcode-generator.py:160 | The space between two words becomes `_` |
| Records.StemOfTwoWords | BARCODE/barcode-generator.py:159-160 | A two-word alphanumeric name gives the stem `first_last` |
| Generator.ProcessDocument | BARCODE/barcode-generator.py:106-161 | A file yields its class tag. Its badges are exactly those of the loaded table: none without a name column, otherwise one per kept row whose name passes the filter. So there is no badge when the file cannot be opened or has no header line among its first ten lines. Every badge is well formed and carries the tag |
| Generator.TableBadges | BARCODE/barcode-generator.py:115-160 | The badges `main` makes from a loaded table: none without a name column; otherwise those of the rows with a name, numbered from the `NO` column when there is one |
| Generator.TableBadgesWellFormed | BARCODE/barcode-generator.py:134-160 | Every badge of a table is well formed and carries the class tag |
| Generator.NoNameColumnNoBadges | BARCODE/barcode-generator.py:116-124 | A table whose columns are neither compound nor bare name columns yields no badge, whatever its rows |
| Strings.UpperKeepsNonLetters | BARCODE/barcode-generator.py:35 | `upper` changes only `a`-`z`. It keeps whitespace, digits, space and `\|` as they are, and keeps a character alphanumeric exactly when it was |
| Strings.Upper | BARCODE/barcode-generator.py:35 | `upper` of one ASCII character: `a`-`z` become `A`-`Z` |
| Strings.UpperStr | BARCODE/barcode-generator.py:35 | `str.upper`, character by character |
| Strings.IsSpace | BARCODE/barcode-generator.py:121 | The whitespace of `str.strip` and of `\s` (also lines 33, 46, 135), in the ASCII range: space, tab, newline, carriage return, vertical tab, form feed and the separators `\x1c`-`\x1f` |
| Strings.IsDigit | BARCODE/barcode-generator.py:33 | `\d` in the ASCII range: `0`-`9` |
| Strings.IsAlnum | BARCODE/barcode-generator.py:159 | `str.isalnum` in the ASCII range: a letter `a`-`z`, `A`-`Z` or a digit |
| Strings.UpperSlice | BARCODE/barcode-generator.py:35 | Upper-casing a slice is slicing the upper-cased string |
| Strings.Contains | BARCODE/barcode-generator.py:68 | `in` on strings: the pattern occurs at some position |
| Strings.FirstCharAbsent | BARCODE/barcode-generator.py:68 | A string without a pattern's first character does not contain the pattern |
| Strings.NoBarNoSeparator | BARCODE/barcode-generator.py:156 | A name without `\|` cannot create a false separator in the payload |
| Strings.UpperKeepsSeparator | BARCODE/barcode-generator.py:156 | Upper-casing neither creates nor removes ` \| ` |
| Strings.DigitsHaveNoSeparator | BARCODE/barcode-generator.py:156 | An all-digit string has no ` \| ` |
| Strings.CountIsMultiplicity | BARCODE/barcode-generator.py:70 | `str.count` of one character is its multiplicity |
| Strings.Count | BARCODE/barcode-generator.py:70 | `str.count` of one character |
| Strings.SpaceRunEnd | BARCODE/barcode-generator.py:33 | The end of the longest whitespace run from a position |
| Strings.SpaceRunAtLeast | BARCODE/barcode-generator.py:33 | A stretch of whitespace lies inside the whitespace run that starts where it starts |
| Strings.SpaceRunStart | BARCODE/barcode-generator.py:121 | The start of the longest whitespace run that ends at a position |
| Strings.Strip | BARCODE/barcode-generator.py:121 | `str.strip`: the part left after the leading and trailing whitespace runs |
| Strings.StripIsInfix | BARCODE/barcode-generator.py:121 | `strip` returns a contiguous part of its input, with only whitespace cut at both ends |
| Strings.StripEnds | BARCODE/barcode-generator.py:135 | A stripped string neither starts nor ends with whitespace |
| Strings.StripWithoutOuterSpace | BARCODE/barcode-generator.py:135 | A string without outer whitespace is left as it is |
| Strings.StripIdempotent | BARCODE/barcode-generator.py:135 | Stripping twice is stripping once |
| Strings.Filter | BARCODE/barcode-generator.py:159 | The characters that pass a test, in order, as in the list comprehension and `join` |
| Strings.FilterAppend | BARCODE/barcode-generator.py:159 | Filtering distributes over concatenation |
| Strings.FilterAllKept | BARCODE/barcode-generator.py:159 | A filter that keeps every character returns its input |
| Strings.FilterAllDropped | BARCODE/barcode-generator.py:159 | A filter that drops every character returns the empty string |
| Strings.FilterNarrower | BARCODE/barcode-generator.py:159 | Filtering by a wider and then a narrower predicate is filtering by the narrower one |
| Strings.FilterStrip | BARCODE/barcode-generator.py:159 | Stripping loses nothing that a filter rejecting whitespace would keep |
| Strings.ReplaceChar | BARCODE/barcode-generator.py:155 | `replace` of one character by another |
| Strings.ReplaceCharInjective | BARCODE/barcode-generator.py:155 | Replacing one character by a character absent from both strings is injective |
| Strings.FilterReplaceChar | BARCODE/barcode-generator.py:160 | Replacing one character by another, when the filter rejects both, does not change the filtered string |
| Strings.Replace | BARCODE/barcode-generator.py:138 | `str.replace` of a pattern by a text, every occurrence, left to right |
| Strings.Join | BARCODE/barcode-generator.py:43 | `str.join`: the pieces with the separator between them |
| Strings.ReplaceIsJoinOfSplit | BARCODE/barcode-generator.py:138 | `replace` is `join` of `split` |
| Strings.SplitWithoutSeparator | BARCODE/barcode-generator.py:156 | A string without the separator splits into itself alone |
| Strings.ReplaceWithoutOccurrence | BARCODE/barcode-generator.py:138 | `replace` of an absent pattern changes nothing |
| Strings.SplitAtFirstSeparator | BARCODE/barcode-generator.py:156 | Splitting cuts at the first separator |
| Strings.ZFill | BARCODE/barcode-generator.py:139 | `zfill` pads to the width and never truncates |
| Strings.NatToString | BARCODE/barcode-generator.py:141 | `str` of a natural is non-empty, all digits, and starts with `0` only for zero |
| Strings.NatToStringRoundTrip | BARCODE/barcode-generator.py:141 | Reading back `str(n)` gives `n` |
| Strings.LeadingZerosAddNothing | BARCODE/barcode-generator.py:139 | Leading zeros do not change a decimal value |
| Strings.ZerosAreZero | BARCODE/barcode-generator.py:139 | A run of zeros reads as zero |
| Strings.ZFillKeepsValue | BARCODE/barcode-generator.py:139-141 | `zfill` keeps an all-digit string all digits with the same value |
| Examples.FilenameMatchAt | BARCODE/barcode-generator.py:32-33 | In "Daftar XII-3.csv" the pattern matches at position 7 and ends at 12 |
| Examples.FilenameSearch | BARCODE/barcode-generator.py:33 | The search over that file name finds that match |
| Examples.FilenameGroup | BARCODE/barcode-generator.py:35 | The matched text is `XII-3` |
| Examples.TagFromFilename | BARCODE/barcode-generator.py:33-36 | "Daftar XII-3.csv" gives `XII_3`, whatever the content |
| Examples.NoTagInDataCsv | BARCODE/barcode-generator.py:33 | "data.csv" holds no tag |
| Examples.ContentText | BARCODE/barcode-generator.py:42-43 | A file whose only line is "Kelas XII 2" reads as that line and four empty ones, joined by spaces and upper-cased: "KELAS XII 2" plus four spaces |
| Examples.ContentSearch | BARCODE/barcode-generator.py:46 | The KELAS search over that text finds group 1 at positions 6 to 11 |
| Examples.ContentGroup | BARCODE/barcode-generator.py:49 | Group 1 is `XII 2` |
| Examples.ContentTag | BARCODE/barcode-generator.py:46-50 | That content gives `XII_2` |
| Examples.TagFromContent | BARCODE/barcode-generator.py:39-50 | "data.csv" with first line "Kelas XII 2" gives `XII_2` |
| Examples.TagDefault | BARCODE/barcode-generator.py:55 | A file that cannot be opened and whose name holds no tag gives `KELAS_UMUM` |
| Examples.HeaderLineExample | BARCODE/barcode-generator.py:68-73 | "No;Nama" is a header line with delimiter `;` |
| Examples.HeaderLineIsHeader | BARCODE/barcode-generator.py:68 | "No;Nama" passes the header test |
| Examples.HeaderLineCounts | BARCODE/barcode-generator.py:70 | "No;Nama" has one semicolon and no comma |
| Examples.TitleLineExample | BARCODE/barcode-generator.py:68 | A title line without NAMA is not a header line |
| Examples.NameFilterExamples | BARCODE/barcode-generator.py:143-144 | The empty name, "Al" and "Nama Siswa" are rejected; "Ana" is kept |
| Examples.NumberFromFloatCell | BARCODE/barcode-generator.py:137-139 | A number cell "7.0" gives the roll number `07` |
| Examples.FallbackCountsFileRows | BARCODE/barcode-generator.py:125-141 | When the first row's name is missing, the second row is the only one kept, and without a number column it gets `02` |
| Examples.TrimmedName | BARCODE/barcode-generator.py:135 | " Ana " is trimmed to "Ana" |
| Examples.StemOfName | BARCODE/barcode-generator.py:159-160 | "Ana" keeps its stem |
| Examples.PayloadExample | BARCODE/barcode-generator.py:155-156 | "Ana" of `XII_3` numbered `07` gives the payload "ANA \| XII 3 \| 07" and the file name "07_Ana" |
| Examples.BadgeExample | BARCODE/barcode-generator.py:134-160 | The row ("7.0", " Ana ") gives the full badge with payload "ANA \| XII 3 \| 07" and file name "07_Ana" |
| Examples.BudiPayload | BARCODE/barcode-generator.py:152-156 | "Budi Santoso" of `XII_3` numbered `01` gives "BUDI SANTOSO \| XII 3 \| 01" |
| Examples.BudiStem | BARCODE/barcode-generator.py:159-160 | "Budi Santoso" gives the stem "Budi_Santoso" |
| Examples.BudiFileName | BARCODE/barcode-generator.py:160 | With number `01` the file name is "01_Budi_Santoso" |
| Examples.SlashNumberFileName | BARCODE/barcode-generator.py:137-160 | A number cell `1/2` makes a file name that starts with `1/2_`, a path separator included |

## Left out

- Rendering: the QR code, the caption, the fonts and the PNG files (lines 14-27, 147-149, 161-201). These are image operations on library objects.
- File system and console: creating folders, listing `*.csv`, the working directory, `print`, the `total_processed` counter and the final report (lines 93-104, 199-210). These are I/O.
- The CSV parser itself: `pandas.read_csv` is a parameter. Its table is given as column names plus cells: a missing value (NaN) appears as `None`, any other value as the text `str()` gives. Rows shorter than the header read as missing. Column names are assumed unique, as pandas makes them.
- Decoding with `errors='ignore'` and the exceptions swallowed around opening a file: a file that cannot be opened is `lines == None`. Both functions then take their documented fallback: the content step yields no tag, and the loader returns an empty table.
- Unicode: all character classes (`\s`, `\d`, `isalnum`, `upper`, `strip`) are the ASCII ones.
- Truthiness of `target_col` and `no_col` (lines 124, 137): a chosen column's name contains NAMA or equals NO after trimming, so it is never empty and is always truthy. The model tests that a column was found.
- `detect_class_smart` gets the same name for `file_path` and `filename` in `main` (line 110), so the model takes the file name once, plus the file's lines.
- Records.PayloadSplits: holds only when the name and number contain no ` | ` and the name does not end in ` |`. Such a name breaks the `NAME | CLASS | NO` format: "A |" gives "A | | XII 3 | 01", whose first field reads "A". Records.SameNameDistinct needs neither condition.
