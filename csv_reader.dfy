/**
 * The music player registry reader, `MusicPlayerCsvReader`: it refuses a path that is
 * not a file or lacks the `.csv` suffix, then walks the rows the CSV tokeniser yields,
 * checks the header row's four column labels, and appends the first four fields of
 * every later row, verbatim, to four parallel lists.
 *
 * The file system and the tokeniser are inputs: whether the path is a file, and the
 * rows as sequences of fields.
 */
module CsvReader {
  import opened Results

  const CsvFileSuffix := ".csv"
  const MacAddressColumnName := "mac_addresses"
  const Id1ColumnName := "id1"
  const Id2ColumnName := "id2"
  const Id3ColumnName := "id3"

  /** The four column labels, in column order. */
  const ColumnNames: seq<string> := [MacAddressColumnName, Id1ColumnName, Id2ColumnName, Id3ColumnName]

  /** MusicPlayerCsvReaderException, with the reason it was raised. */
  datatype ReaderError =
    | FileNotFound(csvFile: string)
    | MissingCsvExtension(csvFile: string)
    | WrongColumnName(columnName: string)
    | EmptyElements

  // ---------------------------------------------------------------------------
  // pathlib's `name` and `suffix`

  /** `str.rfind` of one character: the index of its last occurrence, or -1. */
  function RFind(s: string, c: char): (i: int)
    ensures -1 <= i < |s|
    ensures i >= 0 ==> s[i] == c
    ensures forall j :: i < j < |s| ==> s[j] != c
  {
    if s == [] then -1
    else if s[|s| - 1] == c then |s| - 1
    else RFind(s[..|s| - 1], c)
  }

  /** A component pathlib keeps: not empty, not `.`, and free of slashes. */
  predicate IsComponent(c: string)
  {
    c != "" && c != "." && forall j :: 0 <= j < |c| ==> c[j] != '/'
  }

  /**
   * `PurePath.name`: pathlib drops the empty components (repeated or trailing
   * slashes) and the `.` components, and the name is the last component left, or ""
   * when none is.
   */
  function Name(path: string): (name: string)
    ensures name == "" || IsComponent(name)
    decreases |path|
  {
    var i := RFind(path, '/');
    var last := path[i + 1..];
    if last != "" && last != "." then last
    else if i < 0 then ""
    else Name(path[..i])
  }

  /**
   * The name of a path ending in a component is that component; a trailing slash or
   * `/.` leaves the name as it was; and neither "" nor "." has a name. Every path is
   * built from "" or "." by such steps, so these determine `Name`.
   */
  lemma NameOfComponent(dir: string, c: string)
    requires IsComponent(c)
    ensures Name(c) == c && Name(dir + "/" + c) == c
  {
    var path := dir + "/" + c;
    assert path[|dir|] == '/';
    assert RFind(path, '/') == |dir| by {
      forall j | |dir| < j < |path|
        ensures path[j] != '/'
      {
        assert path[j] == c[j - |dir| - 1];
      }
    }
    assert path[|dir| + 1..] == c;
  }

  lemma NameOfNothing()
    ensures Name("") == "" && Name(".") == ""
  {
    var dot: string := ".";
    assert dot[..0] == [] && dot[0] != '/';
    assert RFind(dot, '/') == -1;
    assert dot[0..] == dot;
  }

  lemma NameSkipsSlash(p: string)
    ensures Name(p + "/") == Name(p)
  {
    var path := p + "/";
    assert path[|p|] == '/' && path[..|p|] == p;
  }

  lemma NameSkipsDot(p: string)
    ensures Name(p + "/.") == Name(p)
  {
    var path := p + "/.";
    assert path[|p|] == '/' && path[|p| + 1] != '/';
    assert RFind(path, '/') == |p|;
    assert path[|p| + 1..] == "." && path[..|p|] == p;
  }

  /**
   * `PurePath.suffix`: the name's extension from its last dot on, "" when the name
   * has no dot after its first character or ends in a dot.
   */
  function Suffix(path: string): (r: string)
    ensures r != "" ==> && 2 <= |r| < |Name(path)| && r[0] == '.'
                        && Name(path)[|Name(path)| - |r|..] == r
                        && forall j :: 0 < j < |r| ==> r[j] != '.'
  {
    var name := Name(path);
    var i := RFind(name, '.');
    if 0 < i < |name| - 1 then name[i..] else ""
  }

  /** A trailing slash or `/.` does not change the suffix. */
  lemma SuffixIgnoresTrailer(p: string)
    ensures Suffix(p + "/") == Suffix(p) && Suffix(p + "/.") == Suffix(p)
  {
    NameSkipsSlash(p);
    NameSkipsDot(p);
  }

  /** The suffix is `.csv` exactly when the final component ends in `.csv` after at least one character. */
  lemma CsvSuffixIff(path: string)
    ensures Suffix(path) == CsvFileSuffix
            <==> |Name(path)| > 4 && Name(path)[|Name(path)| - 4..] == CsvFileSuffix
  {
    var name := Name(path);
    var i := RFind(name, '.');
    if Suffix(path) == CsvFileSuffix {
      assert name[i..] == CsvFileSuffix;
      assert |name| - i == 4;
    }
    if |name| > 4 && name[|name| - 4..] == CsvFileSuffix {
      var k := |name| - 4;
      assert name[k] == '.' && name[k + 1] == 'c' && name[k + 2] == 's' && name[k + 3] == 'v';
      assert i == k;
    }
  }

  // ---------------------------------------------------------------------------
  // Rows

  /** Python's `needle in haystack` on strings. */
  predicate ContainsSubstring(haystack: string, needle: string)
  {
    exists i :: 0 <= i <= |haystack| - |needle| && OccursAt(haystack, needle, i)
  }

  predicate OccursAt(haystack: string, needle: string, i: int)
    requires 0 <= i <= |haystack| - |needle|
  {
    haystack[i..i + |needle|] == needle
  }

  /** Every row the tokeniser yields has at least the four fields the reader indexes. */
  predicate WellShaped(rows: seq<seq<string>>)
  {
    forall i :: 0 <= i < |rows| ==> |rows[i]| >= 4
  }

  /** The header check: the first of the four labels missing from its column, in column order. */
  function HeaderError(header: seq<string>): Option<ReaderError>
    requires |header| >= 4
  {
    if !ContainsSubstring(header[0], MacAddressColumnName) then Some(WrongColumnName(MacAddressColumnName))
    else if !ContainsSubstring(header[1], Id1ColumnName) then Some(WrongColumnName(Id1ColumnName))
    else if !ContainsSubstring(header[2], Id2ColumnName) then Some(WrongColumnName(Id2ColumnName))
    else if !ContainsSubstring(header[3], Id3ColumnName) then Some(WrongColumnName(Id3ColumnName))
    else None
  }

  /** The header is rejected for label `k` exactly when `k` is the first label missing from its column. */
  lemma HeaderErrorIsFirstMismatch(header: seq<string>, k: nat)
    requires |header| >= 4 && k < 4
    ensures HeaderError(header) == Some(WrongColumnName(ColumnNames[k]))
            <==> && !ContainsSubstring(header[k], ColumnNames[k])
                 && forall j :: 0 <= j < k ==> ContainsSubstring(header[j], ColumnNames[j])
  {
  }

  /** The header passes exactly when every label occurs in its own column. */
  lemma HeaderAcceptedIff(header: seq<string>)
    requires |header| >= 4
    ensures HeaderError(header).None?
            <==> forall k :: 0 <= k < 4 ==> ContainsSubstring(header[k], ColumnNames[k])
  {
    if forall k :: 0 <= k < 4 ==> ContainsSubstring(header[k], ColumnNames[k]) {
      assert ContainsSubstring(header[0], ColumnNames[0]);
      assert ContainsSubstring(header[1], ColumnNames[1]);
      assert ContainsSubstring(header[2], ColumnNames[2]);
      assert ContainsSubstring(header[3], ColumnNames[3]);
    }
  }

  /** The labels are matched as substrings: a decorated header still passes. */
  lemma DecoratedHeaderAccepted(header: seq<string>)
    requires |header| >= 4
    requires header[0] == "#" + MacAddressColumnName && header[1] == Id1ColumnName + "_x"
    requires header[2] == Id2ColumnName && header[3] == "(" + Id3ColumnName + ")"
    ensures HeaderError(header).None?
  {
    assert OccursAt(header[0], MacAddressColumnName, 1);
    assert OccursAt(header[1], Id1ColumnName, 0);
    assert OccursAt(header[2], Id2ColumnName, 0);
    assert OccursAt(header[3], Id3ColumnName, 1);
  }

  predicate HasEmptyElement(row: seq<string>)
    requires |row| >= 4
  {
    row[0] == "" || row[1] == "" || row[2] == "" || row[3] == ""
  }

  /** The first row at or after `from` with an empty element, or `|rows|` when there is none. */
  function FirstEmptyRow(rows: seq<seq<string>>, from: nat): (k: nat)
    requires WellShaped(rows) && from <= |rows|
    ensures from <= k <= |rows|
    ensures forall i :: from <= i < k ==> !HasEmptyElement(rows[i])
    ensures k < |rows| ==> HasEmptyElement(rows[k])
    decreases |rows| - from
  {
    if from == |rows| then from
    else if HasEmptyElement(rows[from]) then from
    else FirstEmptyRow(rows, from + 1)
  }

  /** Field `j` of every row, in order. */
  function Column(rows: seq<seq<string>>, j: nat): seq<string>
    requires forall i :: 0 <= i < |rows| ==> |rows[i]| > j
  {
    seq(|rows|, i requires 0 <= i < |rows| => rows[i][j])
  }

  /** The data rows among the first `n` rows: all but the header. */
  function DataRowsBefore(rows: seq<seq<string>>, n: nat): seq<seq<string>>
    requires n <= |rows|
  {
    if n <= 1 then [] else rows[1..n]
  }

  /** What reading `rows` raises, if anything. */
  function ReadError(rows: seq<seq<string>>): Option<ReaderError>
    requires WellShaped(rows)
  {
    if |rows| == 0 then None
    else if HeaderError(rows[0]).Some? then HeaderError(rows[0])
    else if FirstEmptyRow(rows, 1) < |rows| then Some(EmptyElements)
    else None
  }

  /** The data rows reading appends before it stops (none when the header is rejected). */
  function AppendedRows(rows: seq<seq<string>>): seq<seq<string>>
    requires WellShaped(rows)
  {
    if |rows| == 0 || HeaderError(rows[0]).Some? then [] else DataRowsBefore(rows, FirstEmptyRow(rows, 1))
  }

  /** The four parallel lists of a reader. */
  datatype Registry = Registry(macAddresses: seq<string>, id1: seq<string>, id2: seq<string>, id3: seq<string>)

  const EmptyRegistry := Registry([], [], [], [])

  /** `reg` with the first four fields of each data row appended to the four lists. */
  function Extend(reg: Registry, data: seq<seq<string>>): Registry
    requires WellShaped(data)
  {
    Registry(reg.macAddresses + Column(data, 0), reg.id1 + Column(data, 1),
             reg.id2 + Column(data, 2), reg.id3 + Column(data, 3))
  }

  /** Appending no rows leaves the lists as they are. */
  lemma ExtendByNothing(reg: Registry)
    ensures Extend(reg, []) == reg
  {
    assert reg.macAddresses + [] == reg.macAddresses && reg.id1 + [] == reg.id1;
    assert reg.id2 + [] == reg.id2 && reg.id3 + [] == reg.id3;
  }

  lemma ExtendByRow(reg: Registry, data: seq<seq<string>>, row: seq<string>)
    requires WellShaped(data) && |row| >= 4
    ensures WellShaped(data + [row])
    ensures var e := Extend(reg, data);
            Extend(reg, data + [row])
            == Registry(e.macAddresses + [row[0]], e.id1 + [row[1]], e.id2 + [row[2]], e.id3 + [row[3]])
  {
    forall j | 0 <= j < 4
      ensures Column(data + [row], j) == Column(data, j) + [row[j]]
    {
    }
  }

  /** Reading one more data row appends its four fields to the four lists. */
  lemma ExtendByDataRow(reg: Registry, rows: seq<seq<string>>, n: nat)
    requires WellShaped(rows) && 1 <= n < |rows|
    ensures WellShaped(DataRowsBefore(rows, n)) && WellShaped(DataRowsBefore(rows, n + 1))
    ensures var e := Extend(reg, DataRowsBefore(rows, n));
            Extend(reg, DataRowsBefore(rows, n + 1))
            == Registry(e.macAddresses + [rows[n][0]], e.id1 + [rows[n][1]], e.id2 + [rows[n][2]], e.id3 + [rows[n][3]])
  {
    var before := DataRowsBefore(rows, n);
    assert DataRowsBefore(rows, n + 1) == before + [rows[n]];
    ExtendByRow(reg, before, rows[n]);
  }

  /**
   * What a fresh reader holds after reading `rows`: the four lists, or the error.
   * On success the lists are parallel, one entry per data row in file order, and
   * the header row is in none of them.
   */
  function ReadRows(rows: seq<seq<string>>): (r: Result<Registry, ReaderError>)
    requires WellShaped(rows)
    ensures r.Success? ==> var n := if |rows| == 0 then 0 else |rows| - 1;
              |r.value.macAddresses| == n && |r.value.id1| == n && |r.value.id2| == n && |r.value.id3| == n
    ensures r.Success? ==> forall i :: 0 <= i < |r.value.macAddresses| ==>
              && r.value.macAddresses[i] == rows[i + 1][0]
              && r.value.id1[i] == rows[i + 1][1]
              && r.value.id2[i] == rows[i + 1][2]
              && r.value.id3[i] == rows[i + 1][3]
  {
    match ReadError(rows)
    case Some(e) => Failure(e)
    case None =>
      Success(Extend(EmptyRegistry, AppendedRows(rows)))
  }

  /** A rejected header stops reading before any row is appended. */
  lemma ReadStopsAtHeader(rows: seq<seq<string>>)
    requires WellShaped(rows) && |rows| > 0 && HeaderError(rows[0]).Some?
    ensures ReadError(rows) == HeaderError(rows[0]) && AppendedRows(rows) == []
  {
  }

  /** The first data row with an empty element stops reading after the rows before it. */
  lemma ReadStopsAtEmptyRow(rows: seq<seq<string>>, n: nat)
    requires WellShaped(rows) && 1 <= n < |rows| && HeaderError(rows[0]).None?
    requires FirstEmptyRow(rows, 1) >= n && HasEmptyElement(rows[n])
    ensures ReadError(rows) == Some(EmptyElements) && AppendedRows(rows) == DataRowsBefore(rows, n)
  {
    assert FirstEmptyRow(rows, 1) == n;
  }

  /** Reading that gets past the last row appends every data row. */
  lemma ReadCompletes(rows: seq<seq<string>>)
    requires WellShaped(rows)
    requires |rows| > 0 ==> HeaderError(rows[0]).None? && FirstEmptyRow(rows, 1) >= |rows|
    ensures ReadError(rows) == None && AppendedRows(rows) == DataRowsBefore(rows, |rows|)
  {
    if |rows| > 0 {
      assert FirstEmptyRow(rows, 1) == |rows|;
    }
  }

  /** Appending keeps the four lists parallel. */
  lemma ExtendKeepsParallel(reg: Registry, data: seq<seq<string>>)
    requires WellShaped(data)
    ensures var e := Extend(reg, data);
            |e.macAddresses| == |reg.macAddresses| + |data| && |e.id1| == |reg.id1| + |data|
            && |e.id2| == |reg.id2| + |data| && |e.id3| == |reg.id3| + |data|
  {
  }

  /** Reading fails exactly when the header is rejected or some data row has an empty element. */
  lemma ReadFailsIff(rows: seq<seq<string>>)
    requires WellShaped(rows)
    ensures ReadRows(rows).Failure?
            <==> |rows| > 0 && (HeaderError(rows[0]).Some? || exists i :: 1 <= i < |rows| && HasEmptyElement(rows[i]))
  {
    if |rows| > 0 && HeaderError(rows[0]).None? {
      var k := FirstEmptyRow(rows, 1);
      if exists i :: 1 <= i < |rows| && HasEmptyElement(rows[i]) {
        var i :| 1 <= i < |rows| && HasEmptyElement(rows[i]);
        assert k <= i;
      }
    }
  }

  /** A data row with an empty element among its first four fields is an error. */
  lemma EmptyElementRejected(rows: seq<seq<string>>, i: nat)
    requires WellShaped(rows) && 1 <= i < |rows| && HasEmptyElement(rows[i])
    requires HeaderError(rows[0]).None?
    ensures ReadRows(rows) == Failure(EmptyElements)
  {
    assert FirstEmptyRow(rows, 1) <= i;
  }

  /** No rows, or a header alone, give four empty lists. */
  lemma NoDataRowsGiveEmptyLists(rows: seq<seq<string>>)
    requires WellShaped(rows) && |rows| <= 1
    requires |rows| == 1 ==> HeaderError(rows[0]).None?
    ensures ReadRows(rows) == Success(EmptyRegistry)
  {
  }

  /**
   * `__init__`: the existence check comes first, then the suffix check, then `read`.
   * `isFile` stands for `Path.is_file()`.
   */
  function Load(csvFile: string, isFile: bool, rows: seq<seq<string>>): Result<Registry, ReaderError>
    requires WellShaped(rows)
  {
    if !isFile then Failure(FileNotFound(csvFile))
    else if Suffix(csvFile) != CsvFileSuffix then Failure(MissingCsvExtension(csvFile))
    else ReadRows(rows)
  }

  /** A path that is not a file is reported as not found, whatever its name and content. */
  lemma MissingFileReportedFirst(csvFile: string, rows: seq<seq<string>>)
    requires WellShaped(rows)
    ensures Load(csvFile, false, rows) == Failure(FileNotFound(csvFile))
  {
  }

  /** An existing file is refused for its extension exactly when its name does not end in `.csv`. */
  lemma ExtensionCheckedSecond(csvFile: string, rows: seq<seq<string>>)
    requires WellShaped(rows)
    ensures var name := Name(csvFile);
            Load(csvFile, true, rows) == Failure(MissingCsvExtension(csvFile))
            <==> !(|name| > 4 && name[|name| - 4..] == CsvFileSuffix)
  {
    CsvSuffixIff(csvFile);
  }

  /** A file with the header row and one player, whose address is `mac`. */
  function OnePlayerRows(mac: string): seq<seq<string>>
  {
    [["mac_addresses", "id1", "id2", "id3"], [mac, "a1", "b1", "c1"]]
  }

  /** A file named `<stem>.csv`, the stem free of dots and slashes, carries the `.csv` suffix. */
  lemma CsvNamedFileHasSuffix(stem: string)
    requires stem != [] && forall j :: 0 <= j < |stem| ==> stem[j] != '/' && stem[j] != '.'
    ensures Suffix(stem + CsvFileSuffix) == CsvFileSuffix
  {
    var path := stem + CsvFileSuffix;
    assert RFind(path, '/') == -1 by {
      forall j | 0 <= j < |path|
        ensures path[j] != '/'
      {
        if j >= |stem| {
          assert path[j] == CsvFileSuffix[j - |stem|];
        }
      }
    }
    assert Name(path) == path;
    var k := |stem|;
    assert RFind(path, '.') == k by {
      assert path[k] == '.' && path[k + 1] != '.' && path[k + 2] != '.' && path[k + 3] != '.';
    }
    assert path[k..] == CsvFileSuffix;
  }

  /** The one-player rows read into one entry per list. */
  lemma OnePlayerRowsRead(mac: string)
    requires mac != ""
    ensures WellShaped(OnePlayerRows(mac))
    ensures ReadRows(OnePlayerRows(mac)) == Success(Registry([mac], ["a1"], ["b1"], ["c1"]))
  {
    var rows := OnePlayerRows(mac);
    assert WellShaped(rows);
    assert OccursAt(rows[0][0], MacAddressColumnName, 0);
    assert OccursAt(rows[0][1], Id1ColumnName, 0);
    assert OccursAt(rows[0][2], Id2ColumnName, 0);
    assert OccursAt(rows[0][3], Id3ColumnName, 0);
    assert HeaderError(rows[0]).None?;
    assert !HasEmptyElement(rows[1]);
    assert FirstEmptyRow(rows, 1) == 2;
    assert AppendedRows(rows) == [] + [rows[1]];
    ExtendByRow(EmptyRegistry, [], rows[1]);
    ExtendByNothing(EmptyRegistry);
    assert [] + [rows[1][0]] == [rows[1][0]] && [] + [rows[1][1]] == [rows[1][1]];
    assert [] + [rows[1][2]] == [rows[1][2]] && [] + [rows[1][3]] == [rows[1][3]];
  }

  /** `players.csv` holding one player loads into one entry per list. */
  lemma OnePlayerFileLoads(mac: string)
    requires mac != ""
    ensures WellShaped(OnePlayerRows(mac))
    ensures Load("players.csv", true, OnePlayerRows(mac)) == Success(Registry([mac], ["a1"], ["b1"], ["c1"]))
  {
    CsvNamedFileHasSuffix("players");
    assert "players" + CsvFileSuffix == "players.csv";
    OnePlayerRowsRead(mac);
  }

  /** A trailing `/.` names the same file: the path is opened and read as the path without it. */
  lemma TrailerKeepsLoad(path: string, rows: seq<seq<string>>)
    requires WellShaped(rows)
    ensures Load(path + "/.", true, rows).Success? <==> Load(path, true, rows).Success?
    ensures Load(path, true, rows).Success? ==> Load(path + "/.", true, rows) == Load(path, true, rows)
  {
    SuffixIgnoresTrailer(path);
  }

  /** `<stem>.csv/.` holding one player loads like `<stem>.csv`. */
  lemma TrailingDotPathLoads(stem: string, mac: string)
    requires stem != [] && forall j :: 0 <= j < |stem| ==> stem[j] != '/' && stem[j] != '.'
    requires mac != ""
    ensures WellShaped(OnePlayerRows(mac))
    ensures Load(stem + CsvFileSuffix + "/.", true, OnePlayerRows(mac))
            == Success(Registry([mac], ["a1"], ["b1"], ["c1"]))
  {
    CsvNamedFileHasSuffix(stem);
    SuffixIgnoresTrailer(stem + CsvFileSuffix);
    OnePlayerRowsRead(mac);
  }

  /** The reader object: the four lists of the `_csv_file_dict` dictionary, updated in place. */
  class MusicPlayerCsvReader {
    const csvFile: string
    var macAddresses: seq<string>
    var id1: seq<string>
    var id2: seq<string>
    var id3: seq<string>

    /** The four lists stay parallel. */
    predicate Valid()
      reads this
    {
      |id1| == |macAddresses| && |id2| == |macAddresses| && |id3| == |macAddresses|
    }

    function Contents(): Registry
      reads this
    {
      Registry(macAddresses, id1, id2, id3)
    }

    /** The dictionary of four empty lists that `__init__` sets up before its checks. */
    constructor (csvFile: string)
      ensures this.csvFile == csvFile
      ensures Valid() && Contents() == EmptyRegistry
    {
      this.csvFile := csvFile;
      macAddresses, id1, id2, id3 := [], [], [], [];
    }

    /**
     * `read`: checks the header row, then appends each data row's first four fields
     * until a row with an empty element raises. Rows appended before the failing row
     * stay appended.
     */
    method Read(rows: seq<seq<string>>) returns (outcome: Outcome<ReaderError>)
      requires WellShaped(rows)
      modifies this
      ensures outcome == match ReadError(rows) case Some(e) => Fail(e) case None => Pass
      ensures Contents() == Extend(old(Contents()), AppendedRows(rows))
      ensures old(Valid()) ==> Valid()
    {
      ghost var start := Contents();
      ExtendByNothing(start);
      var lineCount := 0;
      while lineCount < |rows|
        invariant 0 <= lineCount <= |rows|
        invariant lineCount > 0 ==> HeaderError(rows[0]).None? && FirstEmptyRow(rows, 1) >= lineCount
        invariant Contents() == Extend(start, DataRowsBefore(rows, lineCount))
      {
        var row := rows[lineCount];
        if lineCount == 0 {
          var headerError := HeaderError(row);
          if headerError.Some? {
            ExtendByNothing(start);
            ReadStopsAtHeader(rows);
            return Fail(headerError.value);
          }
        } else {
          if HasEmptyElement(row) {
            ReadStopsAtEmptyRow(rows, lineCount);
            ExtendKeepsParallel(start, DataRowsBefore(rows, lineCount));
            return Fail(EmptyElements);
          }
          ExtendByDataRow(start, rows, lineCount);
          macAddresses, id1, id2, id3 := macAddresses + [row[0]], id1 + [row[1]], id2 + [row[2]], id3 + [row[3]];
        }
        lineCount := lineCount + 1;
      }
      ReadCompletes(rows);
      ExtendKeepsParallel(start, DataRowsBefore(rows, |rows|));
      return Pass;
    }

    /** `get_mac_address`: the mac_addresses list, parallel to the three id lists. */
    function GetMacAddress(): (r: seq<string>)
      reads this
      requires Valid()
      ensures |r| == |id1| == |id2| == |id3|
      ensures r == macAddresses
    {
      macAddresses
    }
  }

  /**
   * Constructing a reader: the checks of `__init__` and the `read` it ends with.
   * A reader is handed back only when nothing was raised.
   */
  method Open(csvFile: string, isFile: bool, rows: seq<seq<string>>)
    returns (r: Result<MusicPlayerCsvReader, ReaderError>)
    requires WellShaped(rows)
    ensures r.Failure? ==> Load(csvFile, isFile, rows) == Failure(r.error)
    ensures r.Success? ==> && fresh(r.value) && r.value.csvFile == csvFile && r.value.Valid()
                           && Load(csvFile, isFile, rows) == Success(r.value.Contents())
  {
    var reader := new MusicPlayerCsvReader(csvFile);
    if !isFile {
      return Failure(FileNotFound(csvFile));
    }
    if Suffix(csvFile) != CsvFileSuffix {
      return Failure(MissingCsvExtension(csvFile));
    }
    var outcome := reader.Read(rows);
    if outcome.Fail? {
      return Failure(outcome.error);
    }
    return Success(reader);
  }
}
