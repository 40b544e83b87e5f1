/**
 * Loading the table from a `name;depth;salinity` text file. The file is given as the
 * sequence of lines `getline` would return, and the library's text-to-double conversion
 * as a function parameter `stod`, applied to the two numeric fields exactly as cut out.
 */
module SeaFile {
  import opened Seas

  /** The three text fields of one line, before conversion. */
  datatype Fields = Fields(name: string, depthText: string, salinityText: string)

  predicate NoSeparator(s: string) {
    forall k :: 0 <= k < |s| ==> s[k] != ';'
  }

  /** The line contains at least two separators. */
  predicate HasTwoSeparators(line: string) {
    exists i, j :: 0 <= i < j < |line| && line[i] == ';' && line[j] == ';'
  }

  /** The file layout of one record: the fields joined by separators. */
  function Join(f: Fields): string {
    f.name + ";" + f.depthText + ";" + f.salinityText
  }

  /** string::find(c, from): the first position at or after `from` holding c. */
  function FindFrom(s: string, c: char, from: nat): (r: Option<nat>)
    decreases |s| - from
    ensures r.Some? ==> from <= r.value < |s| && s[r.value] == c
    ensures r.Some? ==> forall k :: from <= k < r.value ==> s[k] != c
    ensures r.None? ==> forall k :: from <= k < |s| ==> s[k] != c
  {
    if from >= |s| then None
    else if s[from] == c then Some(from)
    else FindFrom(s, c, from + 1)
  }

  /**
   * Cuts a line at its first two separators; None when there are fewer than two.
   * The salinity text is everything after the second separator, separators included.
   * (When the first search fails, the second one starts from npos + 1, which wraps to 0
   * and fails too; so it is only made after a first hit.)
   */
  function SplitLine(line: string): (r: Option<Fields>)
    ensures r.Some? <==> HasTwoSeparators(line)
    ensures r.Some? ==> line == Join(r.value)
    ensures r.Some? ==> NoSeparator(r.value.name) && NoSeparator(r.value.depthText)
  {
    match FindFrom(line, ';', 0)
    case None => None
    case Some(pos1) =>
      match FindFrom(line, ';', pos1 + 1)
      case None => None
      case Some(pos2) =>
        assert line == line[..pos1] + [line[pos1]] + line[pos1 + 1..pos2] + [line[pos2]] + line[pos2 + 1..];
        Some(Fields(line[..pos1], line[pos1 + 1..pos2], line[pos2 + 1..]))
  }

  /** Writing a record's fields and splitting the line again gives the same fields back. */
  lemma SplitJoin(f: Fields)
    requires NoSeparator(f.name) && NoSeparator(f.depthText)
    ensures SplitLine(Join(f)) == Some(f)
  {
    var line := Join(f);
    var p1, p2 := |f.name|, |f.name| + 1 + |f.depthText|;
    assert line[p1] == ';' && line[p2] == ';';
    assert forall k :: 0 <= k < p1 ==> line[k] == f.name[k];
    assert forall k :: p1 < k < p2 ==> line[k] == f.depthText[k - p1 - 1];
    assert FindFrom(line, ';', 0) == Some(p1);
    assert FindFrom(line, ';', p1 + 1) == Some(p2);
    assert line[..p1] == f.name;
    assert line[p1 + 1..p2] == f.depthText;
    assert line[p2 + 1..] == f.salinityText;
  }

  /** The record a line's fields become. */
  function ToSea(f: Fields, stod: string -> real): Sea {
    Sea(f.name, stod(f.depthText), stod(f.salinityText))
  }

  /** The lines after the first, which is always discarded as a header. */
  function DataLines(lines: seq<string>): seq<string> {
    if lines == [] then [] else lines[1..]
  }

  /** Every line that splits, in file order: the reference the reader is measured against. */
  function AllRecords(ls: seq<string>): seq<Fields> {
    if ls == [] then []
    else (if SplitLine(ls[0]).Some? then [SplitLine(ls[0]).value] else []) + AllRecords(ls[1..])
  }

  /** The reading loop: takes records from the lines until `room` of them are taken. */
  function ReadRecords(ls: seq<string>, room: nat): (r: seq<Fields>)
    ensures |r| <= room
  {
    if room == 0 || ls == [] then []
    else
      match SplitLine(ls[0])
      case None => ReadRecords(ls[1..], room)
      case Some(f) => [f] + ReadRecords(ls[1..], room - 1)
  }

  /** The reading loop from line i on, by position: ReadRecords over lines[i..]. */
  function ReadFrom(lines: seq<string>, i: nat, room: nat): seq<Fields>
    decreases |lines| - i
  {
    if room == 0 || i >= |lines| then []
    else
      match SplitLine(lines[i])
      case None => ReadFrom(lines, i + 1, room)
      case Some(f) => [f] + ReadFrom(lines, i + 1, room - 1)
  }

  lemma {:induction false} ReadFromIsReadRecords(lines: seq<string>, i: nat, room: nat)
    requires i <= |lines|
    ensures ReadFrom(lines, i, room) == ReadRecords(lines[i..], room)
    decreases |lines| - i
  {
    if room != 0 && i < |lines| {
      assert lines[i..][0] == lines[i] && lines[i..][1..] == lines[i + 1..];
      ReadFromIsReadRecords(lines, i + 1, if SplitLine(lines[i]).Some? then room - 1 else room);
    }
  }

  /** One turn of the reading loop, seen from the records still expected after the first c. */
  lemma ReadStepSuffix(lines: seq<string>, i: nat, room: nat, expected: seq<Fields>, c: nat)
    requires i < |lines| && room > 0 && c <= |expected|
    requires ReadFrom(lines, i, room) == expected[c..]
    ensures SplitLine(lines[i]).Some? ==> c < |expected| && expected[c] == SplitLine(lines[i]).value
                                          && ReadFrom(lines, i + 1, room - 1) == expected[c + 1..]
    ensures SplitLine(lines[i]).None? ==> ReadFrom(lines, i + 1, room) == expected[c..]
  {
    if SplitLine(lines[i]).Some? {
      assert expected[c..][0] == expected[c];
      assert expected[c..][1..] == expected[c + 1..];
    }
  }

  /** What the reader loads from a file's lines. */
  function ParseFile(lines: seq<string>): seq<Fields> {
    ReadRecords(DataLines(lines), MaxSeas)
  }

  /** The reading loop takes the first `room` records the lines hold, skipping nothing else. */
  lemma {:induction false} ReadRecordsIsPrefix(ls: seq<string>, room: nat)
    ensures var all := AllRecords(ls);
            ReadRecords(ls, room) == all[..if room < |all| then room else |all|]
  {
    if room != 0 && ls != [] {
      ReadRecordsIsPrefix(ls[1..], if SplitLine(ls[0]).Some? then room - 1 else room);
    }
  }

  /** Every record the reader loads came from a line with two separators, split there. */
  lemma {:induction false} AllRecordsFromLines(ls: seq<string>, k: nat)
    requires k < |AllRecords(ls)|
    ensures exists i :: 0 <= i < |ls| && SplitLine(ls[i]) == Some(AllRecords(ls)[k])
  {
    var rest := AllRecords(ls[1..]);
    if SplitLine(ls[0]).Some? {
      if k == 0 {
        assert SplitLine(ls[0]) == Some(AllRecords(ls)[0]);
      } else {
        AllRecordsFromLines(ls[1..], k - 1);
        var i :| 0 <= i < |ls[1..]| && SplitLine(ls[1..][i]) == Some(rest[k - 1]);
        assert SplitLine(ls[i + 1]) == Some(AllRecords(ls)[k]);
      }
    } else {
      AllRecordsFromLines(ls[1..], k);
      var i :| 0 <= i < |ls[1..]| && SplitLine(ls[1..][i]) == Some(rest[k]);
      assert SplitLine(ls[i + 1]) == Some(AllRecords(ls)[k]);
    }
  }

  /** Lines written in the file layout, one per record, are read back as those records. */
  lemma {:induction false} AllRecordsOfJoined(fs: seq<Fields>, ls: seq<string>)
    requires |ls| == |fs|
    requires forall k :: 0 <= k < |fs| ==> NoSeparator(fs[k].name) && NoSeparator(fs[k].depthText)
    requires forall k :: 0 <= k < |fs| ==> ls[k] == Join(fs[k])
    ensures AllRecords(ls) == fs
  {
    if fs != [] {
      SplitJoin(fs[0]);
      AllRecordsOfJoined(fs[1..], ls[1..]);
    }
  }

  /** The first line never matters, whatever it holds. */
  lemma FirstLineDiscarded(first: string, other: string, rest: seq<string>)
    ensures ParseFile([first] + rest) == ParseFile([other] + rest)
  {
    assert DataLines([first] + rest) == rest == DataLines([other] + rest);
  }

  /**
   * ReadSeasFromFile: skips the first line, then stores one record per line with two
   * separators into seas[0], seas[1], ... until the lines run out or MaxSeas are stored,
   * and returns how many it stored. Empty lines are skipped. The other entries of seas
   * are left as they were.
   */
  method ReadSeasFromFile(lines: seq<string>, stod: string -> real, seas: array<Sea>) returns (count: int)
    requires seas.Length >= MaxSeas
    modifies seas
    ensures 0 <= count <= MaxSeas
    ensures count == |ParseFile(lines)|
    ensures forall k :: 0 <= k < count ==> seas[k] == ToSea(ParseFile(lines)[k], stod)
    ensures forall k :: count <= k < seas.Length ==> seas[k] == old(seas[k])
  {
    count := 0;
    if |lines| == 0 {
      // not even the header line can be read
      return;
    }
    var i := 1;
    ghost var expected := ParseFile(lines);
    ReadFromIsReadRecords(lines, 1, MaxSeas);
    while count < MaxSeas && i < |lines|
      invariant 1 <= i <= |lines|
      invariant 0 <= count <= MaxSeas && count <= |expected|
      invariant ReadFrom(lines, i, MaxSeas - count) == expected[count..]
      invariant forall k {:trigger seas[k]} :: 0 <= k < count ==> seas[k] == ToSea(expected[k], stod)
      invariant forall k :: count <= k < seas.Length ==> seas[k] == old(seas[k])
    {
      count := ReadLine(lines, i, stod, seas, count, expected);
      i := i + 1;
    }
    assert ReadFrom(lines, i, MaxSeas - count) == [];
  }

  /**
   * One turn of the reading loop, on line i: an empty line is skipped; otherwise the line
   * is split and, if it has two separators, its record is stored at seas[count].
   */
  method ReadLine(lines: seq<string>, i: nat, stod: string -> real, seas: array<Sea>, count: nat,
                  ghost expected: seq<Fields>)
    returns (newCount: nat)
    requires i < |lines| && count < MaxSeas <= seas.Length && count <= |expected|
    requires ReadFrom(lines, i, MaxSeas - count) == expected[count..]
    modifies seas
    ensures newCount <= MaxSeas && newCount <= |expected|
    ensures ReadFrom(lines, i + 1, MaxSeas - newCount) == expected[newCount..]
    ensures newCount == count || newCount == count + 1
    ensures newCount == count + 1 ==> seas[count] == ToSea(expected[count], stod)
    ensures forall k :: 0 <= k < seas.Length && (k != count || newCount == count) ==> seas[k] == old(seas[k])
  {
    ReadStepSuffix(lines, i, MaxSeas - count, expected, count);
    newCount := count;
    var line := lines[i];
    if line == [] {
      assert SplitLine(line) == None;
      return;
    }
    var fields := SplitLine(line);
    if fields.Some? {
      var f := fields.value;
      seas[count] := Sea(f.name, stod(f.depthText), stod(f.salinityText));
      newCount := count + 1;
    }
  }

  /** Read back from lines in the file layout, a table of at most MaxSeas records is complete. */
  lemma RoundTripWithinCapacity(header: string, fs: seq<Fields>, ls: seq<string>)
    requires |fs| <= MaxSeas && |ls| == |fs|
    requires forall k :: 0 <= k < |fs| ==> NoSeparator(fs[k].name) && NoSeparator(fs[k].depthText)
    requires forall k :: 0 <= k < |fs| ==> ls[k] == Join(fs[k])
    ensures ParseFile([header] + ls) == fs
  {
    assert DataLines([header] + ls) == ls;
    AllRecordsOfJoined(fs, ls);
    ReadRecordsIsPrefix(ls, MaxSeas);
  }
}
