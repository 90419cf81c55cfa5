/** `downloadCSV`: the table of rotation samples (a header row, then one row per frame), its
    CSV text, and the name of the downloaded file. Numbers are rendered by a formatter given
    as a parameter, which stands for JavaScript's number-to-string conversion. */
module Download {
  import opened Text
  import opened Series

  /** A table cell: the header's labels, or a sample. */
  datatype Cell = Label(text: string) | Number(value: real)

  /** The first row of every table. */
  const Header: seq<Cell> := [Label("0"), Label("1"), Label("2")]

  /** The three rotation channels of an analysis result. */
  datatype Maps = Maps(rotStructure: FrameSeries, rotLeftArm: FrameSeries, rotRightArm: FrameSeries)

  /** What `downloadCSV` is given: the loaded file's name, the frame list and the channels. */
  datatype AnalysisResult = AnalysisResult(fileName: string, frames: seq<nat>, maps: Maps)

  /** The row of one frame: its structure, left-arm and right-arm samples. */
  function DataRow(maps: Maps, frame: nat): (row: seq<Cell>)
    ensures |row| == 3 && forall i :: 0 <= i < 3 ==> row[i].Number?
    ensures frame !in maps.rotStructure ==> row[0] == Number(0.0)
    ensures frame !in maps.rotLeftArm ==> row[1] == Number(0.0)
    ensures frame !in maps.rotRightArm ==> row[2] == Number(0.0)
    ensures frame in maps.rotStructure ==> row[0] == Number(maps.rotStructure[frame])
    ensures frame in maps.rotLeftArm ==> row[1] == Number(maps.rotLeftArm[frame])
    ensures frame in maps.rotRightArm ==> row[2] == Number(maps.rotRightArm[frame])
  {
    [Number(ValueOrZero(maps.rotStructure, frame)),
     Number(ValueOrZero(maps.rotLeftArm, frame)),
     Number(ValueOrZero(maps.rotRightArm, frame))]
  }

  /** The rows `downloadCSV` builds: the header, then one row per listed frame in list order;
      every row has three cells, and a frame missing from a channel reads 0 there. */
  function Table(frames: seq<nat>, maps: Maps): (rows: seq<seq<Cell>>)
    ensures |rows| == |frames| + 1 && rows[0] == Header
    ensures forall k :: 0 <= k < |rows| ==> |rows[k]| == 3
    ensures forall k :: 0 <= k < |frames| ==>
      && rows[k + 1][0] == Number(if frames[k] in maps.rotStructure then maps.rotStructure[frames[k]] else 0.0)
      && rows[k + 1][1] == Number(if frames[k] in maps.rotLeftArm then maps.rotLeftArm[frames[k]] else 0.0)
      && rows[k + 1][2] == Number(if frames[k] in maps.rotRightArm then maps.rotRightArm[frames[k]] else 0.0)
  {
    [Header] + seq(|frames|, k requires 0 <= k < |frames| => DataRow(maps, frames[k]))
  }

  /** `rows` seeded with the header and extended by one `push` per frame in `frames.forEach`. */
  method BuildRows(frames: seq<nat>, maps: Maps) returns (rows: seq<seq<Cell>>)
    ensures rows == Table(frames, maps)
  {
    rows := [Header];
    var i := 0;
    while i < |frames|
      invariant 0 <= i <= |frames|
      invariant rows == Table(frames[..i], maps)
    {
      assert frames[..i + 1] == frames[..i] + [frames[i]];
      TableSnoc(frames[..i], frames[i], maps);
      rows := rows + [DataRow(maps, frames[i])];
      i := i + 1;
    }
    assert frames[..i] == frames;
  }

  /** One more frame adds one more row at the end. */
  lemma TableSnoc(frames: seq<nat>, frame: nat, maps: Maps)
    ensures Table(frames + [frame], maps) == Table(frames, maps) + [DataRow(maps, frame)]
  {
    var longer := frames + [frame];
    var grown, extended := Table(longer, maps), Table(frames, maps) + [DataRow(maps, frame)];
    forall k | 0 <= k < |grown| ensures grown[k] == extended[k] {
      if 0 < k <= |frames| {
        assert longer[k - 1] == frames[k - 1];
      }
    }
  }

  /** A cell's text: a label as written, a number through the formatter. */
  function CellText(fmt: real -> string, c: Cell): string {
    match c
    case Label(t) => t
    case Number(v) => fmt(v)
  }

  function CellTexts(fmt: real -> string, row: seq<Cell>): (texts: seq<string>)
    ensures |texts| == |row|
  {
    seq(|row|, i requires 0 <= i < |row| => CellText(fmt, row[i]))
  }

  /** `r.join(",")`: a comma between neighbouring cells, none around a single cell. */
  function RowText(fmt: real -> string, row: seq<Cell>): (line: string)
    ensures |row| == 0 ==> line == ""
    ensures |row| == 1 ==> line == CellText(fmt, row[0])
  {
    Join(CellTexts(fmt, row), ',')
  }

  function RowTexts(fmt: real -> string, rows: seq<seq<Cell>>): (lines: seq<string>)
    ensures |lines| == |rows|
  {
    seq(|rows|, k requires 0 <= k < |rows| => RowText(fmt, rows[k]))
  }

  /** `rows.map(r => r.join(",")).join("\n")`: no quoting, and no line break before the first
      row or after the last. */
  function CsvContent(fmt: real -> string, rows: seq<seq<Cell>>): (text: string)
    ensures |rows| == 0 ==> text == ""
    ensures |rows| == 1 ==> text == RowText(fmt, rows[0])
  {
    Join(RowTexts(fmt, rows), '\n')
  }

  /** A cell whose text holds neither separator. */
  predicate PlainCell(fmt: real -> string, c: Cell) {
    ',' !in CellText(fmt, c) && '\n' !in CellText(fmt, c)
  }

  /** A formatter that never writes a separator, as a number's decimal rendering never does. */
  ghost predicate PlainFormatter(fmt: real -> string) {
    forall v :: ',' !in fmt(v) && '\n' !in fmt(v)
  }

  /** Reading the CSV text back: splitting it at line breaks gives one line per row, and
      splitting a line at commas gives that row's cell texts. */
  lemma CsvRoundTrip(fmt: real -> string, rows: seq<seq<Cell>>)
    requires |rows| >= 1
    requires forall k :: 0 <= k < |rows| ==> |rows[k]| >= 1
    requires forall k, i :: 0 <= k < |rows| && 0 <= i < |rows[k]| ==> PlainCell(fmt, rows[k][i])
    ensures Split(CsvContent(fmt, rows), '\n') == RowTexts(fmt, rows)
    ensures forall k :: 0 <= k < |rows| ==> Split(RowTexts(fmt, rows)[k], ',') == CellTexts(fmt, rows[k])
  {
    var lines := RowTexts(fmt, rows);
    forall k | 0 <= k < |rows|
      ensures '\n' !in lines[k]
      ensures Split(lines[k], ',') == CellTexts(fmt, rows[k])
    {
      var texts := CellTexts(fmt, rows[k]);
      assert forall i :: 0 <= i < |texts| ==> texts[i] == CellText(fmt, rows[k][i]);
      JoinAvoids(texts, ',', '\n');
      SplitJoin(texts, ',');
    }
    SplitJoin(lines, '\n');
  }

  /** The CSV text of a table reads back as the header line `0,1,2` followed by one line per
      frame holding the formatted structure, left-arm and right-arm samples. */
  lemma TableRoundTrip(fmt: real -> string, frames: seq<nat>, maps: Maps)
    requires PlainFormatter(fmt)
    ensures var lines := Split(CsvContent(fmt, Table(frames, maps)), '\n');
      && |lines| == |frames| + 1
      && lines[0] == "0,1,2"
      && forall k :: 0 <= k < |frames| ==>
           Split(lines[k + 1], ',') ==
             [fmt(ValueOrZero(maps.rotStructure, frames[k])),
              fmt(ValueOrZero(maps.rotLeftArm, frames[k])),
              fmt(ValueOrZero(maps.rotRightArm, frames[k]))]
  {
    var rows := Table(frames, maps);
    TablePlain(fmt, frames, maps);
    CsvRoundTrip(fmt, rows);
    TableTexts(fmt, frames, maps);
  }

  /** The header's text and each data row's cell texts. */
  lemma TableTexts(fmt: real -> string, frames: seq<nat>, maps: Maps)
    ensures RowTexts(fmt, Table(frames, maps))[0] == "0,1,2"
    ensures forall k :: 0 <= k < |frames| ==>
      CellTexts(fmt, Table(frames, maps)[k + 1]) ==
        [fmt(ValueOrZero(maps.rotStructure, frames[k])),
         fmt(ValueOrZero(maps.rotLeftArm, frames[k])),
         fmt(ValueOrZero(maps.rotRightArm, frames[k]))]
  {
    var rows := Table(frames, maps);
    HeaderText(fmt);
    forall k | 0 <= k < |frames|
      ensures CellTexts(fmt, rows[k + 1]) ==
        [fmt(ValueOrZero(maps.rotStructure, frames[k])),
         fmt(ValueOrZero(maps.rotLeftArm, frames[k])),
         fmt(ValueOrZero(maps.rotRightArm, frames[k]))]
    {
      assert rows[k + 1] == DataRow(maps, frames[k]);
      DataRowTexts(fmt, maps, frames[k]);
    }
  }

  /** A frame's row reads as its three formatted samples. */
  lemma DataRowTexts(fmt: real -> string, maps: Maps, frame: nat)
    ensures CellTexts(fmt, DataRow(maps, frame)) ==
      [fmt(ValueOrZero(maps.rotStructure, frame)),
       fmt(ValueOrZero(maps.rotLeftArm, frame)),
       fmt(ValueOrZero(maps.rotRightArm, frame))]
  {
    var row := DataRow(maps, frame);
    var texts := CellTexts(fmt, row);
    assert |texts| == 3 && texts[0] == CellText(fmt, row[0]);
    assert texts[1] == CellText(fmt, row[1]) && texts[2] == CellText(fmt, row[2]);
  }

  /** The header row's text. */
  lemma HeaderText(fmt: real -> string)
    ensures RowText(fmt, Header) == "0,1,2"
  {
    assert CellTexts(fmt, Header) == ["0", "1", "2"];
    assert Join(["1", "2"], ',') == "1,2";
  }

  /** Every cell of a table is plain when the formatter is. */
  lemma TablePlain(fmt: real -> string, frames: seq<nat>, maps: Maps)
    requires PlainFormatter(fmt)
    ensures var rows := Table(frames, maps);
      forall k, i :: 0 <= k < |rows| && 0 <= i < |rows[k]| ==> PlainCell(fmt, rows[k][i])
  {
    var rows := Table(frames, maps);
    forall k, i | 0 <= k < |rows| && 0 <= i < |rows[k]| ensures PlainCell(fmt, rows[k][i]) {
      if k == 0 {
        assert rows[k][i] in Header;
      } else {
        assert rows[k][i].Number?;
      }
    }
  }

  /** The rows `[["0","1","2"],[1,2,3]]` give `0,1,2\n1,2,3`. */
  lemma ExampleCsv(fmt: real -> string)
    requires fmt(1.0) == "1" && fmt(2.0) == "2" && fmt(3.0) == "3"
    ensures CsvContent(fmt, [Header, [Number(1.0), Number(2.0), Number(3.0)]]) == "0,1,2\n1,2,3"
  {
    var data := [Number(1.0), Number(2.0), Number(3.0)];
    HeaderText(fmt);
    ExampleRowText(fmt);
    var lines := ["0,1,2", "1,2,3"];
    assert RowTexts(fmt, [Header, data]) == lines;
    assert lines[1..] == ["1,2,3"] && Join(lines[1..], '\n') == "1,2,3";
    assert Join(lines, '\n') == "0,1,2" + "\n" + "1,2,3";
    assert "0,1,2" + "\n" + "1,2,3" == "0,1,2\n1,2,3";
  }

  /** The row `[1,2,3]` reads `1,2,3`. */
  lemma ExampleRowText(fmt: real -> string)
    requires fmt(1.0) == "1" && fmt(2.0) == "2" && fmt(3.0) == "3"
    ensures RowText(fmt, [Number(1.0), Number(2.0), Number(3.0)]) == "1,2,3"
  {
    assert CellTexts(fmt, [Number(1.0), Number(2.0), Number(3.0)]) == ["1", "2", "3"];
    assert Join(["3"], ',') == "3";
    assert Join(["2", "3"], ',') == "2,3";
  }

  /** The name ends in `.txt`, in any letter case (`/\.txt$/i`). */
  predicate HasTxtSuffix(name: string)
    ensures HasTxtSuffix(name) <==>
      && |name| >= 4 && name[|name| - 4] == '.'
      && Lower(name[|name| - 3]) == 't' && Lower(name[|name| - 2]) == 'x' && Lower(name[|name| - 1]) == 't'
  {
    if |name| < 4 then false
    else
      TxtSuffixLetters(name);
      MatchesAtIgnoringCase(name, |name| - 4, ".txt")
  }

  /** `.txt` matched without letter case, one character at a time. */
  lemma TxtSuffixLetters(name: string)
    requires |name| >= 4
    ensures MatchesAtIgnoringCase(name, |name| - 4, ".txt") <==>
      && name[|name| - 4] == '.'
      && Lower(name[|name| - 3]) == 't' && Lower(name[|name| - 2]) == 'x' && Lower(name[|name| - 1]) == 't'
  {
    var q := |name| - 4;
    assert Lower(name[q]) == '.' <==> name[q] == '.';
    if MatchesAtIgnoringCase(name, q, ".txt") {
      assert Lower(name[q + 0]) == Lower(".txt"[0]);
      assert Lower(name[q + 1]) == Lower(".txt"[1]);
      assert Lower(name[q + 2]) == Lower(".txt"[2]);
      assert Lower(name[q + 3]) == Lower(".txt"[3]);
    }
  }

  /** `fileName.replace(/\.txt$/i, "") + ".csv"`. */
  function CsvFileName(fileName: string): (r: string)
    ensures |r| >= 4 && r[|r| - 4..] == ".csv"
    ensures r[..|r| - 4] <= fileName
  {
    var stem := if HasTxtSuffix(fileName) then fileName[..|fileName| - 4] else fileName;
    var r := stem + ".csv";
    assert r[..|r| - 4] == stem;
    r
  }

  /** A `.txt` suffix in any letter case is replaced by `.csv`, and only that one suffix. */
  lemma CsvNameOfTxt(stem: string, ext: string)
    requires |ext| == 4 && forall i :: 0 <= i < 4 ==> Lower(ext[i]) == Lower(".txt"[i])
    ensures CsvFileName(stem + ext) == stem + ".csv"
  {
    var name := stem + ext;
    assert forall i :: 0 <= i < 4 ==> name[|name| - 4 + i] == ext[i];
    assert HasTxtSuffix(name);
    assert name[..|name| - 4] == stem;
  }

  /** A name without that suffix just gets `.csv` appended. */
  lemma CsvNameOfOther(name: string)
    requires !HasTxtSuffix(name)
    ensures CsvFileName(name) == name + ".csv"
  {
  }

  /** `downloadCSV(result)` up to the download itself: the file's name and its CSV text. */
  method DownloadCsv(result: AnalysisResult, fmt: real -> string) returns (name: string, content: string)
    ensures name == CsvFileName(result.fileName)
    ensures content == CsvContent(fmt, Table(result.frames, result.maps))
  {
    var rows := BuildRows(result.frames, result.maps);
    content := Join(RowTexts(fmt, rows), '\n');
    name := CsvFileName(result.fileName);
  }
}
