/**
 * Shaping records into the delimited table (write_csv). `csv.DictWriter`
 * writes the first record's keys as the header line and then, for each
 * record, one line with one cell per header column, cells separated by ';'.
 */
module CsvTable {
  import opened Wrappers
  import opened Metadata

  /** The cell separator handed to the writer. */
  const Delimiter: char := ';'

  /** The cell of one column: the record's value under the column's key, or "" (DictWriter's restval). */
  function Cell(r: Record, key: string): (c: string)
    ensures key in Keys(r) ==> Get(r, key) == Some(c)
    ensures key !in Keys(r) ==> c == ""
  {
    match Get(r, key)
    case Some(v) => v
    case None => ""
  }

  /** `writer.writerow(r)` for a header: one cell per column, in header order. */
  function Row(header: seq<string>, r: Record): (row: seq<string>)
    ensures |row| == |header|
    ensures forall j :: 0 <= j < |header| ==>
      (header[j] in Keys(r) ==> Get(r, header[j]) == Some(row[j])) &&
      (header[j] !in Keys(r) ==> row[j] == "")
  {
    seq(|header|, j requires 0 <= j < |header| => Cell(r, header[j]))
  }

  /** No record has a key the header lacks; `writerow` raises ValueError for such a record. */
  predicate NoExtraKeys(records: seq<Record>)
  {
    forall i, k :: 0 <= i < |records| && k in Keys(records[i]) ==> k in Keys(records[0])
  }

  /** The rows of cells for a non-empty list: the header, then one row per record. */
  function Table(records: seq<Record>): seq<seq<string>>
    requires records != []
  {
    [Keys(records[0])] + seq(|records|, i requires 0 <= i < |records| => Row(Keys(records[0]), records[i]))
  }

  /** One line of the file: the cells joined with the delimiter (the writer's quoting is not modelled). */
  function JoinCells(cells: seq<string>): string
  {
    if cells == [] then ""
    else if |cells| == 1 then cells[0]
    else cells[0] + [Delimiter] + JoinCells(cells[1..])
  }

  /** The lines of the file, one per row. */
  function Lines(rows: seq<seq<string>>): (lines: seq<string>)
    ensures |lines| == |rows|
  {
    seq(|rows|, i requires 0 <= i < |rows| => JoinCells(rows[i]))
  }

  /**
   * An empty list writes nothing; any other list writes the header line,
   * then one line per record, in input order.
   */
  method WriteCsv(records: seq<Record>) returns (written: Option<seq<string>>)
    requires NoExtraKeys(records)
    ensures written.None? <==> records == []
    ensures written.Some? ==> written.value == Lines(Table(records))
  {
    if records == [] {
      return None;
    }
    var header := Keys(records[0]);
    var lines := [JoinCells(header)];
    for i := 0 to |records|
      invariant |lines| == i + 1 && lines[0] == JoinCells(header)
      invariant forall j :: 0 <= j < i ==> lines[j + 1] == JoinCells(Row(header, records[j]))
    {
      lines := lines + [JoinCells(Row(header, records[i]))];
    }
    assert forall k :: 0 <= k < |lines| ==> lines[k] == Lines(Table(records))[k];
    return Some(lines);
  }

  /** `csv.DictReader`'s view of one data row: each header key paired with the cell below it. */
  function ReadRow(header: seq<string>, row: seq<string>): (r: Record)
    requires |row| == |header|
    ensures Keys(r) == header
  {
    seq(|header|, j requires 0 <= j < |header| => Entry(header[j], row[j]))
  }

  /** All records are dicts with the key order of the first, as every extracted record is. */
  predicate Uniform(records: seq<Record>)
  {
    forall i :: 0 <= i < |records| ==> WellFormed(records[i]) && Keys(records[i]) == Keys(records[0])
  }

  lemma UniformHasNoExtraKeys(records: seq<Record>)
    requires Uniform(records)
    ensures NoExtraKeys(records)
  {
  }

  /** Reading a row back under its own record's key order gives the record again. */
  lemma {:induction false} ReadRowInvertsRow(r: Record)
    requires WellFormed(r)
    ensures ReadRow(Keys(r), Row(Keys(r), r)) == r
  {
    forall j | 0 <= j < |r| ensures ReadRow(Keys(r), Row(Keys(r), r))[j] == r[j] {
      GetAt(r, j);
    }
  }

  /**
   * The table of N uniform records has N + 1 rows, its header is the key
   * order, and reading row i + 1 back under the header gives record i.
   */
  lemma TableRoundTrip(records: seq<Record>)
    requires records != [] && Uniform(records)
    ensures |Table(records)| == |records| + 1
    ensures Table(records)[0] == Keys(records[0])
    ensures forall i :: 0 <= i < |records| ==> ReadRow(Table(records)[0], Table(records)[i + 1]) == records[i]
  {
    var t := Table(records);
    forall i | 0 <= i < |records| ensures ReadRow(t[0], t[i + 1]) == records[i] {
      assert t[i + 1] == Row(Keys(records[i]), records[i]);
      ReadRowInvertsRow(records[i]);
    }
  }

  /** Splitting a line at every delimiter, as a reader of unquoted cells does. */
  function SplitCells(line: string): (cells: seq<string>)
    ensures cells != []
    decreases |line|
  {
    if Delimiter !in line then [line]
    else
      var k := FirstDelimiter(line);
      [line[..k]] + SplitCells(line[k + 1..])
  }

  function FirstDelimiter(line: string): (k: nat)
    requires Delimiter in line
    ensures k < |line| && line[k] == Delimiter && Delimiter !in line[..k]
  {
    if line[0] == Delimiter then 0
    else
      var k := 1 + FirstDelimiter(line[1..]);
      assert line[..k] == [line[0]] + line[1..][..k - 1];
      k
  }

  /** A row none of whose cells holds the delimiter is recovered by splitting its line. */
  lemma {:induction false} SplitJoin(cells: seq<string>)
    requires cells != []
    requires forall i :: 0 <= i < |cells| ==> Delimiter !in cells[i]
    ensures SplitCells(JoinCells(cells)) == cells
  {
    if |cells| > 1 {
      var line := JoinCells(cells);
      var c := cells[0];
      var rest := JoinCells(cells[1..]);
      assert line == c + [Delimiter] + rest;
      assert line[|c|] == Delimiter;
      assert Delimiter in line;
      var k := FirstDelimiter(line);
      assert line[..|c|] == c;
      assert k == |c|;
      assert line[k + 1..] == rest;
      SplitJoin(cells[1..]);
      assert SplitCells(line) == [c] + cells[1..];
    }
  }

  /** No value of any record holds the delimiter. */
  predicate DelimiterFree(records: seq<Record>)
  {
    forall i, j :: 0 <= i < |records| && 0 <= j < |records[i]| ==> Delimiter !in records[i][j].value
  }

  /** None of the ten field names holds the delimiter. */
  lemma FieldNamesHaveNoDelimiter()
    ensures forall i :: 0 <= i < |FieldNames| ==> Delimiter !in FieldNames[i]
  {
  }

  /** Splitting `line` at ';' and reading the cells under `header` gives `r`. */
  predicate ReadsBackAs(header: seq<string>, line: string, r: Record)
  {
    |SplitCells(line)| == |header| && ReadRow(header, SplitCells(line)) == r
  }

  /** The line of a record whose values hold no delimiter, split and read back, gives the record. */
  lemma RecordLineReadBack(r: Record)
    requires WellFormed(r) && r != []
    requires forall j :: 0 <= j < |r| ==> Delimiter !in r[j].value
    ensures SplitCells(JoinCells(Row(Keys(r), r))) == Row(Keys(r), r)
    ensures ReadsBackAs(Keys(r), JoinCells(Row(Keys(r), r)), r)
  {
    var row := Row(Keys(r), r);
    forall j | 0 <= j < |row| ensures Delimiter !in row[j] {
      GetAt(r, j);
    }
    SplitJoin(row);
    ReadRowInvertsRow(r);
  }

  /**
   * `lines` is what writing `records` under `header` gives: one header line
   * that splits into the header, then one line per record in order, each
   * the line of the record's row, which reads back as the record; when no
   * value holds ';', each line, split and read under the header, gives its
   * record again.
   */
  predicate Written(lines: seq<string>, header: seq<string>, records: seq<Record>)
  {
    && |lines| == |records| + 1
    && SplitCells(lines[0]) == header
    && (forall i :: 0 <= i < |records| ==>
          lines[i + 1] == JoinCells(Row(header, records[i])) && ReadRow(header, Row(header, records[i])) == records[i])
    && (DelimiterFree(records) ==> forall k :: 1 <= k < |lines| ==> ReadsBackAs(header, lines[k], records[k - 1]))
  }

  /** The lines written for uniform records whose keys hold no ';' satisfy Written. */
  lemma LinesOfTable(records: seq<Record>)
    requires records != [] && records[0] != [] && Uniform(records)
    requires forall j :: 0 <= j < |records[0]| ==> Delimiter !in records[0][j].key
    ensures Written(Lines(Table(records)), Keys(records[0]), records)
  {
    SplitJoin(Keys(records[0]));
    LinesOfRecords(records);
    if DelimiterFree(records) {
      LinesReadBack(records);
    }
  }

  /** Line i + 1 of uniform records is the line of row i, which reads back as record i. */
  lemma LinesOfRecords(records: seq<Record>)
    requires records != [] && Uniform(records)
    ensures |Lines(Table(records))| == |records| + 1
    ensures Lines(Table(records))[0] == JoinCells(Keys(records[0]))
    ensures forall i :: 0 <= i < |records| ==>
      Lines(Table(records))[i + 1] == JoinCells(Row(Keys(records[0]), records[i]))
      && ReadRow(Keys(records[0]), Row(Keys(records[0]), records[i])) == records[i]
  {
    var t := Table(records);
    var header := Keys(records[0]);
    forall i | 0 <= i < |records|
      ensures Lines(t)[i + 1] == JoinCells(Row(header, records[i])) && ReadRow(header, Row(header, records[i])) == records[i]
    {
      assert Keys(records[i]) == header;
      assert t[i + 1] == Row(header, records[i]);
      ReadRowInvertsRow(records[i]);
    }
  }

  /** Without ';' in any value, each record line, split and read under the header, is its record. */
  lemma LinesReadBack(records: seq<Record>)
    requires records != [] && records[0] != [] && Uniform(records) && DelimiterFree(records)
    ensures forall k :: 1 <= k < |Lines(Table(records))| ==>
      ReadsBackAs(Keys(records[0]), Lines(Table(records))[k], records[k - 1])
  {
    var t := Table(records);
    var header := Keys(records[0]);
    forall k | 1 <= k < |Lines(t)| ensures ReadsBackAs(header, Lines(t)[k], records[k - 1]) {
      var r := records[k - 1];
      assert Keys(r) == header && |r| == |header| == |records[0]|;
      assert Lines(t)[k] == JoinCells(t[k]) && t[k] == Row(Keys(r), r);
      assert forall j :: 0 <= j < |r| ==> Delimiter !in r[j].value;
      RecordLineReadBack(r);
    }
  }
}
