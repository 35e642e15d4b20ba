/**
 * The two processing modes (process_file and process_directory): extract
 * the records, keep the successful ones in walk order and write them.
 * Console output is returned as an Outcome.
 */
module Processing {
  import opened Wrappers
  import opened Strings
  import opened Metadata
  import opened CsvTable

  /** One file reported by `os.walk`: its name, its joined path and what opening it yields. */
  datatype FileEntry = FileEntry(name: string, path: string, document: Document)

  /** What `os.walk` yields: the files of each visited directory, directory by directory. */
  type Walk = seq<seq<FileEntry>>

  /**
   * What a run reports: the lines written to the output file, the paths
   * reported as "Error processing file", and which final line is printed.
   */
  datatype Outcome =
    | FileSaved(output: string, lines: seq<string>)
    | FileNotRead(path: string)
    | DirectorySaved(output: string, count: nat, lines: seq<string>, failed: seq<string>)
    | NoPdfFilesFound(failed: seq<string>)
    | InvalidPath

  const PdfSuffix: string := ".pdf"

  /** `file.lower().endswith('.pdf')` */
  predicate IsPdfName(name: string)
  {
    EndsWithIgnoringCase(name, PdfSuffix)
  }

  /** The entries of all visited directories, in walk order. */
  function Flatten(walk: Walk): seq<FileEntry>
  {
    if walk == [] then [] else Flatten(walk[..|walk| - 1]) + walk[|walk| - 1]
  }

  /** What one entry adds to `metadata_list`: its record, when it is a PDF that yields one. */
  function Contribution(e: FileEntry): seq<Record>
  {
    if IsPdfName(e.name) && ExtractMetadata(e.document).Some? then [ExtractMetadata(e.document).value] else []
  }

  /** The successful records of the PDF entries, in the order of the entries. */
  function Harvest(files: seq<FileEntry>): seq<Record>
  {
    if files == [] then [] else Contribution(files[0]) + Harvest(files[1..])
  }

  /** The path an entry is reported under when it is a PDF whose extraction fails. */
  function FailureOf(e: FileEntry): seq<string>
  {
    if IsPdfName(e.name) && ExtractMetadata(e.document).None? then [e.path] else []
  }

  /** The paths reported as "Error processing file", in the order of the entries. */
  function Failures(files: seq<FileEntry>): seq<string>
  {
    if files == [] then [] else FailureOf(files[0]) + Failures(files[1..])
  }

  function PdfCount(files: seq<FileEntry>): nat
  {
    if files == [] then 0 else (if IsPdfName(files[0].name) then 1 else 0) + PdfCount(files[1..])
  }

  lemma {:induction false} HarvestAppend(a: seq<FileEntry>, b: seq<FileEntry>)
    ensures Harvest(a + b) == Harvest(a) + Harvest(b)
    ensures Failures(a + b) == Failures(a) + Failures(b)
  {
    if a != [] {
      assert (a + b)[1..] == a[1..] + b;
      HarvestAppend(a[1..], b);
    } else {
      assert a + b == b;
    }
  }

  /**
   * Every PDF entry either contributes its record or is reported as failed,
   * and other entries do neither; so there are at most as many records as
   * PDF entries.
   */
  lemma {:induction false} HarvestPartition(files: seq<FileEntry>)
    ensures |Harvest(files)| + |Failures(files)| == PdfCount(files)
    ensures |Harvest(files)| <= PdfCount(files)
  {
    if files != [] {
      HarvestPartition(files[1..]);
    }
  }

  /** A record is collected exactly when some PDF entry's extraction yields it. */
  lemma {:induction false} HarvestMembership(files: seq<FileEntry>, r: Record)
    ensures r in Harvest(files) <==>
      exists k :: 0 <= k < |files| && IsPdfName(files[k].name) && ExtractMetadata(files[k].document) == Some(r)
  {
    if files != [] {
      HarvestMembership(files[1..], r);
      if r in Harvest(files[1..]) {
        var k :| 0 <= k < |files[1..]| && IsPdfName(files[1..][k].name) && ExtractMetadata(files[1..][k].document) == Some(r);
        assert files[k + 1] == files[1..][k];
      }
      if exists k :: 0 <= k < |files| && IsPdfName(files[k].name) && ExtractMetadata(files[k].document) == Some(r) {
        var k :| 0 <= k < |files| && IsPdfName(files[k].name) && ExtractMetadata(files[k].document) == Some(r);
        if k > 0 {
          assert files[1..][k - 1] == files[k];
        }
      }
    }
  }

  /** Every collected record has the ten keys in their fixed order, so the list is uniform. */
  lemma {:induction false} HarvestUniform(files: seq<FileEntry>)
    ensures forall i :: 0 <= i < |Harvest(files)| ==> Keys(Harvest(files)[i]) == FieldNames && WellFormed(Harvest(files)[i])
    ensures Uniform(Harvest(files))
  {
    if files != [] {
      HarvestUniform(files[1..]);
      var h := Harvest(files);
      assert h == Contribution(files[0]) + Harvest(files[1..]);
      forall i | 0 <= i < |h| ensures Keys(h[i]) == FieldNames && WellFormed(h[i]) {
        if i >= |Contribution(files[0])| {
          assert h[i] == Harvest(files[1..])[i - |Contribution(files[0])|];
        }
      }
    }
  }

  lemma HarvestSnoc(files: seq<FileEntry>, e: FileEntry)
    ensures Harvest(files + [e]) == Harvest(files) + Contribution(e)
    ensures Failures(files + [e]) == Failures(files) + FailureOf(e)
  {
    HarvestAppend(files, [e]);
    assert [e][1..] == [];
  }

  lemma HarvestStep(files: seq<FileEntry>, f: nat)
    requires f < |files|
    ensures Harvest(files[..f + 1]) == Harvest(files[..f]) + Contribution(files[f])
    ensures Failures(files[..f + 1]) == Failures(files[..f]) + FailureOf(files[f])
  {
    assert files[..f + 1] == files[..f] + [files[f]];
    HarvestSnoc(files[..f], files[f]);
  }

  lemma FlattenSnoc(walk: Walk, d: nat)
    requires d < |walk|
    ensures Flatten(walk[..d + 1]) == Flatten(walk[..d]) + walk[d]
  {
    assert walk[..d + 1][..d] == walk[..d];
  }

  /**
   * The inner loop of process_directory, over the files of one visited
   * directory: append the record of each PDF that yields one, and report
   * the path of each PDF that does not.
   */
  method CollectFiles(files: seq<FileEntry>) returns (records: seq<Record>, failed: seq<string>)
    ensures records == Harvest(files)
    ensures failed == Failures(files)
  {
    records, failed := [], [];
    for f := 0 to |files|
      invariant records == Harvest(files[..f])
      invariant failed == Failures(files[..f])
    {
      var entry := files[f];
      HarvestStep(files, f);
      if IsPdfName(entry.name) {
        var metadata := ExtractMetadata(entry.document);
        if metadata.Some? {
          records := records + [metadata.value];
        } else {
          failed := failed + [entry.path];
        }
      }
    }
    assert files[..|files|] == files;
  }

  /**
   * The outer loop of process_directory, over the directories `os.walk`
   * visits, extending `metadata_list` with each directory's records.
   */
  method CollectMetadata(walk: Walk) returns (records: seq<Record>, failed: seq<string>)
    ensures records == Harvest(Flatten(walk))
    ensures failed == Failures(Flatten(walk))
  {
    records, failed := [], [];
    for d := 0 to |walk|
      invariant records == Harvest(Flatten(walk[..d]))
      invariant failed == Failures(Flatten(walk[..d]))
    {
      var directoryRecords, directoryFailed := CollectFiles(walk[d]);
      HarvestAppend(Flatten(walk[..d]), walk[d]);
      records := records + directoryRecords;
      failed := failed + directoryFailed;
      FlattenSnoc(walk, d);
    }
    assert walk[..|walk|] == walk;
  }

  /** The outcome of single-file mode for the file at `path`. */
  function FileOutcome(output: string, path: string, doc: Document): Outcome
  {
    match ExtractMetadata(doc)
    case Some(r) => FileSaved(output, Lines(Table([r])))
    case None => FileNotRead(path)
  }

  /** The outcome of directory mode over a walk. */
  function DirectoryOutcome(output: string, walk: Walk): Outcome
  {
    var records := Harvest(Flatten(walk));
    var failed := Failures(Flatten(walk));
    if records == [] then NoPdfFilesFound(failed)
    else DirectorySaved(output, |records|, Lines(Table(records)), failed)
  }

  /** The executable form of FileOutcome, writing through WriteCsv; FileOutcomeTable says what it writes. */
  method ProcessFile(output: string, path: string, doc: Document) returns (outcome: Outcome)
    ensures outcome == FileOutcome(output, path, doc)
  {
    var metadata := ExtractMetadata(doc);
    if metadata.Some? {
      var written := WriteCsv([metadata.value]);
      outcome := FileSaved(output, written.value);
    } else {
      outcome := FileNotRead(path);
    }
  }

  /** Directory mode: the loops of CollectMetadata, then WriteCsv; DirectoryOutcomeTable says what it writes. */
  method ProcessDirectory(output: string, walk: Walk) returns (outcome: Outcome)
    ensures outcome == DirectoryOutcome(output, walk)
  {
    var records, failed := CollectMetadata(walk);
    if records != [] {
      HarvestUniform(Flatten(walk));
      UniformHasNoExtraKeys(records);
      var written := WriteCsv(records);
      outcome := DirectorySaved(output, |records|, written.value, failed);
    } else {
      outcome := NoPdfFilesFound(failed);
    }
  }

  /**
   * Single-file mode writes exactly when the file yields a record, and
   * then writes that one record under the ten field names (see Written).
   */
  lemma FileOutcomeTable(output: string, path: string, doc: Document)
    ensures FileOutcome(output, path, doc).FileSaved? <==> ExtractMetadata(doc).Some?
    ensures FileOutcome(output, path, doc).FileSaved? ==>
      Written(FileOutcome(output, path, doc).lines, FieldNames, [ExtractMetadata(doc).value])
  {
    if ExtractMetadata(doc).Some? {
      var r := ExtractMetadata(doc).value;
      FieldNamesHaveNoDelimiter();
      assert forall j :: 0 <= j < |r| ==> r[j].key == FieldNames[j];
      LinesOfTable([r]);
    }
  }

  /**
   * Directory mode writes exactly when some PDF yields a record; it then
   * reports how many did (at most the number of PDF entries, and together
   * with the failed ones exactly that number) and writes the collected
   * records, in walk order, under the ten field names (see Written).
   */
  lemma DirectoryOutcomeTable(output: string, walk: Walk)
    ensures DirectoryOutcome(output, walk).DirectorySaved? <==> Harvest(Flatten(walk)) != []
    ensures DirectoryOutcome(output, walk).failed == Failures(Flatten(walk))
    ensures DirectoryOutcome(output, walk).DirectorySaved? ==>
      var o := DirectoryOutcome(output, walk);
      && o.count == |Harvest(Flatten(walk))| <= PdfCount(Flatten(walk))
      && o.count + |o.failed| == PdfCount(Flatten(walk))
      && Written(o.lines, FieldNames, Harvest(Flatten(walk)))
  {
    var records := Harvest(Flatten(walk));
    HarvestPartition(Flatten(walk));
    if records != [] {
      HarvestUniform(Flatten(walk));
      FieldNamesHaveNoDelimiter();
      assert Keys(records[0]) == FieldNames;
      assert forall j :: 0 <= j < |records[0]| ==> records[0][j].key == FieldNames[j];
      LinesOfTable(records);
    }
  }

  /** A walk without any `.pdf` name writes nothing and reports no failure. */
  lemma NoPdfNoOutput(output: string, walk: Walk)
    requires forall e :: e in Flatten(walk) ==> !IsPdfName(e.name)
    ensures DirectoryOutcome(output, walk) == NoPdfFilesFound([])
  {
    NoPdfCount(Flatten(walk));
    HarvestPartition(Flatten(walk));
  }

  lemma {:induction false} NoPdfCount(files: seq<FileEntry>)
    requires forall e :: e in files ==> !IsPdfName(e.name)
    ensures PdfCount(files) == 0
  {
    if files != [] {
      assert files[0] in files;
      NoPdfCount(files[1..]);
    }
  }

  /**
   * Three PDFs and a text file over two directories, one PDF failing:
   * two records in walk order, the failing path reported, the text file
   * ignored.
   */
  lemma ExampleOneOfThreeFails(output: string, good1: Document, bad: Document, good2: Document)
    requires ExtractMetadata(good1).Some? && ExtractMetadata(bad).None? && ExtractMetadata(good2).Some?
    ensures
      var walk := [[FileEntry("a.pdf", "d/a.pdf", good1), FileEntry("b.PDF", "d/b.PDF", bad)],
                   [FileEntry("notes.txt", "d/s/notes.txt", good1), FileEntry("c.pdf", "d/s/c.pdf", good2)]];
      var records := [ExtractMetadata(good1).value, ExtractMetadata(good2).value];
      DirectoryOutcome(output, walk) == DirectorySaved(output, 2, Lines(Table(records)), ["d/b.PDF"])
  {
    ExampleWalkHarvest(good1, bad, good2);
  }

  /** The records and failures of the walk in ExampleOneOfThreeFails. */
  lemma ExampleWalkHarvest(good1: Document, bad: Document, good2: Document)
    requires ExtractMetadata(good1).Some? && ExtractMetadata(bad).None? && ExtractMetadata(good2).Some?
    ensures
      var walk := [[FileEntry("a.pdf", "d/a.pdf", good1), FileEntry("b.PDF", "d/b.PDF", bad)],
                   [FileEntry("notes.txt", "d/s/notes.txt", good1), FileEntry("c.pdf", "d/s/c.pdf", good2)]];
      && Harvest(Flatten(walk)) == [ExtractMetadata(good1).value, ExtractMetadata(good2).value]
      && Failures(Flatten(walk)) == ["d/b.PDF"]
  {
    var e1, e2 := FileEntry("a.pdf", "d/a.pdf", good1), FileEntry("b.PDF", "d/b.PDF", bad);
    var e3, e4 := FileEntry("notes.txt", "d/s/notes.txt", good1), FileEntry("c.pdf", "d/s/c.pdf", good2);
    ExampleWalkFlattens(e1, e2, e3, e4);
    ExampleNames();
    var m1, m2 := ExtractMetadata(good1), ExtractMetadata(good2);
    assert Contribution(e1) == [m1.value] && FailureOf(e1) == [];
    assert Contribution(e2) == [] && FailureOf(e2) == ["d/b.PDF"];
    assert Contribution(e3) == [] && FailureOf(e3) == [];
    assert Contribution(e4) == [m2.value] && FailureOf(e4) == [];
    HarvestAppend([e1, e2], [e3, e4]);
    HarvestOfPair(e1, e2);
    HarvestOfPair(e3, e4);
  }

  /** Harvest and Failures of two entries, one contribution at a time. */
  lemma HarvestOfPair(e: FileEntry, f: FileEntry)
    ensures Harvest([e, f]) == Contribution(e) + Contribution(f)
    ensures Failures([e, f]) == FailureOf(e) + FailureOf(f)
  {
    assert [e, f][1..] == [f];
    assert [f][1..] == [];
    assert Harvest([f]) == Contribution(f) + Harvest([]);
    assert Failures([f]) == FailureOf(f) + Failures([]);
  }

  /** Which of the example's names are PDF names. */
  lemma ExampleNames()
    ensures IsPdfName("a.pdf") && IsPdfName("b.PDF") && !IsPdfName("notes.txt") && IsPdfName("c.pdf")
  {
    assert Lower("a.pdf")[1..] == PdfSuffix;
    assert Lower("b.PDF")[1..] == PdfSuffix;
    assert Lower("c.pdf")[1..] == PdfSuffix;
    assert Lower("notes.txt")[5..][1] == 't' != PdfSuffix[1];
  }

  /** A walk of two directories with two entries each flattens to the four entries. */
  lemma ExampleWalkFlattens(e1: FileEntry, e2: FileEntry, e3: FileEntry, e4: FileEntry)
    ensures Flatten([[e1, e2], [e3, e4]]) == [e1, e2] + [e3, e4]
  {
    var walk := [[e1, e2], [e3, e4]];
    assert walk[..1] == [[e1, e2]] && walk[..1][..0] == [];
    assert Flatten(walk[..1]) == Flatten([]) + [e1, e2];
    assert Flatten(walk) == Flatten(walk[..1]) + [e3, e4];
  }

  /** The line printed at the end of the run, if any. */
  function Summary(outcome: Outcome): (line: Option<string>)
    ensures line.None? <==> outcome.FileNotRead?
  {
    match outcome
    case FileSaved(output, _) => Some("Metadata is saved as " + output + ".")
    case FileNotRead(_) => None
    case DirectorySaved(output, count, _, _) =>
      Some("Metadata from " + NatToString(count) + " files was saved in " + output + ".")
    case NoPdfFilesFound(_) => Some("No pdf files found in directory.")
    case InvalidPath => Some("Please enter a valid path to a single pdffile or a directory.")
  }
}
