# metapdf, modelled in Dafny

metapdf is a command-line script that reads the metadata of one PDF file,
or of every PDF file in a directory tree, and saves it as one
semicolon-delimited CSV table. This project models the deterministic logic
inside the script and proves what it promises:

- the output name given with `-n` gets a `.csv` extension unless it already
  has one in any letter case (`OutputName`);
- the PDF version comes from the 8-byte header: what follows `%PDF-`
  (the header line of section 7.5.2 of ISO 32000-1), stripped of
  whitespace, or `unknown` (`PdfVersion`, with `Strings` for `lower`,
  `endswith`, `startswith`, `strip` and decimal rendering);
- one metadata record has exactly the ten keys Title, Author, Creator,
  Created, Modified, Subject, Keywords, Description, Producer and
  PDF Version in that order, absent or empty entries become `""`, and any
  failure yields no record (`Metadata`);
- the file is the `;`-joined line of the first record's keys followed by
  one `;`-joined line per record, nothing is written for no records, and
  each line splits back into its cells and reads back as its record when
  no value holds `;` (`CsvTable`);
- directory mode keeps, in walk order, the records of the entries whose
  lower-cased name ends in `.pdf` and whose extraction succeeds, and writes
  only when there is at least one (`Processing`);
- the entry point picks file mode, directory mode or the invalid-path
  message (`MetaPdf`).

The PDF library, the file system and the console are inputs and outputs of
the model: a `Document` says what the library and the header read yield for
one file, a `Walk` is the sequence of directories `os.walk` visits with
their files, and an `Outcome` stands for what is printed and written.

## Behaviour of the code worth noting

- A header that cannot be decoded does not give `unknown`: the decode error
  escapes `extract_pdf_version` and the whole record is dropped
  (metapdf.py:41, 76-78).
- A PDF without an information dictionary gives no record: `reader.metadata`
  is then `None` and `info.title` raises (metapdf.py:62-64, 76-78).
- With three PDF files of which one fails, the table has a header and two
  data rows and the count is 2 (`Processing.ExampleOneOfThreeFails`).

## Model

| member | source | states |
|---|---|---|
| `OutputName.EnsureCsvExtension` | metapdf.py:13-25 | the result always ends in `.csv` ignoring case; it equals the input exactly when the input already ends in `.csv` ignoring case; otherwise it is the input followed by `.csv`, with no letter changed |
| `OutputName.EnsureCsvExtensionIdempotent` | metapdf.py:23-25 | normalising a normalised name changes nothing |
| `OutputName.ExampleAppends` | metapdf.py:23-24 | `report` becomes `report.csv` |
| `OutputName.ExampleKeepsCase` | metapdf.py:23-25 | `Report.CSV` is kept as it is |
| `Strings.TrimStart` | metapdf.py:43 | the result is a suffix of the input, everything removed before it is whitespace, and it does not start with whitespace |
| `Strings.TrimEnd` | metapdf.py:43 | the result is a prefix of the input, everything removed after it is whitespace, and it does not end with whitespace |
| `Strings.Strip` | metapdf.py:43 | `strip()` gives a text with no whitespace at either end that the input frames with whitespace only |
| `Strings.StripUnique` | metapdf.py:43 | `strip()` of whitespace, a middle with no whitespace at either end, and whitespace is exactly that middle |
| `PdfVersion.SniffVersion` | metapdf.py:38-44 | without the `%PDF-` signature the version is `unknown`; with it the version is an infix of what follows the signature, framed by whitespace only and itself without whitespace at either end |
| `PdfVersion.SniffVersionExact` | metapdf.py:42-43 | `%PDF-` followed by whitespace, a trimmed text and whitespace yields exactly that text |
| `PdfVersion.ShortHeaderVersion` | metapdf.py:38-44 | for a header of at most 8 characters the version has at most 3 characters, and `unknown` is returned exactly when the signature is missing |
| `PdfVersion.ExampleVersion` | metapdf.py:40-43 | `%PDF-1.4` gives `1.4` |
| `PdfVersion.ExampleTruncated` | metapdf.py:42-44 | a header shorter than the signature gives `unknown` |
| `PdfVersion.ExampleNotPdf` | metapdf.py:42-44 | a header of another format gives `unknown` |
| `Metadata.Get` | metapdf.py:96 | looking a key up in a record, as the writer does for each column, finds nothing exactly when the key is not among the record's keys |
| `Metadata.FieldOrEmpty` | metapdf.py:64-72 | an entry present in the information dictionary gives its text, an absent one gives `""` |
| `Metadata.ExtractMetadata` | metapdf.py:59-78 | a record exists exactly when opening the file, `PdfReader` and every accessor read at lines 61-72 raise nothing, the file has an information dictionary and the header decodes; it has the ten keys in the fixed order, each once; each of the first nine values is the information-dictionary entry it is read from when present and `""` when absent; PDF Version is the sniffed version |
| `Metadata.TitleWithoutAuthor` | metapdf.py:64-65 | with a Title present and no Author, the record's Title is the given title and its Author is `""` |
| `CsvTable.Cell` | metapdf.py:96 | the cell of a column is the record's value under the column key when the record has that key, and `""` otherwise |
| `CsvTable.Row` | metapdf.py:92-96 | a row has one cell per header column, each the record's value under that column key or `""` when the record lacks the key |
| `CsvTable.WriteCsv` | metapdf.py:89-96 | nothing is written for no records; otherwise the lines written are the `;`-joined first record's keys followed by one `;`-joined row per record in input order |
| `CsvTable.ReadRow` | metapdf.py:90-92 | reading a row back pairs each header key with the cell below it, keeping the header's key order |
| `CsvTable.UniformHasNoExtraKeys` | metapdf.py:90-96 | records that all have the first record's keys never make the writer meet a key outside the header |
| `CsvTable.ReadRowInvertsRow` | metapdf.py:92-96 | reading a record's row back under the record's key order gives the record |
| `CsvTable.TableRoundTrip` | metapdf.py:89-96 | N uniform records give N + 1 rows, the header is the key order, and row i + 1 reads back as record i |
| `CsvTable.SplitJoin` | metapdf.py:92 | a row none of whose cells contains `;` is recovered by splitting its `;`-joined line |
| `CsvTable.RecordLineReadBack` | metapdf.py:92-96 | the line written for a record whose values hold no `;` splits back into its row, and that row read under the record's keys is the record |
| `CsvTable.LinesOfRecords` | metapdf.py:89-96 | N uniform records give N + 1 lines: the joined key order, then for each record the joined row, which reads back as the record |
| `CsvTable.LinesReadBack` | metapdf.py:92-96 | when no value holds `;`, every record line of the file, split at `;` and read under the header, is its record |
| `CsvTable.LinesOfTable` | metapdf.py:89-96 | the lines of uniform records satisfy `Written`: the header line splits back into the keys, line i + 1 is the joined row of record i and reads back as it, and with no `;` in any value every line splits and reads back as its record |
| `Processing.HarvestPartition` | metapdf.py:121-128 | each `.pdf` entry either contributes its record or is reported as failed and other entries do neither, so the records are at most the number of `.pdf` entries |
| `Processing.HarvestMembership` | metapdf.py:121-128 | a record is collected exactly when some `.pdf` entry's extraction yields it |
| `Processing.HarvestUniform` | metapdf.py:121-128 | every collected record has the ten keys in the fixed order |
| `Processing.CollectFiles` | metapdf.py:123-128 | the inner loop over one directory's files collects the records of its `.pdf` entries whose extraction succeeds, in order, and the paths of those whose extraction fails |
| `Processing.CollectMetadata` | metapdf.py:121-128 | the nested loops collect, in walk order, the records of the `.pdf` entries whose extraction succeeds, and the paths of those whose extraction fails |
| `Processing.ProcessFile` | metapdf.py:99-110 | single-file mode saves the lines of the one-record table when the file yields a record and otherwise only reports the file |
| `Processing.ProcessDirectory` | metapdf.py:113-133 | directory mode saves the lines of the table of the collected records with their count when there is at least one, and otherwise reports that no PDF files were found |
| `Processing.FileOutcomeTable` | metapdf.py:107-110 | single-file mode saves exactly when the file yields a record, and then writes two lines: the `;`-joined ten field names, which split back into them, and the record's line, which reads back as the record, split and read, when no value holds `;` |
| `Processing.DirectoryOutcomeTable` | metapdf.py:121-133 | directory mode saves exactly when some `.pdf` entry yields a record; the count reported is the number of records, at most the number of `.pdf` entries and together with the failures exactly that number; the file is the `;`-joined ten field names, which split back into them, followed by one line per record in walk order, each the record's joined row and, when no value holds `;`, splitting and reading back as its record |
| `Processing.NoPdfNoOutput` | metapdf.py:124-133 | a walk without any `.pdf` name writes nothing, reports no failure and reports that no PDF files were found |
| `Processing.ExampleOneOfThreeFails` | metapdf.py:121-131 | three PDFs over two directories with one failing, plus a text file: two records in walk order, count 2, the failing path reported |
| `Processing.Summary` | metapdf.py:108-133 | a final line is printed in every case except a single file that yields no record |
| `Strings.NatToString` | metapdf.py:131 | the count is rendered as a non-empty string of decimal digits with no leading zero except for 0 itself |
| `Strings.DecimalRoundTrip` | metapdf.py:131 | the count in the directory message is written in decimal digits that denote it |
| `MetaPdf.Dispatch` | metapdf.py:180-189 | the output name is normalised in every case; file mode runs exactly when a file path is given and is an existing file; otherwise directory mode runs exactly when a directory path is given and is an existing directory; otherwise the path is invalid |
| `MetaPdf.DispatchOneArgument` | metapdf.py:174-189 | with exactly one of `-f` and `-d` given, the path is invalid exactly when it does not exist as the kind it was given as |
| `MetaPdf.Run` | metapdf.py:180-189 | a run has the outcome of the mode chosen by the dispatch |
| `MetaPdf.RunWritesUnderNormalisedName` | metapdf.py:180-189 | the run reports an invalid path exactly when dispatch finds none, and saves only under the normalised name ending in `.csv` |

## Left out

- PyPDF2 (`PdfReader`, `reader.metadata` and the `info.*` accessors, metapdf.py:61-72) is not modelled: a `Document` gives whether opening the file, `PdfReader` and every accessor read for the record raise nothing, the information dictionary as a map from entry names to the text the library gives for them, or none, and the decoded header.
- File I/O is not modelled: opening files, `f.read(8)`, UTF-8 decoding (metapdf.py:38-41, 60, 91), the overwriting of the output file and its encoding. The header is given decoded, and a failed decode is the absent header.
- `os.walk` and `os.path.join` (metapdf.py:122-125) are not modelled: the walk is given as directories of entries, each carrying its name and its joined path.
- `csv.DictWriter`'s quoting is not modelled (metapdf.py:92): with its default minimal quoting it wraps a cell holding `;`, `"`, CR or LF in double quotes and doubles its `"`; the model joins cells with `;` unquoted, so a line is always the plain `;`-join of its cells.
- The line terminator `\r\n` is not modelled: the file is a sequence of lines.
- The rendering of the Created and Modified dates (metapdf.py:67-68) is not modelled: they are the text the `Document` gives.
- CsvTable.WriteCsv: requires that no record has a key outside the first record's keys, which rules out the `ValueError` that `DictWriter.writerow` raises for such a key under its default `extrasaction='raise'` (metapdf.py:92-96); both callers meet this, since every record has the ten field names (`Processing.HarvestUniform`, `CsvTable.UniformHasNoExtraKeys`).
- CsvTable.SplitJoin, CsvTable.RecordLineReadBack, CsvTable.LinesReadBack: require that no cell or value holds `;`, because the file as the model writes it cannot be split back otherwise; the real writer quotes such cells instead.
- `argparse` (metapdf.py:167-178) is not modelled: the parsed arguments are an input, and the mutually exclusive group appears only as the precondition of `MetaPdf.DispatchOneArgument`.
- Console output is not modelled as I/O: it is the returned `Outcome`. The text of the caught exception in "Error processing file {path}: {e}" is not modelled, only the path.
- Strings.Lower: folds only the ASCII letters A–Z, while Python's `str.lower()` folds all of Unicode; no other character lower-cases to one of the characters of `.csv` or `.pdf`, so the suffix tests agree.
