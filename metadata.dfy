/**
 * Building one metadata record for one PDF file (extract_metadata). The PDF
 * library is not modelled: a Document says what it and the header read
 * yield for the file.
 */
module Metadata {
  import opened Wrappers
  import opened Strings
  import PdfVersion

  /** The record's keys, in the order of the dictionary literal. */
  const FieldNames: seq<string> :=
    ["Title", "Author", "Creator", "Created", "Modified", "Subject",
     "Keywords", "Description", "Producer", "PDF Version"]

  /** The information-dictionary entry each of the first nine keys is read from. */
  const InfoKeys: seq<string> :=
    ["/Title", "/Author", "/Creator", "/CreationDate", "/ModDate", "/Subject",
     "/Keywords", "/Description", "/Producer"]

  /** One key and its value in a Python dict. */
  datatype Entry = Entry(key: string, value: string)

  /** A Python dict of strings, as its entries in insertion order. */
  type Record = seq<Entry>

  function Keys(r: Record): seq<string>
  {
    seq(|r|, i requires 0 <= i < |r| => r[i].key)
  }

  predicate Distinct(s: seq<string>)
  {
    forall i, j :: 0 <= i < j < |s| ==> s[i] != s[j]
  }

  /** A dict holds each key once. */
  predicate WellFormed(r: Record)
  {
    Distinct(Keys(r))
  }

  /** `r.get(key)`: the value stored under `key`, if any. */
  function Get(r: Record, key: string): (v: Option<string>)
    ensures v.None? <==> key !in Keys(r)
  {
    if r == [] then None
    else if r[0].key == key then
      assert Keys(r)[0] == key;
      Some(r[0].value)
    else
      assert Keys(r) == [r[0].key] + Keys(r[1..]);
      Get(r[1..], key)
  }

  /** In a dict, the value found under the i-th key is the i-th value. */
  lemma {:induction false} GetAt(r: Record, i: nat)
    requires WellFormed(r) && i < |r|
    ensures Get(r, r[i].key) == Some(r[i].value)
  {
    if i > 0 {
      assert Keys(r)[0] != Keys(r)[i];
      assert WellFormed(r[1..]) by {
        forall p, q | 0 <= p < q < |r[1..]| ensures Keys(r[1..])[p] != Keys(r[1..])[q] {
          assert Keys(r)[p + 1] != Keys(r)[q + 1];
        }
      }
      GetAt(r[1..], i - 1);
    }
  }

  /**
   * What opening one file yields. `parses` holds when opening the file,
   * `PdfReader` and every accessor read for the record (`info.title` to
   * `info.producer`, including the parsing of the two dates) raise
   * nothing. `info` is `reader.metadata`: None when the file has no
   * information dictionary, else each entry as the text the library gives
   * for it. `header` is the file's first 8 bytes decoded as UTF-8: None
   * when opening the file again, reading it or decoding fails.
   */
  datatype Document = Document(parses: bool, info: Option<map<string, string>>, header: Option<string>)

  /**
   * `info.x if info.x else ''` and `info.get(k, '')`: an absent entry
   * gives "", a present one its own text (an empty one is "" either way).
   */
  function FieldOrEmpty(info: map<string, string>, key: string): (v: string)
    ensures key in info ==> v == info[key]
    ensures key !in info ==> v == ""
  {
    if key in info && info[key] != "" then info[key] else ""
  }

  /**
   * The record for one document, or None where the code catches an
   * exception: opening or reading the file with the library raises, the
   * file has no information dictionary (so `info.title` fails), or the
   * header cannot be read and decoded.
   */
  function ExtractMetadata(doc: Document): (r: Option<Record>)
    ensures r.Some? <==> doc.parses && doc.info.Some? && doc.header.Some?
    ensures r.Some? ==> Keys(r.value) == FieldNames && WellFormed(r.value)
    ensures r.Some? ==> forall i :: 0 <= i < |InfoKeys| ==>
      (InfoKeys[i] in doc.info.value ==> r.value[i].value == doc.info.value[InfoKeys[i]]) &&
      (InfoKeys[i] !in doc.info.value ==> r.value[i].value == "")
    ensures r.Some? ==> r.value[9].value == PdfVersion.SniffVersion(doc.header.value)
  {
    if !doc.parses || doc.info.None? || doc.header.None? then None
    else
      var info := doc.info.value;
      var record := [
        Entry("Title", FieldOrEmpty(info, "/Title")),
        Entry("Author", FieldOrEmpty(info, "/Author")),
        Entry("Creator", FieldOrEmpty(info, "/Creator")),
        Entry("Created", FieldOrEmpty(info, "/CreationDate")),
        Entry("Modified", FieldOrEmpty(info, "/ModDate")),
        Entry("Subject", FieldOrEmpty(info, "/Subject")),
        Entry("Keywords", FieldOrEmpty(info, "/Keywords")),
        Entry("Description", FieldOrEmpty(info, "/Description")),
        Entry("Producer", FieldOrEmpty(info, "/Producer")),
        Entry("PDF Version", PdfVersion.SniffVersion(doc.header.value))
      ];
      FieldNamesDistinct();
      assert Keys(record) == FieldNames;
      Some(record)
  }

  /** No two field names share both their first and their last character. */
  lemma FieldNamesDistinct()
    ensures Distinct(FieldNames)
  {
    var firsts := seq(|FieldNames|, i requires 0 <= i < |FieldNames| => FieldNames[i][0]);
    var lasts := seq(|FieldNames|, i requires 0 <= i < |FieldNames| => FieldNames[i][|FieldNames[i]| - 1]);
    assert firsts == ['T', 'A', 'C', 'C', 'M', 'S', 'K', 'D', 'P', 'P'];
    assert lasts == ['e', 'r', 'r', 'd', 'd', 't', 's', 'n', 'r', 'n'];
    forall i, j | 0 <= i < j < |FieldNames| ensures FieldNames[i] != FieldNames[j] {
      assert firsts[i] != firsts[j] || lasts[i] != lasts[j];
    }
  }

  /** A Title present and an Author absent give the Title and an empty Author. */
  lemma TitleWithoutAuthor(doc: Document, title: string)
    requires doc.parses && doc.header.Some? && doc.info == Some(map["/Title" := title])
    ensures ExtractMetadata(doc).Some?
    ensures Get(ExtractMetadata(doc).value, "Title") == Some(title)
    ensures Get(ExtractMetadata(doc).value, "Author") == Some("")
  {
    var r := ExtractMetadata(doc).value;
    assert InfoKeys[0] in doc.info.value;
    assert InfoKeys[1] !in doc.info.value by {
      assert InfoKeys[1][1] == 'A' != "/Title"[1];
    }
    assert r[0].key == FieldNames[0] && r[1].key == FieldNames[1];
    GetAt(r, 0);
    GetAt(r, 1);
  }
}
