/** Normalising the name given with `-n`/`--name` (ensure_csv_extension). */
module OutputName {
  import opened Strings

  const CsvSuffix: string := ".csv"

  /** The name already carries the extension, in any letter case. */
  predicate HasCsvExtension(name: string)
  {
    EndsWithIgnoringCase(name, CsvSuffix)
  }

  /**
   * Appends ".csv" unless the name already ends with it, ignoring case.
   * The result always has the extension, keeps the name as its prefix
   * without changing any letter, and differs from the name exactly when
   * the name lacked the extension.
   */
  function EnsureCsvExtension(name: string): (r: string)
    ensures HasCsvExtension(r)
    ensures r == name <==> HasCsvExtension(name)
    ensures r == name || r == name + CsvSuffix
  {
    if HasCsvExtension(name) then name
    else
      AppendedSuffixIsFound(name);
      name + CsvSuffix
  }

  lemma AppendedSuffixIsFound(name: string)
    ensures HasCsvExtension(name + CsvSuffix)
  {
    LowerAppend(name, CsvSuffix);
    assert Lower(CsvSuffix) == CsvSuffix;
    EndsWithAppended(Lower(name), CsvSuffix);
  }

  /** Normalising an already normalised name changes nothing. */
  lemma EnsureCsvExtensionIdempotent(name: string)
    ensures EnsureCsvExtension(EnsureCsvExtension(name)) == EnsureCsvExtension(name)
  {
  }

  lemma ExampleAppends()
    ensures EnsureCsvExtension("report") == "report.csv"
  {
    assert Lower("report")[2..][3] == 't' != CsvSuffix[3];
  }

  lemma ExampleKeepsCase()
    ensures EnsureCsvExtension("Report.CSV") == "Report.CSV"
  {
    assert Lower("Report.CSV")[6..] == CsvSuffix;
  }
}
