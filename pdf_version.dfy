/**
 * Reading the version from the file header (extract_pdf_version). A PDF
 * file starts with the header line `%PDF-1.7` (section 7.5.2 of
 * ISO 32000-1); the program reads its first 8 bytes, decodes them and
 * takes what follows the 5-character signature.
 */
module PdfVersion {
  import opened Strings

  const Signature: string := "%PDF-"
  const Unknown: string := "unknown"
  /** Number of bytes `f.read(8)` takes from the start of the file. */
  const HeaderBytes: nat := 8

  /**
   * The version named by a decoded header: what follows the signature,
   * stripped of surrounding whitespace, or "unknown" without the signature.
   */
  function SniffVersion(header: string): (version: string)
    ensures !StartsWith(header, Signature) ==> version == Unknown
    ensures StartsWith(header, Signature) ==>
      Trimmed(version) &&
      exists a, b :: header[|Signature|..] == a + version + b && AllSpace(a) && AllSpace(b)
  {
    if StartsWith(header, Signature) then Strip(header[|Signature|..]) else Unknown
  }

  /** A signed header padded with whitespace yields exactly the text between the padding. */
  lemma SniffVersionExact(a: string, m: string, b: string)
    requires AllSpace(a) && AllSpace(b) && Trimmed(m)
    ensures SniffVersion(Signature + a + m + b) == m
  {
    var header := Signature + a + m + b;
    assert header[..|Signature|] == Signature;
    assert header[|Signature|..] == a + m + b;
    StripUnique(a, m, b);
  }

  /**
   * Of an 8-character header at most 3 characters can follow the signature,
   * so the version is at most 3 characters long and "unknown" is returned
   * exactly when the signature is missing.
   */
  lemma ShortHeaderVersion(header: string)
    requires |header| <= HeaderBytes
    ensures StartsWith(header, Signature) ==> |SniffVersion(header)| <= HeaderBytes - |Signature|
    ensures SniffVersion(header) == Unknown <==> !StartsWith(header, Signature)
  {
    if StartsWith(header, Signature) {
      var version := SniffVersion(header);
      var a, b :| header[|Signature|..] == a + version + b && AllSpace(a) && AllSpace(b);
      assert |version| <= |header| - |Signature|;
      assert |Unknown| == 7;
    }
  }

  lemma ExampleVersion()
    ensures SniffVersion("%PDF-1.4") == "1.4"
  {
    assert "%PDF-1.4" == Signature + "" + "1.4" + "";
    SniffVersionExact("", "1.4", "");
  }

  lemma ExampleTruncated()
    ensures SniffVersion("%PD") == Unknown
  {
  }

  lemma ExampleNotPdf()
    ensures SniffVersion("GIF89a") == Unknown
  {
    assert "GIF89a"[..5][0] == 'G' != Signature[0];
  }
}
