/** What the app does with the codec when the user presses "Compress"
    (LZMW.py:160-169, 205-208, 221-228): compress, decompress, compare,
    report the size and export the codes. */
module Pipeline {
  import opened Alphabet
  import Encoder
  import Decoder
  import RoundTrip
  import Export
  import Stats

  /** Compress the input, decompress the codes, and compare with the input:
      for a non-empty input whose characters are all below 256 the
      comparison at LZMW.py:205 succeeds. */
  method CompressAndCheck(text: string) returns (decompressed: string, matches: bool)
    requires InAlphabet(text) && |text| >= 1
    ensures decompressed == text && matches
  {
    var compressed := Encoder.Compress(text);
    RoundTrip.RoundTrip(text);
    var result := Decoder.Decompress(compressed.codes);
    decompressed := result.text;
    matches := text == decompressed;
  }

  /** The encoder's codes can always be exported, unless the text is
      longer than 2^32 - 255 characters. */
  lemma ExportNeverOverflows(text: string)
    requires InAlphabet(text) && 1 <= |text| <= 0x1_0000_0000 - 255
    ensures Export.Packing(Encoder.Compression(text).codes).Packed?
  {
    var codes := Encoder.Compression(text).codes;
    forall j | 0 <= j < |codes|
      ensures Export.Exportable(codes[j])
    {
    }
  }

  /** For a text of at most 65281 characters every code stays below 65536,
      so the reported size is exactly the number of bytes exported. */
  lemma ShortTextSizesAgree(text: string)
    requires InAlphabet(text) && 1 <= |text| <= 65281
    ensures var codes := Encoder.Compression(text).codes;
      Export.Packing(codes).Packed? && Stats.CompressedSize(codes) == |Export.Packing(codes).bytes|
  {
    var codes := Encoder.Compression(text).codes;
    ExportNeverOverflows(text);
    Stats.ReportedVersusExported(codes);
  }
}
