/** Decoding the encoder's output gives back the text, and the decoder ends
    with the encoder's dictionary read backwards (LZMW.py:163-166, 205-208).
    The proof is an induction over the text, one `Lockstep` step per
    character. */
module RoundTrip {
  import opened Alphabet
  import Encoder
  import Decoder
  import Lockstep

  /** The text after its first character, split after its second. */
  lemma SplitRest(text: string)
    requires 2 <= |text|
    ensures text[1..|text|] == [text[1]] + text[2..]
    ensures text == [text[0], text[1]] + text[2..]
  {
  }

  /** After the whole of a text of two or more characters, the encoder and
      the decoder run on its codes are in lockstep: the first two characters
      start the relation, and the rest keep it. */
  lemma Simulation(text: string)
    requires InAlphabet(text) && 2 <= |text|
    ensures Lockstep.Synced(Encoder.Run(text, |text|), text)
  {
    var start := Encoder.Initial(text[0]);
    Lockstep.SimStart(text[0], text[1]);
    assert Encoder.Feed(start, [text[1]]) == Encoder.Step(start, text[1]);
    Lockstep.FeedSim(Encoder.Feed(start, [text[1]]), [text[0], text[1]], text[2..]);
    Encoder.FeedAppend(start, [text[1]], text[2..]);
    SplitRest(text);
  }

  /** Decoding the codes of a non-empty text reproduces the text, and the
      decoder's final dictionary is the encoder's read backwards. */
  lemma RoundTrip(text: string)
    requires InAlphabet(text) && |text| >= 1
    ensures Encoder.Compression(text).Encoded?
    ensures var enc := Encoder.Compression(text);
      var dec := Decoder.Decompression(enc.codes);
      dec.Decoded? && dec.text == text && Lockstep.Inverse(enc.dict, dec.dict)
  {
    var n := |text|;
    assert text[..n] == text;
    var e := Encoder.Run(text, n);
    var codes := e.codes + [e.dict[e.phrase]];
    assert Encoder.Compression(text) == Encoder.Encoded(codes, e.dict);
    if n == 1 {
      assert Encoder.Compression(text).codes == [text[0] as int];
      InitialInverse();
    } else {
      Simulation(text);
      Lockstep.SimFinish(e, text);
      assert codes[0] == e.codes[0];
      var d := Decoder.Run(codes);
      assert Decoder.Decompression(codes) == Decoder.Decoded(d.text, d.dict);
    }
  }

  /** Empty text compresses to a bare empty list, which decompresses to a
      bare empty string (LZMW.py:15-16, 58-59). */
  lemma EmptyRoundTrip()
    ensures Encoder.Compression([]) == Encoder.EmptyList
    ensures Decoder.Decompression([]) == Decoder.EmptyText
  {
  }

  /** On the encoder's output, the deferred-code rule of the decoder is only
      ever used for the very next free code, never for a code beyond it. */
  lemma DeferredOnlyNext(text: string, j: nat)
    requires InAlphabet(text) && |text| >= 1
    requires 1 <= j < |Encoder.Compression(text).codes|
    ensures var codes := Encoder.Compression(text).codes;
      var d := Decoder.Run(codes[..j]);
      codes[j] !in d.dict ==> codes[j] == d.size
  {
  }
}
