/** The decoder `lzmw_decompress` (LZMW.py:48-86).

    The decoder rebuilds the encoder's dictionary one step behind it: each
    code after the first files `previous + current[0]` under the next code.
    A code that is not (yet) a key is resolved by the deferred-code rule
    `previous + previous[0]`, whatever its value: nothing checks that it is
    the next free code, so negative codes and codes far beyond the dictionary
    take that path as well. */
module Decoder {
  import opened Alphabet

  /** What `lzmw_decompress` does: a bare `""` for an empty code list, a
      `KeyError` when the first code is not one of the 256 initial codes,
      otherwise the pair `(result, dictionary)`. */
  datatype DecompressResult =
    | EmptyText
    | UnknownFirstCode(code: int)
    | Decoded(text: string, dict: map<int, string>)

  /** The loop variables of `lzmw_decompress` between two codes:
      `dictionary`, `dict_size`, `result` and `previous`. */
  datatype State = State(dict: map<int, string>, size: int, text: string, previous: string)

  /** The invariant of the decoder's loop. */
  ghost predicate Valid(s: State) {
    && 256 <= s.size
    && |s.dict| == s.size
    && (forall j :: j in s.dict <==> 0 <= j < s.size)
    && (forall j :: 0 <= j < 256 ==> s.dict[j] == Chr(j))
    && (forall j :: j in s.dict ==> |s.dict[j]| >= 1)
    && |s.previous| >= 1
  }

  /** One iteration of the loop at LZMW.py:69-84, for the code `code`. */
  function Step(s: State, code: int): (t: State)
    requires Valid(s)
    ensures Valid(t)
    ensures t.size == s.size + 1 && |t.dict| == |s.dict| + 1
    ensures forall j :: j in s.dict ==> t.dict[j] == s.dict[j]
    ensures t.dict[s.size] == s.previous + [t.previous[0]]
    ensures t.text == s.text + t.previous
    ensures code in s.dict ==> t.previous == s.dict[code]
    ensures code !in s.dict ==> t.previous == s.previous + [s.previous[0]]
  {
    var current := if code in s.dict then s.dict[code] else s.previous + [s.previous[0]];
    State(s.dict[s.size := s.previous + [current[0]]], s.size + 1, s.text + current, current)
  }

  /** The state of the decoder after the codes `codes` (the first of them one
      of the 256 initial codes). */
  function Run(codes: seq<int>): (s: State)
    requires |codes| >= 1 && codes[0] in InitialPhrases()
    ensures Valid(s)
    ensures s.size == 255 + |codes|
    ensures |s.text| >= |codes|
    decreases |codes|
  {
    if |codes| == 1 then
      InitialSizes();
      var first := InitialPhrases()[codes[0]];
      State(InitialPhrases(), 256, first, first)
    else
      Step(Run(codes[..|codes| - 1]), codes[|codes| - 1])
  }

  /** Decoding one more code of `codes` is one more `Step`. */
  lemma RunPrefix(codes: seq<int>, i: nat)
    requires 1 <= i < |codes| && codes[0] in InitialPhrases()
    ensures Run(codes[..i + 1]) == Step(Run(codes[..i]), codes[i])
  {
    var longer := codes[..i + 1];
    assert longer[..|longer| - 1] == codes[..i];
    assert longer[|longer| - 1] == codes[i];
  }

  /** `lzmw_decompress(codes)` as a function of its input. */
  function Decompression(codes: seq<int>): (r: DecompressResult)
    ensures r.EmptyText? <==> |codes| == 0
    ensures r.UnknownFirstCode? <==> |codes| >= 1 && !(0 <= codes[0] < 256)
    ensures r.UnknownFirstCode? ==> r.code == codes[0]
    ensures r.Decoded? ==> |r.dict| == 255 + |codes| && (forall j :: j in r.dict <==> 0 <= j < 255 + |codes|)
    ensures r.Decoded? ==> |r.text| >= |codes|
  {
    if |codes| == 0 then
      EmptyText
    else if codes[0] !in InitialPhrases() then
      UnknownFirstCode(codes[0])
    else
      var s := Run(codes);
      Decoded(s.text, s.dict)
  }

  /** The decoder as the source writes it: a loop over `compressed_data[1:]`
      that updates the dictionary, its size, the result and `previous`. */
  method Decompress(codes: seq<int>) returns (r: DecompressResult)
    ensures r == Decompression(codes)
  {
    if |codes| == 0 {
      return EmptyText;
    }
    var dictionary := InitialPhrases();
    var dictSize := 256;
    if codes[0] !in dictionary {
      return UnknownFirstCode(codes[0]);
    }
    var result := dictionary[codes[0]];
    var previous := result;
    assert State(dictionary, dictSize, result, previous) == Run(codes[..1]);
    for i := 1 to |codes|
      invariant State(dictionary, dictSize, result, previous) == Run(codes[..i])
    {
      RunPrefix(codes, i);
      ghost var before := State(dictionary, dictSize, result, previous);
      var code := codes[i];
      var current;
      if code in dictionary {
        current := dictionary[code];
      } else {
        current := previous + [previous[0]];
      }
      result := result + current;
      dictionary := dictionary[dictSize := previous + [current[0]]];
      dictSize := dictSize + 1;
      previous := current;
      assert State(dictionary, dictSize, result, previous) == Step(before, code);
    }
    assert codes[..|codes|] == codes;
    return Decoded(result, dictionary);
  }

  /** A single code decodes to its character, with no dictionary growth
      (LZMW.py:66-67). */
  lemma SingleCode(code: int)
    requires 0 <= code < 256
    ensures Decompression([code]) == Decoded(Chr(code), InitialPhrases())
  {
  }

  /** The deferred-code rule at work: 256 is not yet known when it arrives
      after 97 ('a'), and is read as "aa". */
  lemma DeferredCode()
    ensures Decompression([97, 256]).Decoded? && Decompression([97, 256]).text == "aaa"
  {
    var s := Run([97]);
    assert [97, 256][..1] == [97];
    assert s.previous == "a";
  }

  /** Codes that no encoder could have produced are not rejected: a later
      code that is neither known nor the next free one, negative or far past
      the dictionary, takes the fallback path like the deferred code does. */
  lemma UnknownCodesAccepted(c: int, x: int, y: int)
    requires 0 <= c < 256 && !(0 <= x <= 256) && !(0 <= y <= 257)
    ensures var r := Decompression([c, x, y]);
      && r.Decoded?
      && r.text == [c as char, c as char, c as char, c as char, c as char, c as char]
  {
    RunThree([c, x, y]);
    RunOne(c);
    FallbackTwice(Run([c]), c as char, x, y);
  }

  /** The state after the first code alone. */
  lemma RunOne(c: int)
    requires 0 <= c < 256
    ensures var s := Run([c]); s.size == 256 && s.text == [c as char] && s.previous == [c as char]
  {
  }

  /** Two codes outside the dictionary after a one-character phrase `a`
      append "aa" and then "aaa". */
  lemma FallbackTwice(s: State, a: char, x: int, y: int)
    requires Valid(s) && s.text == [a] && s.previous == [a]
    requires !(0 <= x <= s.size) && !(0 <= y <= s.size + 1)
    ensures Step(Step(s, x), y).text == [a, a, a, a, a, a]
  {
    assert x !in s.dict;
    var s2 := Step(s, x);
    assert s2.previous == [a, a];
    assert y !in s2.dict;
    var s3 := Step(s2, y);
    assert s3.previous == [a, a, a];
    assert s3.text == [a] + [a, a] + [a, a, a];
  }

  /** Decoding three codes is two steps after the first. */
  lemma RunThree(codes: seq<int>)
    requires |codes| == 3 && codes[0] in InitialPhrases()
    ensures Run(codes) == Step(Step(Run([codes[0]]), codes[1]), codes[2])
  {
    assert codes[..1] == [codes[0]];
    assert codes[..3] == codes;
    RunPrefix(codes, 1);
    RunPrefix(codes, 2);
  }
}
