/** The 256 one-character phrases that both sides of the codec start from.

    Text is a Python `str`, modelled as a Dafny `string`. The codec only works
    on text whose characters all lie below 256: any other character is not a
    key of the initial dictionary and the encoder's lookups fail. */
module Alphabet {

  /** Every character of `s` has a code point below 256. */
  predicate InAlphabet(s: string) {
    forall i :: 0 <= i < |s| ==> s[i] as int < 256
  }

  /** A phrase made of one character below 256: exactly the keys of the
      encoder's initial dictionary. */
  predicate IsSingleByte(p: string) {
    |p| == 1 && p[0] as int < 256
  }

  /** Python's `chr(i)` as a one-character phrase. */
  function Chr(i: int): (p: string)
    requires 0 <= i < 256
    ensures IsSingleByte(p) && p[0] as int == i
  {
    [i as char]
  }

  /** `{chr(i): i for i in range(n)}`, for the first `n` code points. */
  function CodesBelow(n: nat): map<string, int>
    requires n <= 256
  {
    map i | 0 <= i < n :: Chr(i) := i
  }

  /** `{i: chr(i) for i in range(n)}`, for the first `n` code points. */
  function PhrasesBelow(n: nat): map<int, string>
    requires n <= 256
  {
    map i | 0 <= i < n :: Chr(i)
  }

  /** The encoder's initial dictionary, phrase to code. */
  function InitialCodes(): (d: map<string, int>)
    ensures forall p :: IsSingleByte(p) ==> p in d && d[p] == p[0] as int
    ensures forall p :: p in d ==> IsSingleByte(p)
  {
    var d := CodesBelow(256);
    assert forall p :: IsSingleByte(p) ==> p == Chr(p[0] as int);
    d
  }

  /** The decoder's initial dictionary, code to phrase. */
  function InitialPhrases(): (d: map<int, string>)
    ensures forall j :: j in d <==> 0 <= j < 256
    ensures forall j :: 0 <= j < 256 ==> IsSingleByte(d[j]) && d[j][0] as int == j
  {
    PhrasesBelow(256)
  }

  lemma {:induction false} CodesBelowSize(n: nat)
    requires n <= 256
    ensures |CodesBelow(n)| == n
  {
    if n > 0 {
      CodesBelowSize(n - 1);
      var k := Chr(n - 1);
      assert k !in CodesBelow(n - 1);
      assert CodesBelow(n) == CodesBelow(n - 1)[k := n - 1];
    }
  }

  lemma {:induction false} PhrasesBelowSize(n: nat)
    requires n <= 256
    ensures |PhrasesBelow(n)| == n
  {
    if n > 0 {
      PhrasesBelowSize(n - 1);
      assert n - 1 !in PhrasesBelow(n - 1);
      assert PhrasesBelow(n) == PhrasesBelow(n - 1)[n - 1 := Chr(n - 1)];
    }
  }

  /** Both initial dictionaries hold exactly 256 entries. */
  lemma InitialSizes()
    ensures |InitialCodes()| == 256 && |InitialPhrases()| == 256
  {
    CodesBelowSize(256);
    PhrasesBelowSize(256);
  }

  /** The two initial dictionaries are inverse to each other. */
  lemma InitialInverse()
    ensures forall p :: p in InitialCodes() ==>
              InitialCodes()[p] in InitialPhrases() && InitialPhrases()[InitialCodes()[p]] == p
    ensures forall j :: j in InitialPhrases() ==>
              InitialPhrases()[j] in InitialCodes() && InitialCodes()[InitialPhrases()[j]] == j
  {
    forall p | p in InitialCodes()
      ensures InitialPhrases()[InitialCodes()[p]] == p
    {
      assert p == [p[0]];
    }
  }

  /** `a + b` with its last element split off, when `b` has one, in the two
      shapes the inductions over a growing sequence need. */
  lemma SplitLast<T>(a: seq<T>, b: seq<T>)
    requires b != []
    ensures var ab := a + b; ab[..|ab| - 1] == a + b[..|b| - 1] && ab[|ab| - 1] == b[|b| - 1]
    ensures a + b == (a + b[..|b| - 1]) + [b[|b| - 1]]
  {
  }
}
