/** The encoder `lzmw_compress` (LZMW.py:5-46).

    Despite its name the growth rule is the one of plain LZW: when the phrase
    being extended can grow no further, the encoder emits its code and files
    the abandoned phrase plus the next character under the next free code. */
module Encoder {
  import opened Alphabet

  /** What `lzmw_compress` returns: a bare `[]` for empty text, otherwise the
      pair `(compressed_data, dictionary)`. */
  datatype CompressResult =
    | EmptyList
    | Encoded(codes: seq<int>, dict: map<string, int>)

  /** The loop variables of `lzmw_compress` between two characters:
      `dictionary`, `dict_size`, `compressed_data` and `current_phrase`. */
  datatype State = State(dict: map<string, int>, size: int, codes: seq<int>, phrase: string)

  /** `p` without its last character. */
  function DropLast(p: string): string
    requires |p| >= 1
  {
    p[..|p| - 1]
  }

  /** Every phrase in `dict` is non-empty and, once its last character is
      dropped, is itself a key of `dict`. */
  ghost predicate PrefixClosed(dict: map<string, int>) {
    && (forall p :: p in dict ==> |p| >= 1)
    && (forall p {:trigger DropLast(p)} :: p in dict && |p| >= 2 ==> DropLast(p) in dict)
  }

  /** The codes of `dict` are exactly 0 .. n-1, each held by one phrase. */
  ghost predicate Numbered(dict: map<string, int>, n: int) {
    && |dict| == n
    && (forall p :: p in dict ==> 0 <= dict[p] < n)
    && (forall j :: 0 <= j < n ==> j in dict.Values)
    && (forall p, q :: p in dict && q in dict && dict[p] == dict[q] ==> p == q)
  }

  /** The invariant of the encoder's loop. */
  ghost predicate Valid(s: State) {
    && (forall p :: IsSingleByte(p) ==> p in s.dict && s.dict[p] == p[0] as int)
    && Numbered(s.dict, s.size)
    && PrefixClosed(s.dict)
    && s.phrase in s.dict
    && s.size == 256 + |s.codes|
    && (forall j :: 0 <= j < |s.codes| ==> 0 <= s.codes[j] < 256 + j)
  }

  /** Filing a new phrase under the next free code keeps the numbering. */
  lemma Extend(dict: map<string, int>, n: int, p: string)
    requires Numbered(dict, n) && p !in dict
    ensures Numbered(dict[p := n], n + 1)
  {
    var d := dict[p := n];
    forall j | 0 <= j < n + 1
      ensures j in d.Values
    {
      if j == n {
        assert d[p] == j;
      } else {
        assert j in dict.Values;
        var q :| q in dict && dict[q] == j;
        assert d[q] == j;
      }
    }
  }

  /** The initial dictionary numbers the single-character phrases 0 .. 255. */
  lemma InitialNumbered()
    ensures Numbered(InitialCodes(), 256)
  {
    InitialSizes();
    forall j | 0 <= j < 256
      ensures j in InitialCodes().Values
    {
      assert InitialCodes()[Chr(j)] == j;
    }
  }

  /** One iteration of the loop at LZMW.py:25-40, for the character `c`. */
  function Step(s: State, c: char): (t: State)
    requires Valid(s) && c as int < 256
    ensures Valid(t)
    ensures forall p :: p in s.dict ==> p in t.dict && t.dict[p] == s.dict[p]
    ensures t.dict.Keys == s.dict.Keys + {s.phrase + [c]}
    ensures s.phrase + [c] !in s.dict ==> t.dict[s.phrase + [c]] == s.size
    ensures |s.codes| <= |t.codes| <= |s.codes| + 1
  {
    var next := s.phrase + [c];
    if next in s.dict then
      s.(phrase := next)
    else
      ExtendValid(s, c);
      State(s.dict[next := s.size], s.size + 1, s.codes + [s.dict[s.phrase]], [c])
  }

  /** Filing `phrase + [c]` and restarting from `c` keeps the invariant. */
  lemma ExtendValid(s: State, c: char)
    requires Valid(s) && c as int < 256 && s.phrase + [c] !in s.dict
    ensures Valid(State(s.dict[s.phrase + [c] := s.size], s.size + 1, s.codes + [s.dict[s.phrase]], [c]))
  {
    var next := s.phrase + [c];
    Extend(s.dict, s.size, next);
    var t := State(s.dict[next := s.size], s.size + 1, s.codes + [s.dict[s.phrase]], [c]);
    assert IsSingleByte([c]);
    assert DropLast(next) == s.phrase;
    assert forall j :: 0 <= j < |t.codes| ==> 0 <= t.codes[j] < 256 + j;
  }

  /** The loop state before the first iteration: the initial dictionary, no
      output yet, and the first character as the current phrase
      (LZMW.py:19-23). */
  function Initial(c: char): (s: State)
    requires c as int < 256
    ensures Valid(s) && s.size == 256 && s.codes == [] && s.phrase == [c]
  {
    InitialNumbered();
    State(InitialCodes(), 256, [], [c])
  }

  /** The loop state reached from `s` once the characters `cs` are consumed. */
  function Feed(s: State, cs: string): (t: State)
    requires Valid(s) && InAlphabet(cs)
    ensures Valid(t)
    ensures |s.codes| <= |t.codes| <= |s.codes| + |cs|
    decreases |cs|
  {
    if cs == [] then s else Step(Feed(s, cs[..|cs| - 1]), cs[|cs| - 1])
  }

  /** Consuming `a` and then `b` is consuming `a + b`: the loop has no state
      beyond the four variables. */
  lemma {:induction false} FeedAppend(s: State, a: string, b: string)
    requires Valid(s) && InAlphabet(a) && InAlphabet(b)
    ensures Feed(s, a + b) == Feed(Feed(s, a), b)
    decreases |b|
  {
    if b == [] {
      assert a + b == a;
    } else {
      SplitLast(a, b);
      FeedAppend(s, a, b[..|b| - 1]);
    }
  }

  /** The loop state after the first `i` characters of `text` are consumed. */
  function Run(text: string, i: nat): (s: State)
    requires InAlphabet(text) && 1 <= i <= |text|
    ensures Valid(s)
    ensures |s.codes| < i
  {
    Feed(Initial(text[0]), text[1..i])
  }

  /** `text[1..i]` without its last character, and that character. */
  lemma SliceLast(text: string, i: nat)
    requires 2 <= i <= |text|
    ensures var cs := text[1..i]; cs[..|cs| - 1] == text[1..i - 1] && cs[|cs| - 1] == text[i - 1]
  {
  }

  /** Consuming the `i`-th character is one more `Step`. */
  lemma RunNext(text: string, i: nat)
    requires InAlphabet(text) && 2 <= i <= |text|
    ensures Run(text, i) == Step(Run(text, i - 1), text[i - 1])
  {
    SliceLast(text, i);
  }

  /** `lzmw_compress(text)` as a function of its input. */
  function Compression(text: string): (r: CompressResult)
    requires InAlphabet(text)
    ensures r.EmptyList? <==> |text| == 0
    ensures r.Encoded? ==> 1 <= |r.codes| <= |text|
    ensures r.Encoded? ==> forall j :: 0 <= j < |r.codes| ==> 0 <= r.codes[j] < 256 + j
    ensures r.Encoded? ==> Numbered(r.dict, 255 + |r.codes|) && PrefixClosed(r.dict)
    ensures r.Encoded? ==> forall p :: IsSingleByte(p) ==> p in r.dict && r.dict[p] == p[0] as int
  {
    if |text| == 0 then
      EmptyList
    else
      var s := Run(text, |text|);
      FlushBounds(s);
      Encoded(if |s.phrase| > 0 then s.codes + [s.dict[s.phrase]] else s.codes, s.dict)
  }

  /** Emitting the code of the pending phrase keeps every code below 256
      plus its position. */
  lemma FlushBounds(s: State)
    requires Valid(s)
    ensures |s.phrase| >= 1 && 0 <= s.dict[s.phrase] < 256 + |s.codes|
    ensures var codes := s.codes + [s.dict[s.phrase]];
      forall j :: 0 <= j < |codes| ==> 0 <= codes[j] < 256 + j
  {
  }

  /** The encoder as the source writes it: a loop over `text[1:]` that
      updates the dictionary, its size, the output and the current phrase. */
  method Compress(text: string) returns (r: CompressResult)
    requires InAlphabet(text)
    ensures r == Compression(text)
  {
    if |text| == 0 {
      return EmptyList;
    }
    var dictionary := InitialCodes();
    var dictSize := 256;
    var compressed: seq<int> := [];
    var current := [text[0]];
    for i := 1 to |text|
      invariant State(dictionary, dictSize, compressed, current) == Run(text, i)
    {
      RunNext(text, i + 1);
      var ch := text[i];
      var next := current + [ch];
      if next in dictionary {
        current := next;
      } else {
        compressed := compressed + [dictionary[current]];
        dictionary := dictionary[next := dictSize];
        dictSize := dictSize + 1;
        current := [ch];
      }
    }
    if |current| > 0 {
      compressed := compressed + [dictionary[current]];
    }
    return Encoded(compressed, dictionary);
  }

  /** A one-character text gives the one code of that character and leaves
      the initial dictionary as it was. */
  lemma SingleCharacter(c: char)
    requires c as int < 256
    ensures Compression([c]) == Encoded([c as int], InitialCodes())
  {
  }

  /** Feeding one character is one step. */
  lemma FeedOne(s: State, c: char)
    requires Valid(s) && c as int < 256
    ensures Feed(s, [c]) == Step(s, c)
  {
    assert [c][..0] == [];
  }

  /** After a character, the same character twice more: the first
      repetition files the pair and emits one code, the second finds the
      pair and emits nothing. */
  lemma PairFound(c: char)
    requires c as int < 256
    ensures |Feed(Initial(c), [c, c]).codes| == 1
  {
    var s0 := Initial(c);
    var s1 := Step(s0, c);
    FeedOne(s0, c);
    FeedOne(s1, c);
    FeedAppend(s0, [c], [c]);
    assert [c] + [c] == [c, c];
    assert s0.phrase + [c] == [c, c] && !IsSingleByte([c, c]);
    assert |s1.codes| == 1 && s1.phrase == [c];
    assert s1.phrase + [c] in s1.dict;
  }

  /** Repetition compresses: a character repeated n >= 3 times gives fewer
      than n codes, because the pair filed at the second character is found
      again at the third, which extends the phrase instead of emitting. */
  lemma RepeatCompresses(c: char, n: nat)
    requires c as int < 256 && n >= 3
    ensures |Compression(seq(n, _ => c)).codes| < n
  {
    var t := seq(n, _ => c);
    var rest := t[3..n];
    assert InAlphabet(t) && InAlphabet(rest) && InAlphabet([c, c]);
    assert t[1..n] == [c, c] + rest;
    FeedAppend(Initial(c), [c, c], rest);
    PairFound(c);
  }
}
