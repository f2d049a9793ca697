/** The encoder and the decoder side by side (LZMW.py:25-44, 69-84).

    After the encoder has emitted some codes, the decoder fed exactly those
    codes is one dictionary entry behind: the entry it lacks is the abandoned
    phrase plus the first character of the encoder's current phrase, which
    the decoder can only file once it sees the next code. This module states
    that relation and shows that one encoder step, and the final emission,
    keep it. */
module Lockstep {
  import opened Alphabet
  import Encoder
  import Decoder

  /** `dec` maps every code of `enc` back to its phrase, and nothing else. */
  ghost predicate Inverse(enc: map<string, int>, dec: map<int, string>) {
    && (forall p :: p in enc ==> enc[p] in dec && dec[enc[p]] == p)
    && (forall j :: j in dec ==> dec[j] in enc && enc[dec[j]] == j)
  }

  /** The encoder in state `e` has consumed `consumed`; the decoder in state
      `d` has decoded the codes `e` emitted so far. */
  ghost predicate Sim(e: Encoder.State, d: Decoder.State, consumed: string) {
    && Encoder.Valid(e) && Decoder.Valid(d)
    && d.text + e.phrase == consumed
    && d.size + 1 == e.size
    && (forall j :: 0 <= j < d.size ==> d.dict[j] in e.dict && e.dict[d.dict[j]] == j)
    && |e.phrase| >= 1
    && d.previous + [e.phrase[0]] in e.dict
    && e.dict[d.previous + [e.phrase[0]]] == d.size
  }

  /** The code the encoder emits for its current phrase decodes to that
      phrase, whether the decoder knows the code already or must fall back
      on `previous + previous[0]` (LZMW.py:70-75). */
  lemma EmitDecodes(e: Encoder.State, d: Decoder.State, consumed: string)
    requires Sim(e, d, consumed)
    ensures Decoder.Step(d, e.dict[e.phrase]).previous == e.phrase
  {
    var x := e.dict[e.phrase];
    if x < d.size {
      assert e.dict[d.dict[x]] == x;
    } else {
      var pending := d.previous + [e.phrase[0]];
      assert e.dict[pending] == x;
      assert pending == e.phrase;
      assert e.phrase[0] == d.previous[0];
    }
  }

  /** One encoder step keeps the relation: if the encoder emits a code, the
      decoder steps on that code; otherwise the decoder stays put. */
  lemma SimStep(e: Encoder.State, d: Decoder.State, consumed: string, c: char)
    requires Sim(e, d, consumed) && c as int < 256
    ensures var t := Encoder.Step(e, c);
      if e.phrase + [c] in e.dict then
        t.codes == e.codes && Sim(t, d, consumed + [c])
      else
        t.codes == e.codes + [e.dict[e.phrase]] && Sim(t, Decoder.Step(d, e.dict[e.phrase]), consumed + [c])
  {
    var t := Encoder.Step(e, c);
    if e.phrase + [c] !in e.dict {
      EmitDecodes(e, d, consumed);
      var u := Decoder.Step(d, e.dict[e.phrase]);
      assert u.text + t.phrase == consumed + [c];
      forall j | 0 <= j < u.size
        ensures u.dict[j] in t.dict && t.dict[u.dict[j]] == j
      {
        if j < d.size {
          assert u.dict[j] == d.dict[j];
        } else {
          assert u.dict[j] == d.previous + [e.phrase[0]];
        }
      }
    }
  }

  /** The encoder's first emission: after two characters it has emitted the
      code of the first one, which the decoder reads as its first phrase. */
  lemma SimStart(c0: char, c1: char)
    requires c0 as int < 256 && c1 as int < 256
    ensures Synced(Encoder.Step(Encoder.Initial(c0), c1), [c0, c1])
  {
    var e0 := Encoder.Initial(c0);
    var e := Encoder.Step(e0, c1);
    assert e0.phrase + [c1] !in e0.dict;
    assert e.codes == [c0 as int];
    var d := Decoder.Run(e.codes);
    assert d.text == [c0] && d.previous == [c0];
    assert Sim(e, d, [c0, c1]);
  }

  /** The encoder in state `e`, having consumed `consumed`, has emitted at
      least one code, and the decoder run on its codes is in the relation
      `Sim` to it. */
  ghost predicate Synced(e: Encoder.State, consumed: string) {
    && |e.codes| >= 1 && e.codes[0] in InitialPhrases()
    && Sim(e, Decoder.Run(e.codes), consumed)
  }

  /** `SimStep` restated for the decoder run on the encoder's codes. */
  lemma SimAdvance(e: Encoder.State, consumed: string, c: char)
    requires Synced(e, consumed) && c as int < 256
    ensures Synced(Encoder.Step(e, c), consumed + [c])
  {
    var t := Encoder.Step(e, c);
    SimStep(e, Decoder.Run(e.codes), consumed, c);
    if e.phrase + [c] !in e.dict {
      assert t.codes[..|e.codes|] == e.codes;
      Decoder.RunPrefix(t.codes, |e.codes|);
    }
  }

  /** Any further characters keep the relation: the encoder fed `cs` and the
      decoder run on its codes stay in lockstep. */
  lemma {:induction false} FeedSim(e: Encoder.State, consumed: string, cs: string)
    requires InAlphabet(cs) && Synced(e, consumed)
    ensures Synced(Encoder.Feed(e, cs), consumed + cs)
    decreases |cs|
  {
    if cs == [] {
      assert consumed + cs == consumed;
    } else {
      var front := cs[..|cs| - 1];
      SplitLast(consumed, cs);
      FeedSim(e, consumed, front);
      SimAdvance(Encoder.Feed(e, front), consumed + front, cs[|cs| - 1]);
    }
  }

  /** Once the decoder has stepped on the code of the encoder's current
      phrase, its dictionary is the encoder's read backwards. */
  lemma CatchUp(e: Encoder.State, d: Decoder.State, consumed: string)
    requires Sim(e, d, consumed)
    ensures Inverse(e.dict, Decoder.Step(d, e.dict[e.phrase]).dict)
  {
    var u := Decoder.Step(d, e.dict[e.phrase]);
    forall j | j in u.dict
      ensures u.dict[j] in e.dict && e.dict[u.dict[j]] == j
    {
      if j < d.size {
        assert u.dict[j] == d.dict[j];
      } else {
        EmitDecodes(e, d, consumed);
      }
    }
    forall p | p in e.dict
      ensures e.dict[p] in u.dict && u.dict[e.dict[p]] == p
    {
      var j := e.dict[p];
      assert e.dict[u.dict[j]] == j;
    }
  }

  /** The final emission: decoding one more code, that of the encoder's last
      phrase, completes the text and the decoder's dictionary. */
  lemma SimFinish(e: Encoder.State, consumed: string)
    requires Synced(e, consumed)
    ensures var codes := e.codes + [e.dict[e.phrase]];
      var d := Decoder.Run(codes);
      d.text == consumed && Inverse(e.dict, d.dict)
  {
    var codes := e.codes + [e.dict[e.phrase]];
    assert codes[..|e.codes|] == e.codes;
    Decoder.RunPrefix(codes, |e.codes|);
    EmitDecodes(e, Decoder.Run(e.codes), consumed);
    CatchUp(e, Decoder.Run(e.codes), consumed);
  }
}
