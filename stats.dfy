/** The integer part of `calculate_compression_stats` (LZMW.py:88-116): the
    size in bytes that the statistics report for a list of codes.

    The statistics count 1, 2, 3 or 4 bytes per code, with a 3-byte class
    for codes from 65536 up to 16777215, while the export writes 1, 2 or 4
    bytes and has no 3-byte class. The two are modelled as written; the
    lemmas below say exactly where they part. */
module Stats {
  import opened Export

  /** The bytes the statistics charge for one code (LZMW.py:103-106): for
      a code in 0 .. 2^32 - 1, the fewest bytes, from 1 to 4, that hold it. */
  function StatsWidth(code: int): (w: nat)
    ensures 1 <= w <= 4
    ensures 0 <= code < Pow256(4) ==> code < Pow256(w)
    ensures w > 1 ==> code >= Pow256(w - 1)
  {
    assert Pow256(1) == 256 && Pow256(2) == 65536;
    assert Pow256(4) == 0x1_0000_0000 by {
      assert Pow256(3) == 16777216;
    }
    if code < 256 then 1
    else if code < 65536 then 2
    else if code < 16777216 then 3
    else 4
  }

  /** `compressed_size`: the sum of `StatsWidth` over the codes. */
  function CompressedSize(codes: seq<int>): (r: nat)
    ensures |codes| <= r <= 4 * |codes|
  {
    if codes == [] then 0
    else CompressedSize(codes[..|codes| - 1]) + StatsWidth(codes[|codes| - 1])
  }

  /** The two widths agree outside the 3-byte class and differ by one
      byte inside it. */
  lemma WidthsCompared(code: int)
    ensures StatsWidth(code) <= Width(code)
    ensures StatsWidth(code) == Width(code) <==> !(65536 <= code < 16777216)
    ensures 65536 <= code < 16777216 ==> StatsWidth(code) == 3 && Width(code) == 4
  {
  }

  /** For codes the export accepts, the reported size never exceeds the
      exported size, and equals it exactly when no code falls in
      65536 .. 16777215. */
  lemma {:induction false} ReportedVersusExported(codes: seq<int>)
    requires Packing(codes).Packed?
    ensures CompressedSize(codes) <= |Packing(codes).bytes|
    ensures CompressedSize(codes) == |Packing(codes).bytes| <==>
      forall j :: 0 <= j < |codes| ==> !(65536 <= codes[j] < 16777216)
  {
    if codes != [] {
      var n := |codes|;
      var front := codes[..n - 1];
      var last := codes[n - 1];
      ReportedVersusExported(front);
      WidthsCompared(last);
      WidthIsSmallest(last);
      assert |Packing(codes).bytes| == |Packing(front).bytes| + Width(last);
      assert forall j :: 0 <= j < n - 1 ==> front[j] == codes[j];
    }
  }

  /** One code in the disputed class: reported as 3 bytes, exported as 4. */
  lemma DisputedCode()
    ensures CompressedSize([65536]) == 3
    ensures Packing([65536]).Packed? && |Packing([65536]).bytes| == 4
  {
    assert [65536][..0] == [];
    WidthIsSmallest(65536);
  }
}
