/** The byte export of the compressed codes (LZMW.py:221-228): each code is
    written big-endian in 1 byte below 256, in 2 bytes below 65536 and in 4
    bytes otherwise. The widths are not recorded in the output. */
module Export {
  import opened Alphabet

  newtype byte = x: int | 0 <= x < 256

  /** The outcome of the export loop: the bytes written, or the first code
      whose `to_bytes` raises `OverflowError` (a negative code, or one of
      2^32 or more). */
  datatype Packed =
    | Packed(bytes: seq<byte>)
    | Overflow(code: int)

  datatype Option<T> = None | Some(value: T)

  /** 256^n, the number of values `n` bytes can hold (256, 65536 and 2^32
      for the export's widths). A helper for the width lemmas. */
  function Pow256(n: nat): (p: nat)
    ensures p >= 1
  {
    if n == 0 then 1 else 256 * Pow256(n - 1)
  }

  /** The number of bytes the export writes for `code` (LZMW.py:223-228). */
  function Width(code: int): (w: nat)
    ensures w == 1 || w == 2 || w == 4
  {
    if code < 256 then 1 else if code < 65536 then 2 else 4
  }

  /** `v.to_bytes(n, byteorder='big')` for a `v` that fits in `n` bytes. */
  function BigEndian(v: nat, n: nat): (b: seq<byte>)
    requires v < Pow256(n)
    ensures |b| == n
  {
    if n == 0 then [] else BigEndian(v / 256, n - 1) + [(v % 256) as byte]
  }

  /** The value of a big-endian byte string. */
  function FromBigEndian(b: seq<byte>): (v: nat)
    ensures v < Pow256(|b|)
  {
    if b == [] then 0 else FromBigEndian(b[..|b| - 1]) * 256 + b[|b| - 1] as int
  }

  /** Reading back what `BigEndian` wrote gives the value. */
  lemma {:induction false} BigEndianRoundTrip(v: nat, n: nat)
    requires v < Pow256(n)
    ensures FromBigEndian(BigEndian(v, n)) == v
  {
    if n > 0 {
      var b := BigEndian(v, n);
      assert b[..n - 1] == BigEndian(v / 256, n - 1);
      BigEndianRoundTrip(v / 256, n - 1);
    }
  }

  /** Every byte string of length `n` is what `BigEndian` writes for its value. */
  lemma {:induction false} FromBigEndianRoundTrip(b: seq<byte>)
    ensures BigEndian(FromBigEndian(b), |b|) == b
  {
    if b != [] {
      var n := |b|;
      var v := FromBigEndian(b);
      FromBigEndianRoundTrip(b[..n - 1]);
      assert v / 256 == FromBigEndian(b[..n - 1]);
      assert v % 256 == b[n - 1] as int;
      assert b == b[..n - 1] + [b[n - 1]];
    }
  }

  /** A code can be exported exactly when it lies in 0 .. 2^32 - 1. */
  predicate Exportable(code: int) {
    0 <= code < 0x1_0000_0000
  }

  /** The width is the smallest of 1, 2 and 4 bytes that holds the code. */
  lemma WidthIsSmallest(code: int)
    ensures 0 <= code < Pow256(Width(code)) <==> Exportable(code)
    ensures Width(code) > 1 ==> code >= Pow256(Width(code) / 2)
    ensures Width(code) == 1 || Width(code) == 2 || Width(code) == 4
  {
    assert Pow256(1) == 256;
    assert Pow256(2) == 65536;
    assert Pow256(4) == 0x1_0000_0000 by {
      assert Pow256(3) == 16777216;
    }
  }

  /** The width classes at their boundaries, and one big-endian write. */
  lemma WidthBoundaries()
    ensures Width(255) == 1 && Width(256) == 2 && Width(65535) == 2 && Width(65536) == 4
    ensures BigEndian(258, 2) == [1, 2]
  {
  }

  /** The bytes the export loop writes for `codes`, in order; the first
      code that does not fit stops it. */
  function Packing(codes: seq<int>): (r: Packed)
    ensures r.Packed? <==> forall j :: 0 <= j < |codes| ==> Exportable(codes[j])
    ensures r.Overflow? ==> exists j :: 0 <= j < |codes| && codes[j] == r.code && !Exportable(r.code)
  {
    if codes == [] then
      Packed([])
    else
      var last := codes[|codes| - 1];
      match Packing(codes[..|codes| - 1])
      case Overflow(c) => Overflow(c)
      case Packed(bytes) =>
        WidthIsSmallest(last);
        if 0 <= last < Pow256(Width(last)) then Packed(bytes + BigEndian(last, Width(last)))
        else Overflow(last)
  }

  /** Once a code overflows, later codes change nothing: the exception
      ends the loop. */
  lemma {:induction false} OverflowStops(codes: seq<int>, i: nat)
    requires i <= |codes| && Packing(codes[..i]).Overflow?
    ensures Packing(codes) == Packing(codes[..i])
    decreases |codes| - i
  {
    if i < |codes| {
      var n := |codes|;
      assert codes[..n - 1][..i] == codes[..i];
      OverflowStops(codes[..n - 1], i);
    } else {
      assert codes[..i] == codes;
    }
  }

  /** The loop at LZMW.py:222-228, writing into a growing buffer. */
  method Export(codes: seq<int>) returns (r: Packed)
    ensures r == Packing(codes)
  {
    var buffer: seq<byte> := [];
    for i := 0 to |codes|
      invariant Packing(codes[..i]) == Packed(buffer)
    {
      assert codes[..i + 1][..i] == codes[..i];
      var code := codes[i];
      if code < 256 {
        if code < 0 {
          OverflowStops(codes, i + 1);
          return Overflow(code);
        }
        buffer := buffer + BigEndian(code, 1);
      } else if code < 65536 {
        buffer := buffer + BigEndian(code, 2);
      } else {
        if code >= Pow256(4) {
          OverflowStops(codes, i + 1);
          return Overflow(code);
        }
        buffer := buffer + BigEndian(code, 4);
      }
    }
    assert codes[..|codes|] == codes;
    return Packed(buffer);
  }

  /** The sum of a list of widths. */
  function Total(ws: seq<nat>): nat {
    if ws == [] then 0 else Total(ws[..|ws| - 1]) + ws[|ws| - 1]
  }

  /** The widths the export used, one per code: they add up to the number
      of bytes written, so they say exactly where each code's bytes end. */
  function Widths(codes: seq<int>): (ws: seq<nat>)
    ensures |ws| == |codes|
    ensures forall j :: 0 <= j < |codes| ==> ws[j] == Width(codes[j])
    ensures Packing(codes).Packed? ==> Total(ws) == |Packing(codes).bytes|
    decreases |codes|
  {
    if codes == [] then []
    else
      var front := Widths(codes[..|codes| - 1]);
      var ws := front + [Width(codes[|codes| - 1])];
      assert ws[..|ws| - 1] == front;
      ws
  }

  /** Splits `bytes` by the given widths and reads each piece big-endian;
      `None` when the widths do not cover the bytes exactly. */
  function Unpack(bytes: seq<byte>, widths: seq<nat>): (r: Option<seq<int>>)
    ensures r.Some? ==> |r.value| == |widths|
    decreases |widths|
  {
    if widths == [] then
      if bytes == [] then Some([]) else None
    else
      var w := widths[|widths| - 1];
      if |bytes| < w then None
      else match Unpack(bytes[..|bytes| - w], widths[..|widths| - 1])
        case None => None
        case Some(front) => Some(front + [FromBigEndian(bytes[|bytes| - w..])])
  }

  /** Reading one more piece of width `|tail|` off the end of the bytes. */
  lemma UnpackSnoc(bytes: seq<byte>, tail: seq<byte>, widths: seq<nat>)
    ensures Unpack(bytes + tail, widths + [|tail|]) ==
      match Unpack(bytes, widths)
      case None => None
      case Some(front) => Some(front + [FromBigEndian(tail)])
  {
    var all := bytes + tail;
    var ws := widths + [|tail|];
    assert all[..|all| - |tail|] == bytes;
    assert all[|all| - |tail|..] == tail;
    assert ws[..|ws| - 1] == widths;
  }

  /** The export of a non-empty list is that of all but its last code,
      followed by the bytes of the last code. */
  lemma PackingLast(codes: seq<int>)
    requires codes != [] && Packing(codes).Packed?
    ensures var last := codes[|codes| - 1];
      && Packing(codes[..|codes| - 1]).Packed?
      && 0 <= last < Pow256(Width(last))
      && Packing(codes).bytes == Packing(codes[..|codes| - 1]).bytes + BigEndian(last, Width(last))
  {
    WidthIsSmallest(codes[|codes| - 1]);
  }


  /** Nothing is lost by the export as long as the reader knows the widths. */
  lemma {:induction false} ExportRoundTrip(codes: seq<int>)
    requires Packing(codes).Packed?
    ensures Unpack(Packing(codes).bytes, Widths(codes)) == Some(codes)
  {
    if codes != [] {
      var front := codes[..|codes| - 1];
      var last := codes[|codes| - 1];
      PackingLast(codes);
      var tail := BigEndian(last, Width(last));
      ExportRoundTrip(front);
      UnpackSnoc(Packing(front).bytes, tail, Widths(front));
      BigEndianRoundTrip(last, Width(last));
      SplitLast([], codes);
      assert [] + codes == codes;
    }
  }
}
