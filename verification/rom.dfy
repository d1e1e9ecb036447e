/**
 * ROM assembly (lib/src/rom/rom.rs): the header, then padding, then the
 * ARM9 program, then padding again. The rest of `Rom::build` is not
 * written yet in the source (it ends in `todo!()`).
 *
 * The padding `align` writes is `!position & 0x1ff` bytes of 0xff. The low
 * nine bits of `!position` are the complement of those of `position`, so
 * that count is `0x1ff - position % 0x200`: the padded length always ends
 * one byte short of a 0x200 boundary, and a position already on a
 * boundary gets 0x1ff bytes of padding. `AlignTo` is the padding to the
 * next boundary that the name promises.
 */
module Rom {
  import opened Common

  /** The alignment the ROM layout uses. */
  const Alignment: nat := 0x200

  /** `!position & 0x1ff`: the complement of the low nine bits of the position. */
  function AlignPadding(position: nat): (r: nat)
    ensures r < Alignment
    ensures (position + r) % Alignment == Alignment - 1
  {
    var low := position % Alignment;
    DivMixed(Alignment - 1, Alignment, position / Alignment);
    Alignment - 1 - low
  }

  /** `Rom::align` as written: the padding bytes appended to what the cursor holds. */
  function Align(out: seq<byte>): (r: seq<byte>)
    ensures |r| == |out| + AlignPadding(|out|)
    ensures r[..|out|] == out
    ensures forall i :: |out| <= i < |r| ==> r[i] == 0xff
  {
    out + Fill(0xff, AlignPadding(|out|))
  }

  /** The as-written padding never reaches a boundary: the length it leaves is always one short of one. */
  lemma {:induction false} AlignMissesBoundary(out: seq<byte>)
    ensures |Align(out)| % Alignment == Alignment - 1
    ensures |Align(out)| % Alignment != 0
  {
  }

  /** An already aligned header of 0x4000 bytes is padded by 0x1ff bytes, to 0x41ff. */
  lemma {:induction false} AlignedGrows()
    ensures AlignPadding(0x4000) == 0x1ff
    ensures |Align(Fill(0, 0x4000))| == 0x41ff
  {
  }

  /** The padding that reaches the next boundary: none when the position is on one. */
  function BoundaryPadding(position: nat): (r: nat)
    ensures r < Alignment
    ensures (position + r) % Alignment == 0
    ensures position % Alignment == 0 <==> r == 0
  {
    var low := position % Alignment;
    if low == 0 then 0
    else
      DivMixed(low, Alignment, position / Alignment);
      DivMixed(0, Alignment, position / Alignment + 1);
      Alignment - low
  }

  /** `Rom::align` as its name promises: 0xff bytes up to the next 0x200 boundary. */
  function AlignTo(out: seq<byte>): (r: seq<byte>)
    ensures |r| == |out| + BoundaryPadding(|out|)
    ensures r[..|out|] == out
    ensures forall i :: |out| <= i < |r| ==> r[i] == 0xff
  {
    out + Fill(0xff, BoundaryPadding(|out|))
  }

  /** The corrected padding gives the least boundary at or past the current length. */
  lemma {:induction false} AlignToLeast(out: seq<byte>, n: nat)
    requires n >= |out| && n % Alignment == 0
    ensures |AlignTo(out)| % Alignment == 0
    ensures |out| <= |AlignTo(out)| <= n
  {
    var p := |out|;
    var q, low := p / Alignment, p % Alignment;
    if low != 0 {
      var k := n / Alignment;
      assert n == k * Alignment;
      assert k >= q;
      assert k != q;
      MulLe(q + 1, k, Alignment);
    }
  }

  /**
   * The part of `Rom::build` the source has: the header bytes, padding,
   * the full ARM9 program, padding.
   */
  function BuildPrefix(header: seq<byte>, arm9: seq<byte>): (r: seq<byte>)
    ensures |r| == |Align(header)| + |arm9| + AlignPadding(|Align(header)| + |arm9|)
    ensures r[..|header|] == header
    ensures r[|Align(header)|..|Align(header)| + |arm9|] == arm9
  {
    var first := Align(header);
    var r := Align(first + arm9);
    assert r[..|header|] == first[..|header|];
    assert r[|first|..|first| + |arm9|] == (first + arm9)[|first|..];
    r
  }
}
