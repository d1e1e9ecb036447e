/**
 * The raw overlay table: 32-byte records of eight little-endian words (id,
 * base address, code size, .bss size, .ctor start and end, file id, and a
 * bit-field word), and the two readings of that last word. The raw record
 * reads it as `OverlayCompressedSize` (a 24-bit size and an 8-bit
 * compressed marker); the overlay module reads it as `OverlayFlags`, whose
 * definition is not part of this model and is taken to be the same 24-bit
 * size followed by a compressed bit, a signed bit and six reserved bits.
 */
module RawOverlay {
  import opened Common
  import opened Bitfield

  /** The size of one record. */
  const RecordSize: nat := 32

  datatype Overlay = Overlay(
    id: u32,
    baseAddr: u32,
    codeSize: u32,
    bssSize: u32,
    ctorStart: u32,
    ctorEnd: u32,
    fileId: u32,
    flags: u32)

  /** The table's length is not a multiple of the record size. */
  datatype OverlayError = InvalidSize

  /** The words of a record, in declaration order. */
  function Fields(o: Overlay): (r: seq<u32>)
    ensures |r| == 8
  {
    [o.id, o.baseAddr, o.codeSize, o.bssSize, o.ctorStart, o.ctorEnd, o.fileId, o.flags]
  }

  function FromFields(ws: seq<u32>): Overlay
    requires |ws| == 8
  {
    Overlay(ws[0], ws[1], ws[2], ws[3], ws[4], ws[5], ws[6], ws[7])
  }

  function OverlayBytes(o: Overlay): (r: seq<byte>)
    ensures |r| == RecordSize
  {
    WordsBytes(Fields(o))
  }

  /** The record stored in 32 bytes: word `k` is the little-endian u32 at `4k`. */
  function ReadOverlay(b: seq<byte>): (r: Overlay)
    requires |b| == RecordSize
    ensures forall k :: 0 <= k < 8 ==> Fields(r)[k] == ReadU32(b, 4 * k)
  {
    var ws := Words(b);
    assert forall k :: 0 <= k < 8 ==> ws[k] == ReadU32(b, 4 * k) by {
      forall k | 0 <= k < 8 ensures ws[k] == ReadU32(b, 4 * k) {
        WordsIndex(b, k);
      }
    }
    FromFields(ws)
  }

  /** A record reads back from its bytes, and 32 bytes are the image of what they read as. */
  lemma {:induction false} OverlayRoundTrip(o: Overlay, b: seq<byte>)
    requires |b| == RecordSize
    ensures ReadOverlay(OverlayBytes(o)) == o
    ensures OverlayBytes(ReadOverlay(b)) == b
  {
    WordsOfWordsBytes(Fields(o));
    WordsBytesOfWords(b);
    assert Fields(FromFields(Words(b))) == Words(b);
  }

  /** `as_bytes`: the bytes of a whole table, the records one after another. */
  function TableBytes(os: seq<Overlay>): (r: seq<byte>)
    ensures |r| == RecordSize * |os|
  {
    var blocks := seq(|os|, i requires 0 <= i < |os| => OverlayBytes(os[i]));
    ChunksConcat(blocks, RecordSize);
    Concat(blocks)
  }

  /**
   * `Overlay::borrow_from_slice`: the table read as records. The length must
   * be a multiple of 32; record `i` is the decoding of bytes `32i..32i + 32`.
   */
  function BorrowFromSlice(data: seq<byte>): (r: Result<seq<Overlay>, OverlayError>)
    ensures r.Err? <==> |data| % RecordSize != 0
    ensures r.Ok? ==> |r.value| == |data| / RecordSize && RecordSize * |r.value| == |data|
    ensures r.Ok? ==> forall i :: 0 <= i < |r.value| ==>
      RecordSize * i + RecordSize <= |data| &&
      r.value[i] == ReadOverlay(data[RecordSize * i..RecordSize * i + RecordSize])
  {
    if |data| % RecordSize != 0 then Err(InvalidSize)
    else
      var n := |data| / RecordSize;
      var blocks := Chunks(data, RecordSize, n);
      var os := seq(n, i requires 0 <= i < n => ReadOverlay(blocks[i]));
      forall i | 0 <= i < n
        ensures RecordSize * i + RecordSize <= |data|
        ensures os[i] == ReadOverlay(data[RecordSize * i..RecordSize * i + RecordSize])
      {
        ChunksAt(data, RecordSize, n, i);
      }
      Ok(os)
  }

  /** Reading the bytes of a table gives the table back. */
  lemma {:induction false} TableRoundTrip(os: seq<Overlay>)
    ensures BorrowFromSlice(TableBytes(os)) == Ok(os)
  {
    var n := |os|;
    var blocks := seq(n, i requires 0 <= i < n => OverlayBytes(os[i]));
    var data := TableBytes(os);
    assert |data| % RecordSize == 0 && |data| / RecordSize == n;
    var r := BorrowFromSlice(data).value;
    forall i | 0 <= i < n ensures r[i] == os[i] {
      ConcatAt(blocks, RecordSize, i);
      OverlayRoundTrip(os[i], blocks[i]);
    }
    assert r == os;
  }

  /** A table that reads writes back to the same bytes. */
  lemma {:induction false} BytesRoundTrip(data: seq<byte>)
    requires BorrowFromSlice(data).Ok?
    ensures TableBytes(BorrowFromSlice(data).value) == data
  {
    var os := BorrowFromSlice(data).value;
    var n := |os|;
    var chunks := Chunks(data, RecordSize, n);
    var blocks := seq(n, i requires 0 <= i < n => OverlayBytes(os[i]));
    forall i | 0 <= i < n ensures blocks[i] == chunks[i] {
      ChunksAt(data, RecordSize, n, i);
      OverlayRoundTrip(os[i], chunks[i]);
    }
    assert blocks == chunks;
    ConcatChunks(data, RecordSize, n);
  }

  /** Different tables have different bytes, so a signature over the bytes covers every entry. */
  lemma {:induction false} TableBytesInjective(a: seq<Overlay>, b: seq<Overlay>)
    requires TableBytes(a) == TableBytes(b)
    ensures a == b
  {
    TableRoundTrip(a);
    TableRoundTrip(b);
  }

  // ---------------------------------------------------------------------
  // OverlayCompressedSize: size in bits 0-23, is_compressed in bits 24-31

  const CompressedLayout: seq<nat> := [24, 8]

  /** The layout spans the whole word. */
  lemma {:induction false} CompressedLayoutWidth()
    ensures Total(CompressedLayout) == 32 && Pow2(Total(CompressedLayout)) == 0x1_0000_0000
    ensures Pow2(CompressedLayout[0]) == 0x100_0000 && Pow2(CompressedLayout[1]) == 0x100
  {
    assert CompressedLayout[1..] == [8];
    Pow2Facts();
  }

  function CompressedSize(w: u32): nat {
    Unpack(w, CompressedLayout)[0]
  }

  function IsCompressed(w: u32): nat {
    Unpack(w, CompressedLayout)[1]
  }

  /** The size is the low 24 bits and the compressed marker the top byte. */
  lemma {:induction false} CompressedBits(w: u32)
    ensures CompressedSize(w) == w % 0x100_0000
    ensures IsCompressed(w) == w / 0x100_0000
  {
    var l := CompressedLayout;
    CompressedLayoutWidth();
    FieldAt(w, l, 0);
    FieldAt(w, l, 1);
    assert l[..0] == [] && l[..1] == [24];
    assert Total([24]) == 24;
  }

  /** `set_size`: the size field replaced; the setter panics on a size wider than 24 bits. */
  function WithSize(w: u32, size: nat): (r: u32)
    requires size < 0x100_0000
    ensures CompressedSize(r) == size
    ensures IsCompressed(r) == IsCompressed(w)
  {
    CompressedLayoutWidth();
    SetField(w, CompressedLayout, 0, size);
    Pack(Unpack(w, CompressedLayout)[0 := size], CompressedLayout)
  }

  /** `set_is_compressed`: the top byte replaced. */
  function WithIsCompressed(w: u32, c: byte): (r: u32)
    ensures IsCompressed(r) == c
    ensures CompressedSize(r) == CompressedSize(w)
  {
    CompressedLayoutWidth();
    SetField(w, CompressedLayout, 1, c);
    Pack(Unpack(w, CompressedLayout)[1 := c], CompressedLayout)
  }

  // ---------------------------------------------------------------------
  // OverlayFlags: size in bits 0-23, compressed bit 24, signed bit 25

  const FlagsLayout: seq<nat> := [24, 1, 1, 6]

  lemma {:induction false} FlagsLayoutWidth()
    ensures Total(FlagsLayout) == 32 && Pow2(Total(FlagsLayout)) == 0x1_0000_0000
    ensures Pow2(FlagsLayout[0]) == 0x100_0000 && Pow2(FlagsLayout[1]) == 2 && Pow2(FlagsLayout[2]) == 2
  {
    var l := FlagsLayout;
    assert l[1..] == [1, 1, 6] && l[1..][1..] == [1, 6] && l[1..][1..][1..] == [6];
    Pow2Facts();
  }

  function FlagsSize(w: u32): (r: nat)
    ensures r < 0x100_0000
  {
    FlagsLayoutWidth();
    Unpack(w, FlagsLayout)[0]
  }

  predicate FlagsIsCompressed(w: u32) {
    Unpack(w, FlagsLayout)[1] == 1
  }

  predicate FlagsIsSigned(w: u32) {
    Unpack(w, FlagsLayout)[2] == 1
  }

  /** The six bits above the signed flag, which nothing sets. */
  function FlagsReserved(w: u32): nat {
    Unpack(w, FlagsLayout)[3]
  }

  function Bit(b: bool): nat {
    if b then 1 else 0
  }

  /**
   * The flags word `OverlayFlags::new()` followed by the three setters
   * gives: the size, the two flags, and zero reserved bits.
   */
  function NewFlags(size: nat, compressed: bool, signed: bool): (r: u32)
    requires size < 0x100_0000
    ensures FlagsSize(r) == size
    ensures FlagsIsCompressed(r) == compressed && FlagsIsSigned(r) == signed
    ensures FlagsReserved(r) == 0
  {
    var fields := [size, Bit(compressed), Bit(signed), 0];
    FlagsLayoutWidth();
    assert Fits(fields, FlagsLayout);
    UnpackPack(fields, FlagsLayout);
    Pack(fields, FlagsLayout)
  }

  /** Both readings of the word share the size field. */
  lemma {:induction false} SizeViewsAgree(w: u32)
    ensures FlagsSize(w) == CompressedSize(w)
  {
    FlagsLayoutWidth();
    FieldAt(w, FlagsLayout, 0);
    CompressedBits(w);
    assert FlagsLayout[..0] == [];
  }

  /** The compressed flag is bit 24 and the signed flag bit 25. */
  lemma {:induction false} FlagBits(w: u32)
    ensures FlagsIsCompressed(w) <==> w / 0x100_0000 % 2 == 1
    ensures FlagsIsSigned(w) <==> w / 0x200_0000 % 2 == 1
  {
    var l := FlagsLayout;
    FlagsLayoutWidth();
    FieldAt(w, l, 1);
    FieldAt(w, l, 2);
    assert l[..1] == [24] && l[..2] == [24, 1];
    assert Total([24]) == 24;
    assert Total([24, 1]) == 25 by {
      assert [24, 1][1..] == [1];
    }
    Pow2Facts();
    assert Pow2(25) == 0x200_0000;
  }

  /** A flags word is the packing of its four fields. */
  lemma {:induction false} FlagsFields(w: u32)
    ensures Fits([FlagsSize(w), Bit(FlagsIsCompressed(w)), Bit(FlagsIsSigned(w)), FlagsReserved(w)], FlagsLayout)
    ensures w == Pack([FlagsSize(w), Bit(FlagsIsCompressed(w)), Bit(FlagsIsSigned(w)), FlagsReserved(w)], FlagsLayout)
  {
    var u := Unpack(w, FlagsLayout);
    FlagsLayoutWidth();
    assert u[1] < 2 && u[2] < 2;
    assert u == [FlagsSize(w), Bit(FlagsIsCompressed(w)), Bit(FlagsIsSigned(w)), FlagsReserved(w)];
    PackUnpack(w, FlagsLayout);
  }

  /**
   * A flags word with clear reserved bits is the one `NewFlags` builds from
   * its own size and flags, and no other word with clear reserved bits is.
   */
  lemma {:induction false} FlagsDetermined(w: u32, size: nat, compressed: bool, signed: bool)
    requires size < 0x100_0000
    ensures w == NewFlags(size, compressed, signed) <==>
      FlagsReserved(w) == 0 && FlagsSize(w) == size &&
      FlagsIsCompressed(w) == compressed && FlagsIsSigned(w) == signed
  {
    if FlagsReserved(w) == 0 && FlagsSize(w) == size &&
       FlagsIsCompressed(w) == compressed && FlagsIsSigned(w) == signed {
      FlagsFields(w);
    }
  }
}
