/**
 * Autoload blocks of the ARM9 program: the table of 12-byte autoload infos
 * (base address, code size, .bss size) and the block that pairs one info
 * with its data.
 */
module Autoload {
  import opened Common

  /** The size of one autoload info record. */
  const InfoSize: nat := 12

  /** The base address of the instruction TCM. */
  const ItcmBase: u32 := 0x1ff8000

  /** The base address of the data TCM. */
  const DtcmBase: u32 := 0x27e0000

  datatype AutoloadInfo = AutoloadInfo(baseAddress: u32, codeSize: u32, bssSize: u32)

  datatype AutoloadKind = Itcm | Dtcm | Unknown

  /** The table's length is not a multiple of the record size. */
  datatype InfoError = InvalidSize

  /** The record's bytes: base address, code size, .bss size, each little-endian. */
  function InfoBytes(a: AutoloadInfo): (r: seq<byte>)
    ensures |r| == InfoSize
  {
    U32Bytes(a.baseAddress) + U32Bytes(a.codeSize) + U32Bytes(a.bssSize)
  }

  function ReadInfo(b: seq<byte>): AutoloadInfo
    requires |b| == InfoSize
  {
    AutoloadInfo(ReadU32(b, 0), ReadU32(b, 4), ReadU32(b, 8))
  }

  /** A record reads back from its bytes, and a block of bytes is the image of what it reads as. */
  lemma {:induction false} InfoRoundTrip(a: AutoloadInfo, b: seq<byte>)
    requires |b| == InfoSize
    ensures ReadInfo(InfoBytes(a)) == a
    ensures InfoBytes(ReadInfo(b)) == b
  {
    var e := InfoBytes(a);
    U32RoundTrip(a.baseAddress, b, 0);
    U32RoundTrip(a.codeSize, b, 4);
    U32RoundTrip(a.bssSize, b, 8);
    ReadU32In(e, 0, U32Bytes(a.baseAddress), 0);
    ReadU32In(e, 4, U32Bytes(a.codeSize), 0);
    ReadU32In(e, 8, U32Bytes(a.bssSize), 0);
    assert b == b[0..4] + b[4..8] + b[8..12];
  }

  /** The bytes of a whole table: the records one after another. */
  function TableBytes(infos: seq<AutoloadInfo>): (r: seq<byte>)
    ensures |r| == InfoSize * |infos|
  {
    var blocks := seq(|infos|, i requires 0 <= i < |infos| => InfoBytes(infos[i]));
    ChunksConcat(blocks, InfoSize);
    Concat(blocks)
  }

  /**
   * `AutoloadInfo::borrow_from_slice`: the table read as records. The length
   * must be a multiple of 12; record `i` holds the words at `12i`, `12i + 4`
   * and `12i + 8`.
   */
  function BorrowFromSlice(data: seq<byte>): (r: Result<seq<AutoloadInfo>, InfoError>)
    ensures r.Err? <==> |data| % InfoSize != 0
    ensures r.Ok? ==> |r.value| == |data| / InfoSize && InfoSize * |r.value| == |data|
    ensures r.Ok? ==> forall i :: 0 <= i < |r.value| ==>
      r.value[i] == AutoloadInfo(ReadU32(data, InfoSize * i), ReadU32(data, InfoSize * i + 4), ReadU32(data, InfoSize * i + 8))
  {
    if |data| % InfoSize != 0 then Err(InvalidSize)
    else
      var n := |data| / InfoSize;
      var blocks := Chunks(data, InfoSize, n);
      var infos := seq(n, i requires 0 <= i < n => ReadInfo(blocks[i]));
      assert forall i :: 0 <= i < n ==>
        infos[i] == AutoloadInfo(ReadU32(data, InfoSize * i), ReadU32(data, InfoSize * i + 4), ReadU32(data, InfoSize * i + 8)) by {
        forall i | 0 <= i < n
          ensures infos[i] == AutoloadInfo(ReadU32(data, InfoSize * i), ReadU32(data, InfoSize * i + 4), ReadU32(data, InfoSize * i + 8))
        {
          ChunksAt(data, InfoSize, n, i);
          ReadU32In(data, InfoSize * i, blocks[i], 0);
          ReadU32In(data, InfoSize * i, blocks[i], 4);
          ReadU32In(data, InfoSize * i, blocks[i], 8);
        }
      }
      Ok(infos)
  }

  /** Record `i` of a table's bytes holds the words of entry `i`. */
  lemma {:induction false} TableBytesAt(infos: seq<AutoloadInfo>, i: nat)
    requires i < |infos|
    ensures InfoSize * i + InfoSize <= |TableBytes(infos)|
    ensures ReadU32(TableBytes(infos), InfoSize * i) == infos[i].baseAddress
    ensures ReadU32(TableBytes(infos), InfoSize * i + 4) == infos[i].codeSize
    ensures ReadU32(TableBytes(infos), InfoSize * i + 8) == infos[i].bssSize
  {
    var blocks := seq(|infos|, j requires 0 <= j < |infos| => InfoBytes(infos[j]));
    var data := TableBytes(infos);
    ConcatAt(blocks, InfoSize, i);
    InfoRoundTrip(infos[i], blocks[i]);
    ReadU32In(data, InfoSize * i, blocks[i], 0);
    ReadU32In(data, InfoSize * i, blocks[i], 4);
    ReadU32In(data, InfoSize * i, blocks[i], 8);
  }

  /** Reading the bytes of a table gives the table back. */
  lemma {:induction false} TableRoundTrip(infos: seq<AutoloadInfo>)
    ensures BorrowFromSlice(TableBytes(infos)) == Ok(infos)
  {
    var n := |infos|;
    var data := TableBytes(infos);
    assert |data| % InfoSize == 0 && |data| / InfoSize == n;
    var r := BorrowFromSlice(data).value;
    forall i | 0 <= i < n ensures r[i] == infos[i] {
      TableBytesAt(infos, i);
    }
    assert r == infos;
  }

  /** A table that reads writes back to the same bytes. */
  lemma {:induction false} BytesRoundTrip(data: seq<byte>)
    requires BorrowFromSlice(data).Ok?
    ensures TableBytes(BorrowFromSlice(data).value) == data
  {
    var infos := BorrowFromSlice(data).value;
    var n := |infos|;
    var chunks := Chunks(data, InfoSize, n);
    var blocks := seq(n, i requires 0 <= i < n => InfoBytes(infos[i]));
    forall i | 0 <= i < n ensures blocks[i] == chunks[i] {
      ChunksAt(data, InfoSize, n, i);
      InfoRoundTrip(infos[i], chunks[i]);
      ReadU32In(data, InfoSize * i, chunks[i], 0);
      ReadU32In(data, InfoSize * i, chunks[i], 4);
      ReadU32In(data, InfoSize * i, chunks[i], 8);
    }
    assert blocks == chunks;
    ConcatChunks(data, InfoSize, n);
  }

  /** `AutoloadInfo::kind`: which memory the block loads into, told by its base address. */
  function Kind(a: AutoloadInfo): (r: AutoloadKind)
    ensures r == Itcm <==> a.baseAddress == ItcmBase
    ensures r == Dtcm <==> a.baseAddress == DtcmBase
  {
    if a.baseAddress == ItcmBase then Itcm
    else if a.baseAddress == DtcmBase then Dtcm
    else Unknown
  }

  /** How an `AutoloadKind` displays. */
  function KindName(k: AutoloadKind): (r: string)
    ensures |r| > 0
  {
    match k
    case Itcm => "ITCM"
    case Dtcm => "DTCM"
    case Unknown => "Unknown"
  }

  /** Different kinds display differently, so a displayed kind names one kind. */
  lemma {:induction false} KindNameInjective(k: AutoloadKind, l: AutoloadKind)
    requires KindName(k) == KindName(l)
    ensures k == l
  {
  }

  /** An autoload block: its data (code followed by anything else) and its info. */
  datatype Block = Block(data: seq<byte>, info: AutoloadInfo)

  /** `Autoload::code`: the first `code_size` bytes of the data; the slice panics when the data is shorter. */
  function Code(b: Block): (r: seq<byte>)
    requires b.info.codeSize <= |b.data|
    ensures |r| == b.info.codeSize
    ensures r + b.data[b.info.codeSize..] == b.data
  {
    b.data[..b.info.codeSize]
  }

  /** `Autoload::full_data` and `into_data`: all of the block's bytes. */
  function FullData(b: Block): seq<byte> {
    b.data
  }

  function BaseAddress(b: Block): u32 {
    b.info.baseAddress
  }

  function BlockKind(b: Block): AutoloadKind {
    Kind(b.info)
  }

  function BssSize(b: Block): u32 {
    b.info.bssSize
  }

  /**
   * A block made (`Autoload::new`) from its code followed by any other bytes
   * gives that code back, keeps all of the bytes, and is of the kind its base
   * address names.
   */
  lemma {:induction false} NewBlock(code: seq<byte>, rest: seq<byte>, info: AutoloadInfo)
    requires info.codeSize == |code|
    ensures Code(Block(code + rest, info)) == code
    ensures FullData(Block(code + rest, info)) == code + rest
    ensures BaseAddress(Block(code + rest, info)) == info.baseAddress && BssSize(Block(code + rest, info)) == info.bssSize
    ensures BlockKind(Block(code + rest, info)) == Itcm <==> info.baseAddress == ItcmBase
  {
    assert (code + rest)[..|code|] == code;
  }

  /** An address computation that overflows a u32 (a panic in the source). */
  datatype AddressError = AddressOverflow

  /**
   * `Autoload::end_address`: the first address past the block's code and
   * .bss, which fails where the u32 sum overflows.
   */
  function EndAddress(b: Block): (r: Result<u32, AddressError>)
    ensures r.Ok? <==> b.info.baseAddress + b.info.codeSize + b.info.bssSize < 0x1_0000_0000
    ensures r.Ok? ==> r.value - BaseAddress(b) == b.info.codeSize + BssSize(b)
  {
    var end := b.info.baseAddress + b.info.codeSize + b.info.bssSize;
    if end < 0x1_0000_0000 then Ok(end) else Err(AddressOverflow)
  }
}
