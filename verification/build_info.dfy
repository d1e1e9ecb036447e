/**
 * The build info block of the ARM9 program: nine little-endian u32 words
 * (autoload table bounds, .bss bounds, the end of the compressed code, the
 * SDK version) closed by the nitrocode and its byte-reversed twin.
 */
module BuildInfo {
  import opened Common

  /** The size of the block. */
  const InfoSize: nat := 36

  /** `0x2106c0de` byte-reversed, so that its little-endian bytes read 21 06 c0 de. */
  const Nitrocode: u32 := SwapBytes32(0x2106c0de)

  /** The eight bytes that close a valid block: the nitrocode, then the nitrocode reversed. */
  const NitrocodeTrailer: seq<byte> := [0x21, 0x06, 0xc0, 0xde, 0xde, 0xc0, 0x06, 0x21]

  /** The nitrocode's value and bytes, and those of its reversal. */
  lemma {:induction false} NitrocodeWords()
    ensures Nitrocode == 0xdec00621 && SwapBytes32(Nitrocode) == 0x2106c0de
    ensures U32Bytes(Nitrocode) == NitrocodeTrailer[..4]
    ensures U32Bytes(SwapBytes32(Nitrocode)) == NitrocodeTrailer[4..]
  {
    assert U32Bytes(0x2106c0de) == [0xde, 0xc0, 0x06, 0x21];
    assert U32Bytes(0xdec00621) == [0x21, 0x06, 0xc0, 0xde];
  }

  datatype Info = Info(
    autoloadInfosStart: u32,
    autoloadInfosEnd: u32,
    autoloadBlocks: u32,
    bssStart: u32,
    bssEnd: u32,
    compressedCodeEnd: u32,
    sdkVersion: u32,
    nitrocode: u32,
    nitrocodeRev: u32)

  datatype BuildInfoError =
    | DataTooSmall(expectedSize: nat, actualSize: nat)
    | NoNitrocode(expected: u32, actual: u32)

  /** The words of the block, in layout order. */
  function Fields(i: Info): (r: seq<u32>)
    ensures |r| == 9
  {
    [i.autoloadInfosStart, i.autoloadInfosEnd, i.autoloadBlocks, i.bssStart, i.bssEnd,
     i.compressedCodeEnd, i.sdkVersion, i.nitrocode, i.nitrocodeRev]
  }

  function FromFields(ws: seq<u32>): Info
    requires |ws| == 9
  {
    Info(ws[0], ws[1], ws[2], ws[3], ws[4], ws[5], ws[6], ws[7], ws[8])
  }

  function InfoBytes(i: Info): (r: seq<byte>)
    ensures |r| == InfoSize
  {
    WordsBytes(Fields(i))
  }

  /** The block stored at the start of `b`. */
  function ReadInfo(b: seq<byte>): (r: Info)
    requires |b| >= InfoSize
    ensures forall k :: 0 <= k < 9 ==> Fields(r)[k] == ReadU32(b, 4 * k)
  {
    var ws := Words(b[..InfoSize]);
    assert forall k :: 0 <= k < 9 ==> ws[k] == ReadU32(b, 4 * k) by {
      forall k | 0 <= k < 9 ensures ws[k] == ReadU32(b, 4 * k) {
        WordsIndex(b[..InfoSize], k);
        ReadU32In(b, 0, b[..InfoSize], 4 * k);
      }
    }
    FromFields(ws)
  }

  /** A block reads back from its bytes, and 36 bytes are the image of what they read as. */
  lemma {:induction false} InfoRoundTrip(i: Info, b: seq<byte>)
    requires |b| >= InfoSize
    ensures ReadInfo(InfoBytes(i)) == i
    ensures InfoBytes(ReadInfo(b)) == b[..InfoSize]
  {
    var e := InfoBytes(i);
    assert e[..InfoSize] == e;
    WordsOfWordsBytes(Fields(i));
    WordsBytesOfWords(b[..InfoSize]);
    assert Fields(FromFields(Words(b[..InfoSize]))) == Words(b[..InfoSize]);
  }

  /** The first word of the nitrocode pair that is wrong, if any (`check_nitrocode`). */
  function CheckNitrocode(i: Info): (r: Result<(), BuildInfoError>)
    ensures r.Ok? <==> i.nitrocode == Nitrocode && i.nitrocodeRev == SwapBytes32(Nitrocode)
    ensures r.Err? ==> r.error.NoNitrocode? && r.error.expected != r.error.actual
    ensures r.Err? ==> (i.nitrocode != Nitrocode <==> r.error == NoNitrocode(Nitrocode, i.nitrocode))
  {
    if i.nitrocode != Nitrocode then Err(NoNitrocode(Nitrocode, i.nitrocode))
    else if i.nitrocodeRev != SwapBytes32(Nitrocode) then Err(NoNitrocode(SwapBytes32(Nitrocode), i.nitrocodeRev))
    else Ok(())
  }

  /** The nitrocode check on a block read from bytes looks for the trailer 21 06 c0 de de c0 06 21. */
  lemma {:induction false} NitrocodeInBytes(b: seq<byte>)
    requires |b| >= InfoSize
    ensures CheckNitrocode(ReadInfo(b)).Ok? <==> b[28..36] == NitrocodeTrailer
  {
    var i := ReadInfo(b);
    assert i.nitrocode == ReadU32(b, 28) && i.nitrocodeRev == ReadU32(b, 32) by {
      assert Fields(i)[7] == ReadU32(b, 4 * 7) && Fields(i)[8] == ReadU32(b, 4 * 8);
    }
    NitrocodeWords();
    U32RoundTrip(Nitrocode, b, 28);
    U32RoundTrip(SwapBytes32(Nitrocode), b, 32);
    assert b[28..36] == b[28..32] + b[32..36];
  }

  /**
   * `BuildInfo::borrow_from_slice` (and `borrow_from_slice_mut`, which makes
   * the same checks): the block at the start of `data`, provided the data
   * holds 36 bytes and the block ends with the nitrocode pair.
   */
  function BorrowFromSlice(data: seq<byte>): (r: Result<Info, BuildInfoError>)
    ensures (r.Err? && r.error.DataTooSmall?) <==> |data| < InfoSize
    ensures |data| < InfoSize ==> r == Err(DataTooSmall(InfoSize, |data|))
    ensures r.Ok? ==> |data| >= InfoSize && forall k :: 0 <= k < 9 ==> Fields(r.value)[k] == ReadU32(data, 4 * k)
    ensures r.Ok? <==> |data| >= InfoSize && CheckNitrocode(ReadInfo(data)).Ok?
  {
    if |data| < InfoSize then Err(DataTooSmall(InfoSize, |data|))
    else
      var info := ReadInfo(data[..InfoSize]);
      assert info == ReadInfo(data) by {
        forall k | 0 <= k < 9 ensures Fields(info)[k] == Fields(ReadInfo(data))[k] {
          ReadU32In(data, 0, data[..InfoSize], 4 * k);
        }
        assert Fields(info) == Fields(ReadInfo(data));
      }
      var _ :- CheckNitrocode(info);
      Ok(info)
  }

  /** A block with the nitrocode pair, followed by anything, reads back; any other block is refused. */
  lemma {:induction false} BorrowRoundTrip(i: Info, rest: seq<byte>)
    ensures BorrowFromSlice(InfoBytes(i) + rest) == if CheckNitrocode(i).Ok? then Ok(i) else Err(CheckNitrocode(i).error)
  {
    var data := InfoBytes(i) + rest;
    InfoRoundTrip(i, data);
    assert data[..InfoSize] == InfoBytes(i);
  }

  /** `is_compressed`: the code is compressed when its compressed end is recorded. */
  predicate IsCompressed(i: Info) {
    i.compressedCodeEnd != 0
  }
}
