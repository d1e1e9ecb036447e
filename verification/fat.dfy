/**
 * The File Allocation Table: a flat array of 8-byte records, each giving
 * the start and end offsets of one file's bytes in the ROM image.
 */
module Fat {
  import opened Common

  /** The size of one record. */
  const AllocSize: nat := 8

  datatype FileAlloc = FileAlloc(start: u32, end: u32)

  /** The table's length is not a multiple of the record size. */
  datatype FatError = InvalidSize

  /** The record's bytes: start, then end, both little-endian. */
  function AllocBytes(a: FileAlloc): (r: seq<byte>)
    ensures |r| == AllocSize
  {
    U32Bytes(a.start) + U32Bytes(a.end)
  }

  function ReadAlloc(b: seq<byte>): FileAlloc
    requires |b| == AllocSize
  {
    FileAlloc(ReadU32(b, 0), ReadU32(b, 4))
  }

  /** A record reads back from its bytes, and a block of bytes is the image of what it reads as. */
  lemma {:induction false} AllocRoundTrip(a: FileAlloc, b: seq<byte>)
    requires |b| == AllocSize
    ensures ReadAlloc(AllocBytes(a)) == a
    ensures AllocBytes(ReadAlloc(b)) == b
  {
    var e := AllocBytes(a);
    U32RoundTrip(a.start, b, 0);
    U32RoundTrip(a.end, b, 4);
    ReadU32Local(e, 0, U32Bytes(a.start), 0);
    ReadU32Local(e, 4, U32Bytes(a.end), 0);
    assert b == b[0..4] + b[4..8];
  }

  /** The bytes of a whole table: the records one after another. */
  function TableBytes(allocs: seq<FileAlloc>): (r: seq<byte>)
    ensures |r| == AllocSize * |allocs|
  {
    var blocks := seq(|allocs|, i requires 0 <= i < |allocs| => AllocBytes(allocs[i]));
    ChunksConcat(blocks, AllocSize);
    Concat(blocks)
  }

  /**
   * `FileAlloc::borrow_from_slice`: the table read as records. The length
   * must be a multiple of 8; record `i` holds the words at `8i` and `8i + 4`.
   */
  function BorrowFromSlice(data: seq<byte>): (r: Result<seq<FileAlloc>, FatError>)
    ensures r.Err? <==> |data| % AllocSize != 0
    ensures r.Ok? ==> |r.value| == |data| / AllocSize && AllocSize * |r.value| == |data|
    ensures r.Ok? ==> forall i :: 0 <= i < |r.value| ==>
      r.value[i] == FileAlloc(ReadU32(data, AllocSize * i), ReadU32(data, AllocSize * i + 4))
  {
    if |data| % AllocSize != 0 then Err(InvalidSize)
    else
      var n := |data| / AllocSize;
      var blocks := Chunks(data, AllocSize, n);
      var allocs := seq(n, i requires 0 <= i < n => ReadAlloc(blocks[i]));
      assert forall i :: 0 <= i < n ==>
        allocs[i] == FileAlloc(ReadU32(data, AllocSize * i), ReadU32(data, AllocSize * i + 4)) by {
        forall i | 0 <= i < n
          ensures allocs[i] == FileAlloc(ReadU32(data, AllocSize * i), ReadU32(data, AllocSize * i + 4))
        {
          ChunksAt(data, AllocSize, n, i);
          ReadU32In(data, AllocSize * i, blocks[i], 0);
          ReadU32In(data, AllocSize * i, blocks[i], 4);
        }
      }
      Ok(allocs)
  }

  /** Record `i` of a table's bytes holds the words of entry `i`. */
  lemma {:induction false} TableBytesAt(allocs: seq<FileAlloc>, i: nat)
    requires i < |allocs|
    ensures AllocSize * i + AllocSize <= |TableBytes(allocs)|
    ensures ReadU32(TableBytes(allocs), AllocSize * i) == allocs[i].start
    ensures ReadU32(TableBytes(allocs), AllocSize * i + 4) == allocs[i].end
  {
    var blocks := seq(|allocs|, j requires 0 <= j < |allocs| => AllocBytes(allocs[j]));
    var data := TableBytes(allocs);
    ConcatAt(blocks, AllocSize, i);
    AllocRoundTrip(allocs[i], blocks[i]);
    ReadU32In(data, AllocSize * i, blocks[i], 0);
    ReadU32In(data, AllocSize * i, blocks[i], 4);
  }

  /** Reading the bytes of a table gives the table back. */
  lemma {:induction false} TableRoundTrip(allocs: seq<FileAlloc>)
    ensures BorrowFromSlice(TableBytes(allocs)) == Ok(allocs)
  {
    var n := |allocs|;
    var data := TableBytes(allocs);
    assert |data| % AllocSize == 0 && |data| / AllocSize == n;
    var r := BorrowFromSlice(data).value;
    forall i | 0 <= i < n ensures r[i] == allocs[i] {
      TableBytesAt(allocs, i);
    }
    assert r == allocs;
  }

  /** A table that reads writes back to the same bytes. */
  lemma {:induction false} BytesRoundTrip(data: seq<byte>)
    requires BorrowFromSlice(data).Ok?
    ensures TableBytes(BorrowFromSlice(data).value) == data
  {
    var allocs := BorrowFromSlice(data).value;
    var n := |allocs|;
    var chunks := Chunks(data, AllocSize, n);
    var blocks := seq(n, i requires 0 <= i < n => AllocBytes(allocs[i]));
    forall i | 0 <= i < n ensures blocks[i] == chunks[i] {
      ChunksAt(data, AllocSize, n, i);
      AllocRoundTrip(allocs[i], chunks[i]);
      ReadU32In(data, AllocSize * i, chunks[i], 0);
      ReadU32In(data, AllocSize * i, chunks[i], 4);
    }
    assert blocks == chunks;
    ConcatChunks(data, AllocSize, n);
  }

  /** `FileAlloc::into_file`: the file's bytes, `rom[start..end]`; the slice panics unless `start <= end <= |rom|`. */
  function IntoFile(a: FileAlloc, rom: seq<byte>): (r: seq<byte>)
    requires a.start <= a.end <= |rom|
    ensures |r| == a.end - a.start
    ensures forall i :: 0 <= i < |r| ==> r[i] == rom[a.start + i]
  {
    rom[a.start..a.end]
  }

  /** A record that covers a file placed in an image selects exactly that file. */
  lemma {:induction false} IntoPlacedFile(before: seq<byte>, file: seq<byte>, after: seq<byte>)
    requires |before| + |file| < 0x1_0000_0000
    ensures var rom := before + file + after;
      var a := FileAlloc(|before|, |before| + |file|);
      a.start <= a.end <= |rom| && IntoFile(a, rom) == file
  {
    var rom := before + file + after;
    var r := IntoFile(FileAlloc(|before|, |before| + |file|), rom);
    forall i | 0 <= i < |file| ensures r[i] == file[i] {
      assert rom[|before| + i] == file[i];
    }
  }
}
