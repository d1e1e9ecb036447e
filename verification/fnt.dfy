/**
 * The File Name Table (FNT) of a DS ROM: an array of 8-byte directory
 * records, one per directory, followed by one sub-table per directory that
 * lists the directory's immediate children (files and sub-directories).
 * The root record's parent id holds the number of directories instead.
 */
module Fnt {
  import opened Common

  /** Size of one directory record. */
  const DirectorySize: nat := 8

  /** A directory record: where its sub-table starts, the id of its first file, and its parent's id. */
  datatype Directory = Directory(subtableOffset: u32, firstFileId: u16, parentId: u16)

  /** A directory record with its sub-table bytes. */
  datatype Subtable = Subtable(directory: Directory, data: seq<byte>)

  /** An immediate child as the sub-table iterator yields it: a file id, or a directory id from 0xf000 up. */
  datatype FntFile = FntFile(id: u16, name: seq<byte>)

  /**
   * Failures. `InvalidSize` is the reported error; the others are the panics
   * of a debug build: a slice past the end of the data, a name that is not
   * UTF-8, the file-id counter passing 0xffff, the running sub-table offset
   * passing the u32 range.
   */
  datatype FntError = InvalidSize | OutOfBounds | InvalidName | IdOverflow | OffsetOverflow

  // ---------------------------------------------------------------------------
  // Directory records
  // ---------------------------------------------------------------------------

  function DirectoryBytes(d: Directory): (r: seq<byte>)
    ensures |r| == DirectorySize
  {
    U32Bytes(d.subtableOffset) + U16Bytes(d.firstFileId) + U16Bytes(d.parentId)
  }

  function ReadDirectory(s: seq<byte>, at: nat): Directory
    requires at + DirectorySize <= |s|
  {
    Directory(ReadU32(s, at), ReadU16(s, at + 4), ReadU16(s, at + 6))
  }

  /** A record reads back from its own bytes, wherever they sit. */
  lemma {:induction false} DirectoryAt(d: Directory, s: seq<byte>, at: nat)
    requires at + DirectorySize <= |s| && s[at..at + DirectorySize] == DirectoryBytes(d)
    ensures ReadDirectory(s, at) == d
  {
    var o, f, p := U32Bytes(d.subtableOffset), U16Bytes(d.firstFileId), U16Bytes(d.parentId);
    var b := DirectoryBytes(d);
    assert b == o + f + p;
    assert b[0..4] == o;
    assert b[4..6] == f by { assert b[4] == f[0] && b[5] == f[1]; }
    assert b[6..8] == p by { assert b[6] == p[0] && b[7] == p[1]; }
    ReadU32In(s, at, b, 0);
    ReadU16In(s, at, b, 4);
    ReadU16In(s, at, b, 6);
    U32RoundTrip(d.subtableOffset, o, 0);
    U16RoundTrip(d.firstFileId, f, 0);
    U16RoundTrip(d.parentId, p, 0);
    ReadU32Local(b, 0, o, 0);
    ReadU16Local(b, 4, f, 0);
    ReadU16Local(b, 6, p, 0);
  }

  /** The records laid out one after another. */
  function DirsBytes(ds: seq<Directory>): (r: seq<byte>)
    ensures |r| == DirectorySize * |ds|
  {
    if ds == [] then [] else DirectoryBytes(ds[0]) + DirsBytes(ds[1..])
  }

  /** Record `i` occupies bytes `8i..8i + 8`, whatever follows the records. */
  lemma {:induction false} DirsBytesAt(ds: seq<Directory>, t: seq<byte>, i: nat)
    requires i < |ds|
    ensures (DirsBytes(ds) + t)[DirectorySize * i..DirectorySize * i + DirectorySize] == DirectoryBytes(ds[i])
  {
    var s := DirsBytes(ds) + t;
    var head := DirectoryBytes(ds[0]);
    var tail := DirsBytes(ds[1..]) + t;
    assert s == head + tail;
    if i > 0 {
      DirsBytesAt(ds[1..], t, i - 1);
      assert ds[1..][i - 1] == ds[i];
      var a := DirectorySize * (i - 1);
      assert tail[a..a + DirectorySize] == DirectoryBytes(ds[i]);
      assert s[a + DirectorySize..a + 2 * DirectorySize] == tail[a..a + DirectorySize];
    }
  }

  // ---------------------------------------------------------------------------
  // Names
  // ---------------------------------------------------------------------------

  /** A UTF-8 continuation byte. */
  predicate Continuation(b: byte) {
    0x80 <= b <= 0xbf
  }

  /**
   * The length of the well-formed UTF-8 sequence at the head of `s`, or 0
   * when there is none: the table of well-formed byte sequences of section
   * 3.9 of the Unicode Standard (no overlong forms, no surrogates, nothing
   * above U+10FFFF), which is what `str::from_utf8` accepts.
   */
  function Utf8Width(s: seq<byte>): (n: nat)
    requires |s| > 0
    ensures n <= 4 && (n > 0 ==> n <= |s|)
  {
    var b := s[0];
    if b < 0x80 then 1
    else if 0xc2 <= b <= 0xdf then
      if |s| >= 2 && Continuation(s[1]) then 2 else 0
    else if 0xe0 <= b <= 0xef then
      var lo := if b == 0xe0 then 0xa0 else 0x80;
      var hi := if b == 0xed then 0x9f else 0xbf;
      if |s| >= 3 && lo <= s[1] <= hi && Continuation(s[2]) then 3 else 0
    else if 0xf0 <= b <= 0xf4 then
      var lo := if b == 0xf0 then 0x90 else 0x80;
      var hi := if b == 0xf4 then 0x8f else 0xbf;
      if |s| >= 4 && lo <= s[1] <= hi && Continuation(s[2]) && Continuation(s[3]) then 4 else 0
    else 0
  }

  /** Well-formed UTF-8: a run of well-formed sequences. */
  predicate Utf8(s: seq<byte>)
    decreases |s|
  {
    |s| == 0 || (Utf8Width(s) > 0 && Utf8(s[Utf8Width(s)..]))
  }

  /** Every ASCII string is UTF-8. */
  lemma {:induction false} AsciiUtf8(s: seq<byte>)
    requires forall i :: 0 <= i < |s| ==> s[i] < 0x80
    ensures Utf8(s)
  {
    if |s| > 0 {
      assert Utf8Width(s) == 1;
      AsciiUtf8(s[1..]);
    }
  }

  /** A byte at or above 0x80 on its own is never UTF-8. */
  lemma {:induction false} LoneHighByte(b: byte)
    requires b >= 0x80
    ensures !Utf8([b])
  {
  }

  // ---------------------------------------------------------------------------
  // Sub-table iteration
  // ---------------------------------------------------------------------------

  /** The iterator state: the unread sub-table bytes and the id the next file gets. */
  datatype Iter = Iter(data: seq<byte>, id: u16)

  /** One yielded entry and the iterator state after it. */
  datatype Step = Step(file: FntFile, next: Iter)

  /**
   * One call of the sub-table iterator. It stops at the end of the data or at
   * a 0 header byte. Otherwise the header's low 7 bits give the name length
   * and bit 7 marks a sub-directory, whose 2-byte little-endian id follows
   * the name; a file takes the running id instead, which then advances.
   */
  function Next(it: Iter): (r: Result<Option<Step>, FntError>)
    ensures r.Ok? && r.value.Some? ==> |r.value.value.next.data| < |it.data|
    ensures r.Ok? && r.value.None? <==> |it.data| == 0 || it.data[0] == 0
  {
    if |it.data| == 0 || it.data[0] == 0 then Ok(None)
    else
      var length := it.data[0] % 0x80;
      var subdir := it.data[0] >= 0x80;
      var rest := it.data[1..];
      if length > |rest| then Err(OutOfBounds)
      else if !Utf8(rest[..length]) then Err(InvalidName)
      else
        var after := rest[length..];
        if subdir then
          if |after| < 2 then Err(OutOfBounds)
          else Ok(Some(Step(FntFile(ReadU16(after, 0), rest[..length]), Iter(after[2..], it.id))))
        else if it.id == 0xffff then Err(IdOverflow)
        else Ok(Some(Step(FntFile(it.id, rest[..length]), Iter(after, it.id + 1))))
  }

  /** Everything the iterator yields until it stops, or the first failure. */
  function Entries(it: Iter): Result<seq<FntFile>, FntError>
    decreases |it.data|
  {
    var step :- Next(it);
    match step
    case None => Ok([])
    case Some(Step(f, next)) =>
      var rest :- Entries(next);
      Ok([f] + rest)
  }

  /** The iterator over a sub-table starts at its data with the directory's first file id. */
  function Iterate(sub: Subtable): Iter {
    Iter(sub.data, sub.directory.firstFileId)
  }

  // ---------------------------------------------------------------------------
  // Entry encoding: the independent description of a sub-table
  // ---------------------------------------------------------------------------

  /** A sub-table entry before it is written: a file, or a sub-directory with its directory id. */
  datatype Entry = FileEntry(name: seq<byte>) | DirEntry(name: seq<byte>, dirId: u16)

  /** An entry that can be written: a UTF-8 name shorter than 128 bytes, non-empty for a file (a 0 header ends the table). */
  predicate Encodable(e: Entry) {
    |e.name| < 0x80 && Utf8(e.name) && (e.FileEntry? ==> |e.name| > 0)
  }

  function EntryBytes(e: Entry): seq<byte>
    requires Encodable(e)
  {
    match e
    case FileEntry(name) => [|name|] + name
    case DirEntry(name, dirId) => [0x80 + |name|] + name + U16Bytes(dirId)
  }

  function EntriesBytes(es: seq<Entry>): seq<byte>
    requires forall i :: 0 <= i < |es| ==> Encodable(es[i])
  {
    if es == [] then [] else EntryBytes(es[0]) + EntriesBytes(es[1..])
  }

  function FileCount(es: seq<Entry>): nat {
    if es == [] then 0 else (if es[0].FileEntry? then 1 else 0) + FileCount(es[1..])
  }

  /** The entries as the iterator reports them: files numbered consecutively from `id`, directories with their own ids. */
  function Numbered(es: seq<Entry>, id: u16): (r: seq<FntFile>)
    requires id + FileCount(es) <= 0xffff
    ensures |r| == |es|
  {
    if es == [] then []
    else match es[0]
      case FileEntry(name) => [FntFile(id, name)] + Numbered(es[1..], id + 1)
      case DirEntry(name, dirId) => [FntFile(dirId, name)] + Numbered(es[1..], id)
  }

  /** Reading one written file entry yields it with the running id and advances the id. */
  lemma {:induction false} NextFile(name: seq<byte>, rest: seq<byte>, id: u16)
    requires Encodable(FileEntry(name)) && id < 0xffff
    ensures Next(Iter(EntryBytes(FileEntry(name)) + rest, id)) == Ok(Some(Step(FntFile(id, name), Iter(rest, id + 1))))
  {
    var s := EntryBytes(FileEntry(name)) + rest;
    var n := |name|;
    assert s[0] == n && s[0] % 0x80 == n && s[0] < 0x80;
    var r := s[1..];
    assert r == name + rest;
    assert r[..n] == name && r[n..] == rest;
  }

  /** Reading one written sub-directory entry yields its name and directory id and keeps the running id. */
  lemma {:induction false} NextDir(name: seq<byte>, dirId: u16, rest: seq<byte>, id: u16)
    requires Encodable(DirEntry(name, dirId))
    ensures Next(Iter(EntryBytes(DirEntry(name, dirId)) + rest, id)) == Ok(Some(Step(FntFile(dirId, name), Iter(rest, id))))
  {
    var n := |name|;
    var w := U16Bytes(dirId);
    var s := EntryBytes(DirEntry(name, dirId)) + rest;
    var after := w + rest;
    HeadSplit(0x80 + n, name, after);
    assert s == [0x80 + n] + name + after;
    assert s[0] % 0x80 == n && s[0] >= 0x80;
    var r := s[1..];
    assert r[..n] == name && r[n..] == after;
    assert Utf8(r[..n]);
    assert after[2..] == rest;
    U16RoundTrip(dirId, after, 0);
    ReadU16Local(after, 0, w, 0);
  }

  /** A header byte, a name and what follows, read apart again. */
  lemma {:induction false} HeadSplit(h: byte, name: seq<byte>, after: seq<byte>)
    ensures var s := [h] + name + after;
      s[0] == h && s[1..][..|name|] == name && s[1..][|name|..] == after
  {
    var s := [h] + name + after;
    assert s[1..] == name + after;
  }

  /** Iterating a written run of entries, ended by a 0 byte, yields exactly those entries. */
  lemma {:induction false} EntriesRoundTrip(es: seq<Entry>, t: seq<byte>, id: u16)
    requires forall i :: 0 <= i < |es| ==> Encodable(es[i])
    requires id + FileCount(es) <= 0xffff
    requires |t| > 0 && t[0] == 0
    ensures Entries(Iter(EntriesBytes(es) + t, id)) == Ok(Numbered(es, id))
  {
    if es != [] {
      var e := es[0];
      var id' := if e.FileEntry? then id + 1 else id;
      var rest := EntriesBytes(es[1..]) + t;
      assert EntriesBytes(es) + t == EntryBytes(e) + rest;
      match e {
        case FileEntry(name) => NextFile(name, rest, id);
        case DirEntry(name, dirId) => NextDir(name, dirId, rest, id);
      }
      assert forall i :: 0 <= i < |es| - 1 ==> Encodable(es[1..][i]) by {
        forall i | 0 <= i < |es| - 1 ensures Encodable(es[1..][i]) {
          assert es[1..][i] == es[i + 1];
        }
      }
      EntriesRoundTrip(es[1..], t, id');
    }
  }

  // ---------------------------------------------------------------------------
  // What follows a sub-table does not matter
  // ---------------------------------------------------------------------------

  /** A successful step reads the same entry when more bytes follow, and leaves them unread. */
  lemma {:induction false} NextExtend(it: Iter, t: seq<byte>)
    requires Next(it).Ok? && Next(it).value.Some?
    ensures var st := Next(it).value.value;
      Next(Iter(it.data + t, it.id)) == Ok(Some(Step(st.file, Iter(st.next.data + t, st.next.id))))
  {
    var s := it.data + t;
    var length := it.data[0] % 0x80;
    var rest, rest' := it.data[1..], s[1..];
    assert rest' == rest + t;
    assert rest'[..length] == rest[..length];
    var after, after' := rest[length..], rest'[length..];
    assert after' == after + t;
    if it.data[0] >= 0x80 {
      assert after'[2..] == after[2..] + t;
      assert ReadU16(after', 0) == ReadU16(after, 0);
    }
  }

  /** A sub-table that iterates cleanly yields the same entries when a 0 terminator and anything else follow it. */
  lemma {:induction false} EntriesExtend(it: Iter, t: seq<byte>)
    requires Entries(it).Ok?
    requires |t| > 0 && t[0] == 0
    ensures Entries(Iter(it.data + t, it.id)) == Entries(it)
    decreases |it.data|
  {
    var it' := Iter(it.data + t, it.id);
    if |it.data| == 0 || it.data[0] == 0 {
      assert it'.data[0] == 0;
    } else {
      var st := Next(it).value.value;
      NextExtend(it, t);
      EntriesExtend(st.next, t);
    }
  }

  // ---------------------------------------------------------------------------
  // Reading a table
  // ---------------------------------------------------------------------------

  /** The first `k` directory records with their sub-tables; a sub-table offset past the end is a panic. */
  function ParseDirectories(data: seq<byte>, k: nat): (r: Result<seq<Subtable>, FntError>)
    requires DirectorySize * k <= |data|
    ensures r.Ok? <==> forall i :: 0 <= i < k ==> ReadDirectory(data, DirectorySize * i).subtableOffset <= |data|
    ensures r.Ok? ==> |r.value| == k && forall i :: 0 <= i < k ==>
      r.value[i].directory == ReadDirectory(data, DirectorySize * i) &&
      r.value[i].data == data[r.value[i].directory.subtableOffset..]
    ensures r.Err? ==> r.error == OutOfBounds
  {
    if k == 0 then Ok([])
    else
      var prev :- ParseDirectories(data, k - 1);
      var d := ReadDirectory(data, DirectorySize * (k - 1));
      if d.subtableOffset > |data| then Err(OutOfBounds)
      else Ok(prev + [Subtable(d, data[d.subtableOffset..])])
  }

  /**
   * `Fnt::borrow_from_slice`: at least one record is required; the root
   * record's parent id is the directory count; each sub-table runs from its
   * offset to the end of the data (iteration stops at its 0 terminator).
   */
  function BorrowFromSlice(data: seq<byte>): (r: Result<seq<Subtable>, FntError>)
    ensures r == Err(InvalidSize) <==> |data| < DirectorySize
    ensures r.Ok? ==> |r.value| == ReadU16(data, 6) && DirectorySize * |r.value| <= |data|
    ensures r.Ok? ==> forall i :: 0 <= i < |r.value| ==> r.value[i].directory == ReadDirectory(data, DirectorySize * i)
  {
    if |data| < DirectorySize then Err(InvalidSize)
    else
      var numDirs := ReadU16(data, 6);
      if DirectorySize * numDirs > |data| then Err(OutOfBounds)
      else ParseDirectories(data, numDirs)
  }

  // ---------------------------------------------------------------------------
  // Building a table
  // ---------------------------------------------------------------------------

  /** The bytes all sub-tables take once each gets its 0 terminator. */
  function TableSize(subs: seq<Subtable>): nat {
    if subs == [] then 0 else |subs[0].data| + 1 + TableSize(subs[1..])
  }

  /** The sub-table area: each sub-table's data followed by a 0 byte. */
  function Terminated(subs: seq<Subtable>): (r: seq<byte>)
    ensures |r| == TableSize(subs)
  {
    if subs == [] then [] else subs[0].data + [0] + Terminated(subs[1..])
  }

  /**
   * The offsets the record loop of `build` hands out: each record gets the
   * running offset, which then advances by the (u32-truncated) data length
   * plus the terminator; passing the u32 range is a panic.
   */
  function Offsets(subs: seq<Subtable>, offset: u32): (r: Result<seq<u32>, FntError>)
    ensures r.Ok? ==> |r.value| == |subs|
  {
    if subs == [] then Ok([])
    else
      var next := offset + |subs[0].data| % 0x1_0000_0000 + 1;
      if next >= 0x1_0000_0000 then Err(OffsetOverflow)
      else
        var rest :- Offsets(subs[1..], next);
        Ok([offset] + rest)
  }

  /** The records with their offsets filled in. */
  function Placed(subs: seq<Subtable>, offsets: seq<u32>): (r: seq<Directory>)
    requires |offsets| == |subs|
    ensures |r| == |subs|
  {
    seq(|subs|, i requires 0 <= i < |subs| => subs[i].directory.(subtableOffset := offsets[i]))
  }

  /** No single sub-table is too long for its length to survive the cast to u32. */
  predicate Narrow(subs: seq<Subtable>) {
    forall i :: 0 <= i < |subs| ==> |subs[i].data| < 0x1_0000_0000
  }

  /** The loop fails exactly when the end of the sub-table area would pass the u32 range. */
  lemma {:induction false} OffsetsOk(subs: seq<Subtable>, offset: u32)
    requires Narrow(subs)
    ensures Offsets(subs, offset).Ok? <==> offset + TableSize(subs) < 0x1_0000_0000
  {
    if subs != [] {
      var next := offset + |subs[0].data| + 1;
      if next < 0x1_0000_0000 {
        NarrowTail(subs);
        OffsetsOk(subs[1..], next);
      }
    }
  }

  lemma {:induction false} NarrowTail(subs: seq<Subtable>)
    requires Narrow(subs) && subs != []
    ensures Narrow(subs[1..])
  {
    forall i | 0 <= i < |subs| - 1 ensures |subs[1..][i].data| < 0x1_0000_0000 {
      assert subs[1..][i] == subs[i + 1];
    }
  }

  /** Record `i` gets the starting offset plus the space of the sub-tables before it. */
  lemma {:induction false} OffsetsAt(subs: seq<Subtable>, offset: u32, i: nat)
    requires Narrow(subs) && Offsets(subs, offset).Ok? && i < |subs|
    ensures Offsets(subs, offset).value[i] == offset + TableSize(subs[..i])
  {
    if i > 0 {
      var next := offset + |subs[0].data| + 1;
      NarrowTail(subs);
      OffsetsAt(subs[1..], next, i - 1);
      assert subs[1..][..i - 1] == subs[..i][1..];
      assert Offsets(subs, offset).value[i] == Offsets(subs[1..], next).value[i - 1];
    }
  }

  /** The input with the root's parent id replaced by the (u16-truncated) directory count. */
  function WithCount(subs: seq<Subtable>): (r: seq<Subtable>)
    ensures |r| == |subs|
  {
    if subs == [] then subs
    else subs[0 := Subtable(subs[0].directory.(parentId := |subs| % 0x1_0000), subs[0].data)]
  }

  /**
   * `Fnt::build`: the records, with the root's parent id set to the
   * directory count and the offsets laid out from `8n`, then each
   * sub-table's data with a 0 terminator.
   */
  function Build(subs: seq<Subtable>): (r: Result<seq<byte>, FntError>)
    ensures r.Ok? ==> |r.value| == DirectorySize * |subs| + TableSize(subs)
  {
    var offsets :- Offsets(WithCount(subs), (DirectorySize * |subs|) % 0x1_0000_0000);
    Ok(DirsBytes(Placed(WithCount(subs), offsets)) + Terminated(subs))
  }

  /** The data lengths alone decide whether the table fits. */
  lemma {:induction false} TableSizeData(a: seq<Subtable>, b: seq<Subtable>)
    requires |a| == |b| && forall i :: 0 <= i < |a| ==> a[i].data == b[i].data
    ensures TableSize(a) == TableSize(b)
  {
    if a != [] {
      TableSizeData(a[1..], b[1..]);
    }
  }

  /** Setting the count touches no sub-table data. */
  lemma {:induction false} WithCountData(subs: seq<Subtable>)
    ensures forall i :: 0 <= i < |subs| ==> WithCount(subs)[i].data == subs[i].data
    ensures TableSize(WithCount(subs)) == TableSize(subs)
    ensures Narrow(subs) ==> Narrow(WithCount(subs))
  {
    TableSizeData(WithCount(subs), subs);
  }

  /** The root record carries the count, which fits its u16 field. */
  lemma {:induction false} WithCountRoot(subs: seq<Subtable>)
    requires 1 <= |subs| < 0x1_0000
    ensures WithCount(subs)[0].directory.parentId == |subs|
  {
    ModBelow(|subs|, 0x1_0000);
  }

  /** Building fails exactly when the records and sub-tables would not fit below 4 GiB (for lengths that survive the u32 cast). */
  lemma {:induction false} BuildOk(subs: seq<Subtable>)
    requires Narrow(subs) && DirectorySize * |subs| < 0x1_0000_0000
    ensures Build(subs).Ok? <==> DirectorySize * |subs| + TableSize(subs) < 0x1_0000_0000
  {
    WithCountData(subs);
    OffsetsOk(WithCount(subs), DirectorySize * |subs|);
  }

  /** The sub-table area from sub-table `i` on. */
  lemma {:induction false} TerminatedFrom(subs: seq<Subtable>, i: nat)
    requires i <= |subs|
    ensures TableSize(subs[..i]) <= TableSize(subs)
    ensures Terminated(subs)[TableSize(subs[..i])..] == Terminated(subs[i..])
  {
    if i > 0 {
      TerminatedFrom(subs[1..], i - 1);
      assert subs[1..][..i - 1] == subs[..i][1..];
      assert subs[1..][i - 1..] == subs[i..];
      var head := subs[0].data + [0];
      assert Terminated(subs) == head + Terminated(subs[1..]);
      assert TableSize(subs[..i]) == |head| + TableSize(subs[1..][..i - 1]);
    }
  }

  /** What parsing a built table finds at record `i`. */
  predicate BuiltRecord(subs: seq<Subtable>, parsed: seq<Subtable>, i: nat)
    requires i < |subs| && i < |parsed|
  {
    parsed[i].directory.firstFileId == subs[i].directory.firstFileId &&
    parsed[i].directory.parentId == (if i == 0 then |subs| else subs[i].directory.parentId) &&
    parsed[i].directory.subtableOffset == DirectorySize * |subs| + TableSize(subs[..i]) &&
    parsed[i].data == Terminated(subs[i..])
  }

  /** One record of a built table, read back. */
  lemma {:induction false} BuiltRecordAt(subs: seq<Subtable>, offsets: seq<u32>, built: seq<byte>, i: nat)
    requires 1 <= |subs| < 0x1_0000 && Narrow(subs) && i < |subs|
    requires Offsets(WithCount(subs), DirectorySize * |subs|) == Ok(offsets)
    requires built == DirsBytes(Placed(WithCount(subs), offsets)) + Terminated(subs)
    ensures ReadDirectory(built, DirectorySize * i) == Placed(WithCount(subs), offsets)[i]
    ensures offsets[i] == DirectorySize * |subs| + TableSize(subs[..i])
  {
    var w := WithCount(subs);
    var dirs := Placed(w, offsets);
    DirsBytesAt(dirs, Terminated(subs), i);
    DirectoryAt(dirs[i], built, DirectorySize * i);
    WithCountData(subs);
    OffsetsAt(w, DirectorySize * |subs|, i);
    assert |w[..i]| == |subs[..i]|;
    TableSizeData(w[..i], subs[..i]);
  }

  /** The sub-table data of record `i` of a built table. */
  lemma {:induction false} BuiltData(subs: seq<Subtable>, dirs: seq<Directory>, built: seq<byte>, i: nat, offset: nat)
    requires i < |subs| && |dirs| == |subs|
    requires built == DirsBytes(dirs) + Terminated(subs)
    requires offset == DirectorySize * |subs| + TableSize(subs[..i])
    ensures offset <= |built| && built[offset..] == Terminated(subs[i..])
  {
    TerminatedFrom(subs, i);
  }

  /** A table that fits has no sub-table too long for the u32 cast. */
  lemma {:induction false} FitsNarrow(subs: seq<Subtable>)
    requires TableSize(subs) < 0x1_0000_0000
    ensures Narrow(subs)
  {
    forall i | 0 <= i < |subs| ensures |subs[i].data| < 0x1_0000_0000 {
      TableSizeLower(subs, i);
    }
  }

  /**
   * Parsing a built table gives back one record per input sub-table, with
   * the root's parent id holding the count, increasing offsets starting at
   * `8n`, and each sub-table's data at the start of its slice.
   */
  lemma {:induction false} ParseBuild(subs: seq<Subtable>)
    requires 1 <= |subs| < 0x1_0000
    requires DirectorySize * |subs| + TableSize(subs) < 0x1_0000_0000
    ensures Build(subs).Ok?
    ensures var p := BorrowFromSlice(Build(subs).value);
      p.Ok? && |p.value| == |subs| && forall i :: 0 <= i < |subs| ==> BuiltRecord(subs, p.value, i)
  {
    var n := |subs|;
    var offsets, built := BuiltTable(subs);
    var dirs := Placed(WithCount(subs), offsets);
    BuiltOffsetsFit(subs, offsets, built);
    var p := ParseDirectories(built, n);
    assert BorrowFromSlice(built) == p;
    forall i | 0 <= i < n ensures BuiltRecord(subs, p.value, i) {
      BuiltRecordAt(subs, offsets, built, i);
      BuiltData(subs, dirs, built, i, offsets[i]);
    }
  }

  /** The offsets and bytes `build` produces for a table that fits. */
  lemma {:induction false} BuiltTable(subs: seq<Subtable>) returns (offsets: seq<u32>, built: seq<byte>)
    requires 1 <= |subs| < 0x1_0000
    requires DirectorySize * |subs| + TableSize(subs) < 0x1_0000_0000
    ensures Narrow(subs)
    ensures Offsets(WithCount(subs), DirectorySize * |subs|) == Ok(offsets)
    ensures built == DirsBytes(Placed(WithCount(subs), offsets)) + Terminated(subs)
    ensures Build(subs) == Ok(built)
  {
    var w := WithCount(subs);
    FitsNarrow(subs);
    WithCountData(subs);
    ModBelow(DirectorySize * |subs|, 0x1_0000_0000);
    OffsetsOk(w, DirectorySize * |subs|);
    offsets := Offsets(w, DirectorySize * |subs|).value;
    built := DirsBytes(Placed(w, offsets)) + Terminated(subs);
  }

  /** A built table holds its count at byte 6 and no sub-table offset past its end. */
  lemma {:induction false} BuiltOffsetsFit(subs: seq<Subtable>, offsets: seq<u32>, built: seq<byte>)
    requires 1 <= |subs| < 0x1_0000 && Narrow(subs)
    requires Offsets(WithCount(subs), DirectorySize * |subs|) == Ok(offsets)
    requires built == DirsBytes(Placed(WithCount(subs), offsets)) + Terminated(subs)
    ensures DirectorySize * |subs| <= |built| && ReadU16(built, 6) == |subs|
    ensures forall i :: 0 <= i < |subs| ==> ReadDirectory(built, DirectorySize * i).subtableOffset <= |built|
  {
    BuiltCount(subs, offsets, built);
    forall i | 0 <= i < |subs|
      ensures ReadDirectory(built, DirectorySize * i).subtableOffset <= |built|
    {
      BuiltOffsetFits(subs, offsets, built, i);
    }
  }

  /** The root record of a built table holds the directory count as its parent id. */
  lemma {:induction false} BuiltCount(subs: seq<Subtable>, offsets: seq<u32>, built: seq<byte>)
    requires 1 <= |subs| < 0x1_0000 && Narrow(subs)
    requires Offsets(WithCount(subs), DirectorySize * |subs|) == Ok(offsets)
    requires built == DirsBytes(Placed(WithCount(subs), offsets)) + Terminated(subs)
    ensures DirectorySize * |subs| <= |built| && ReadU16(built, 6) == |subs|
  {
    BuiltRecordAt(subs, offsets, built, 0);
    var root := ReadDirectory(built, 0);
    assert root.parentId == ReadU16(built, 6);
    WithCountRoot(subs);
    assert Placed(WithCount(subs), offsets)[0].parentId == |subs|;
  }

  /** The offset of record `i` of a built table is within it. */
  lemma {:induction false} BuiltOffsetFits(subs: seq<Subtable>, offsets: seq<u32>, built: seq<byte>, i: nat)
    requires 1 <= |subs| < 0x1_0000 && Narrow(subs) && i < |subs|
    requires Offsets(WithCount(subs), DirectorySize * |subs|) == Ok(offsets)
    requires built == DirsBytes(Placed(WithCount(subs), offsets)) + Terminated(subs)
    ensures DirectorySize * i + DirectorySize <= |built|
    ensures ReadDirectory(built, DirectorySize * i).subtableOffset <= |built|
  {
    BuiltRecordAt(subs, offsets, built, i);
    TerminatedFrom(subs, i);
    assert |built| == DirectorySize * |subs| + TableSize(subs);
    assert Placed(WithCount(subs), offsets)[i].subtableOffset == offsets[i];
  }

  /** One sub-table's data is no longer than the whole area. */
  lemma {:induction false} TableSizeLower(subs: seq<Subtable>, i: nat)
    requires i < |subs|
    ensures |subs[i].data| < TableSize(subs)
  {
    if i > 0 {
      TableSizeLower(subs[1..], i - 1);
      assert subs[1..][i - 1] == subs[i];
    }
  }

  /**
   * Iterating a sub-table of a parsed, built table yields the same entries
   * as iterating the input sub-table, for every input sub-table that
   * iterates cleanly.
   */
  lemma {:induction false} BuiltEntries(subs: seq<Subtable>, i: nat)
    requires 1 <= |subs| < 0x1_0000
    requires DirectorySize * |subs| + TableSize(subs) < 0x1_0000_0000
    requires i < |subs| && Entries(Iterate(subs[i])).Ok?
    ensures Build(subs).Ok? && BorrowFromSlice(Build(subs).value).Ok?
    ensures |BorrowFromSlice(Build(subs).value).value| == |subs|
    ensures Entries(Iterate(BorrowFromSlice(Build(subs).value).value[i])) == Entries(Iterate(subs[i]))
  {
    ParseBuild(subs);
    var p := BorrowFromSlice(Build(subs).value).value;
    assert BuiltRecord(subs, p, i);
    SameEntries(subs, i, p[i]);
  }

  /** A sub-table whose data is the input's data followed by the terminated rest iterates like the input. */
  lemma {:induction false} SameEntries(subs: seq<Subtable>, i: nat, parsed: Subtable)
    requires i < |subs| && Entries(Iterate(subs[i])).Ok?
    requires parsed.data == Terminated(subs[i..])
    requires parsed.directory.firstFileId == subs[i].directory.firstFileId
    ensures Entries(Iterate(parsed)) == Entries(Iterate(subs[i]))
  {
    var rest := [0] + Terminated(subs[i + 1..]);
    assert subs[i..][1..] == subs[i + 1..];
    assert Terminated(subs[i..]) == subs[i].data + rest;
    EntriesExtend(Iterate(subs[i]), rest);
  }
}
