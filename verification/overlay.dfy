/**
 * An overlay of the ARM9 or ARM7 program (lib/src/rom/overlay.rs): the
 * entry of the overlay table it came from, the file holding its code,
 * whether that file is LZ77-compressed now and whether it was in the
 * ROM, and an optional HMAC-SHA1 signature of the file as stored.
 *
 * The raw ROM is given by the parts `parse_arm9` and `parse_arm7` read
 * from it: the file allocation table, the ROM bytes, and the table of
 * overlay signatures the ARM9 program carries (absent when it has none).
 * HMAC-SHA1 under the key the caller holds is a function parameter. Index
 * and slice panics become `OverlayError` values, as elsewhere in the model.
 */
module Overlays {
  import opened Common
  import RawOverlay
  import Fat
  import Lz77
  import Lz77Stream
  import Signature

  type Sig = Signature.Signature

  /** HMAC-SHA1 with a fixed key: a 20-byte signature for every message. */
  type Mac = Signature.Mac

  /** `OverlayInfo`: the table entry's fields, with the flags reduced to the compressed bit. */
  datatype OverlayInfo = OverlayInfo(
    id: u32,
    baseAddress: u32,
    codeSize: u32,
    bssSize: u32,
    ctorStart: u32,
    ctorEnd: u32,
    fileId: u32,
    compressed: bool)

  datatype Overlay = Overlay(
    originallyCompressed: bool,
    info: OverlayInfo,
    signature: Option<Sig>,
    data: seq<byte>)

  datatype OverlayError =
    | NoOverlaySignatures   // a signed overlay, but the ARM9 program has no signature table
    | SignedArm7Overlay     // ARM7 overlays cannot be signed
    | OverlayCompression    // the signature covers the file only as it was stored
    | FileIdOutOfRange      // `fat[file_id]` panics
    | FileOutOfBounds       // the allocation's range is not inside the ROM, and slicing panics
    | OverlayIdOutOfRange   // `s[overlay.id]` panics

  /** `OverlayInfo::new`: the entry's words, and whether its flags mark it compressed. */
  function InfoOf(raw: RawOverlay.Overlay): (r: OverlayInfo)
    ensures r.compressed == RawOverlay.FlagsIsCompressed(raw.flags)
    ensures [r.id, r.baseAddress, r.codeSize, r.bssSize, r.ctorStart, r.ctorEnd, r.fileId]
            == RawOverlay.Fields(raw)[..7]
  {
    OverlayInfo(raw.id, raw.baseAddr, raw.codeSize, raw.bssSize, raw.ctorStart, raw.ctorEnd, raw.fileId,
                RawOverlay.FlagsIsCompressed(raw.flags))
  }

  /** The bytes of the overlay's file: its FAT entry's range of the ROM. */
  function FileData(raw: RawOverlay.Overlay, fat: seq<Fat.FileAlloc>, rom: seq<byte>): (r: Result<seq<byte>, OverlayError>)
    ensures raw.fileId >= |fat| ==> r == Err(FileIdOutOfRange)
    ensures r.Ok? <==> raw.fileId < |fat| && fat[raw.fileId].start <= fat[raw.fileId].end <= |rom|
    ensures r.Ok? ==> r.value == rom[fat[raw.fileId].start..fat[raw.fileId].end]
  {
    if raw.fileId >= |fat| then Err(FileIdOutOfRange)
    else
      var a := fat[raw.fileId];
      if a.start <= a.end <= |rom| then
        var file := Fat.IntoFile(a, rom);
        assert file == rom[a.start..a.end];
        Ok(file)
      else Err(FileOutOfBounds)
  }

  /**
   * `Overlay::parse_arm9`: the file, then for a signed entry its signature,
   * the entry's id-th one of the ARM9 program's table.
   */
  function ParseArm9(raw: RawOverlay.Overlay, fat: seq<Fat.FileAlloc>, rom: seq<byte>, signatures: Option<seq<Sig>>): (r: Result<Overlay, OverlayError>)
    ensures FileData(raw, fat, rom).Err? ==> r == Err(FileData(raw, fat, rom).error)
    ensures FileData(raw, fat, rom).Ok? && RawOverlay.FlagsIsSigned(raw.flags) && signatures.None? ==>
      r == Err(NoOverlaySignatures)
    ensures r.Ok? <==> (FileData(raw, fat, rom).Ok? &&
      (RawOverlay.FlagsIsSigned(raw.flags) ==> signatures.Some? && raw.id < |signatures.value|))
    ensures r.Ok? ==> r.value.info == InfoOf(raw) && r.value.data == FileData(raw, fat, rom).value
    ensures r.Ok? ==> r.value.originallyCompressed == r.value.info.compressed
    ensures r.Ok? ==> (r.value.signature.Some? <==> RawOverlay.FlagsIsSigned(raw.flags))
    ensures r.Ok? && r.value.signature.Some? ==> r.value.signature.value == signatures.value[raw.id]
  {
    match FileData(raw, fat, rom)
    case Err(e) => Err(e)
    case Ok(data) =>
      var compressed := RawOverlay.FlagsIsCompressed(raw.flags);
      if RawOverlay.FlagsIsSigned(raw.flags) then
        match signatures
        case None => Err(NoOverlaySignatures)
        case Some(s) =>
          if raw.id >= |s| then Err(OverlayIdOutOfRange)
          else Ok(Overlay(compressed, InfoOf(raw), Some(s[raw.id]), data))
      else Ok(Overlay(compressed, InfoOf(raw), None, data))
  }

  /** `Overlay::parse_arm7`: the file; a signed entry is refused. */
  function ParseArm7(raw: RawOverlay.Overlay, fat: seq<Fat.FileAlloc>, rom: seq<byte>): (r: Result<Overlay, OverlayError>)
    ensures FileData(raw, fat, rom).Err? ==> r == Err(FileData(raw, fat, rom).error)
    ensures FileData(raw, fat, rom).Ok? ==>
      (r == Err(SignedArm7Overlay) <==> RawOverlay.FlagsIsSigned(raw.flags))
    ensures r.Ok? ==> r.value.info == InfoOf(raw) && r.value.data == FileData(raw, fat, rom).value
    ensures r.Ok? ==> r.value.originallyCompressed == r.value.info.compressed && r.value.signature.None?
  {
    match FileData(raw, fat, rom)
    case Err(e) => Err(e)
    case Ok(data) =>
      if RawOverlay.FlagsIsSigned(raw.flags) then Err(SignedArm7Overlay)
      else Ok(Overlay(RawOverlay.FlagsIsCompressed(raw.flags), InfoOf(raw), None, data))
  }

  /** An unsigned entry parses the same way for either processor. */
  lemma {:induction false} ParseAgree(raw: RawOverlay.Overlay, fat: seq<Fat.FileAlloc>, rom: seq<byte>, signatures: Option<seq<Sig>>)
    requires !RawOverlay.FlagsIsSigned(raw.flags)
    ensures ParseArm9(raw, fat, rom, signatures) == ParseArm7(raw, fat, rom)
  {
  }

  /** `Overlay::id`: the id cast to a `u16`, keeping its low sixteen bits. */
  function Id(o: Overlay): (r: u16)
    ensures o.info.id < 0x1_0000 ==> r == o.info.id
    ensures r < 0x1_0000 && (o.info.id - r) % 0x1_0000 == 0
  {
    o.info.id % 0x1_0000
  }

  /**
   * `Overlay::end_address`: the base address plus the code and .bss sizes;
   * `None` when the `u32` sum overflows, which panics.
   */
  function EndAddress(o: Overlay): (r: Option<u32>)
    ensures r.Some? <==> o.info.baseAddress + o.info.codeSize + o.info.bssSize < 0x1_0000_0000
    ensures r.Some? ==> r.value >= o.info.baseAddress && r.value - o.info.baseAddress == o.info.codeSize + o.info.bssSize
  {
    var e := o.info.baseAddress + o.info.codeSize + o.info.bssSize;
    if e < 0x1_0000_0000 then Some(e) else None
  }

  /** `Overlay::code`: the first `code_size` bytes of the file; `None` when the file is shorter, which panics. */
  function Code(o: Overlay): (r: Option<seq<byte>>)
    ensures r.Some? <==> o.info.codeSize <= |o.data|
    ensures r.Some? ==> |r.value| == o.info.codeSize && r.value <= o.data
  {
    if o.info.codeSize <= |o.data| then Some(o.data[..o.info.codeSize]) else None
  }

  /** The size field of a compressed overlay's flags holds the file length, which must fit in 24 bits. */
  predicate Buildable(o: Overlay) {
    o.info.compressed ==> |o.data| < 0x100_0000
  }

  /**
   * `Overlay::build`: the table entry. The flags carry the current
   * compressed state, whether a signature is present and, for a
   * compressed overlay, the file length; the id goes through `id`.
   */
  function Build(o: Overlay): (r: RawOverlay.Overlay)
    requires Buildable(o)
    ensures r.id == Id(o)
    ensures RawOverlay.Fields(r)[1..7] == [o.info.baseAddress, o.info.codeSize, o.info.bssSize, o.info.ctorStart, o.info.ctorEnd, o.info.fileId]
    ensures RawOverlay.FlagsIsCompressed(r.flags) == o.info.compressed
    ensures RawOverlay.FlagsIsSigned(r.flags) == o.signature.Some?
    ensures RawOverlay.FlagsSize(r.flags) == (if o.info.compressed then |o.data| else 0)
    ensures RawOverlay.FlagsReserved(r.flags) == 0
  {
    var size := if o.info.compressed then |o.data| else 0;
    var flags := RawOverlay.NewFlags(size, o.info.compressed, o.signature.Some?);
    RawOverlay.Overlay(Id(o), o.info.baseAddress, o.info.codeSize, o.info.bssSize,
                       o.info.ctorStart, o.info.ctorEnd, o.info.fileId, flags)
  }

  /**
   * An entry in the form `build` writes for an overlay whose file is
   * `data`: an id below 2^16, clear reserved bits, and a size field that
   * holds the file length when compressed and zero otherwise.
   */
  predicate InBuildForm(raw: RawOverlay.Overlay, data: seq<byte>) {
    && raw.id < 0x1_0000
    && RawOverlay.FlagsReserved(raw.flags) == 0
    && RawOverlay.FlagsSize(raw.flags) == (if RawOverlay.FlagsIsCompressed(raw.flags) then |data| else 0)
  }

  /** The entry an overlay was parsed from is rebuilt exactly when it is in the form `build` writes. */
  lemma {:induction false} BuildParsed(raw: RawOverlay.Overlay, fat: seq<Fat.FileAlloc>, rom: seq<byte>, signatures: Option<seq<Sig>>)
    requires ParseArm9(raw, fat, rom, signatures).Ok?
    ensures var o := ParseArm9(raw, fat, rom, signatures).value;
      InBuildForm(raw, o.data) <==> Buildable(o) && Build(o) == raw
  {
    var o := ParseArm9(raw, fat, rom, signatures).value;
    var size := if o.info.compressed then |o.data| else 0;
    if InBuildForm(raw, o.data) {
      assert Buildable(o);
      RawOverlay.FlagsDetermined(raw.flags, size, o.info.compressed, o.signature.Some?);
    }
    if Buildable(o) {
      RawOverlay.FlagsDetermined(raw.flags, size, o.info.compressed, o.signature.Some?);
    }
  }

  /** An entry whose id needs more than sixteen bits is rebuilt with the id truncated. */
  lemma {:induction false} BuildTruncatesId()
    ensures var o := Overlay(false, OverlayInfo(0x1_0000, 0, 0, 0, 0, 0, 0, false), None, []);
      Build(o).id == 0
  {
  }

  // ---------------------------------------------------------------------
  // Compression

  /**
   * `Overlay::decompress`: an overlay not compressed is left alone;
   * otherwise its file is replaced by the LZ77 decompression and it is
   * marked decompressed. Nothing else changes.
   */
  function Decompress(o: Overlay): (r: Result<Overlay, Lz77.Lz77Error>)
    ensures !o.info.compressed ==> r == Ok(o)
    ensures o.info.compressed ==> (r.Ok? <==> Lz77.Decompress(o.data).Ok?)
    ensures o.info.compressed && r.Ok? ==> r.value.data == Lz77.Decompress(o.data).value
    ensures r.Ok? ==> !r.value.info.compressed
    ensures r.Ok? ==> r.value.(data := o.data, info := o.info) == o && r.value.info == o.info.(compressed := false)
  {
    if !o.info.compressed then Ok(o)
    else
      match Lz77.Decompress(o.data)
      case Err(e) => Err(e)
      case Ok(d) => Ok(o.(data := d, info := o.info.(compressed := false)))
  }

  /**
   * `Overlay::compress`: an overlay already compressed is left alone;
   * otherwise its file is replaced by `Lz77::compress` with no verbatim
   * prefix, given the token stream and identical-byte count the encoder
   * produced for it, and it is marked compressed. Nothing else changes.
   */
  function Compress(o: Overlay, body: seq<byte>, numIdentical: nat, w: Lz77.Width): (r: Result<Overlay, Lz77.Lz77Error>)
    ensures o.info.compressed ==> r == Ok(o)
    ensures !o.info.compressed ==> (r.Ok? <==> Lz77.Compress(o.data, 0, body, numIdentical, w).Ok?)
    ensures !o.info.compressed && r.Ok? ==> r.value.data == Lz77.Compress(o.data, 0, body, numIdentical, w).value
    ensures r.Ok? ==> r.value.info.compressed
    ensures r.Ok? ==> r.value.(data := o.data, info := o.info) == o && r.value.info == o.info.(compressed := true)
  {
    if o.info.compressed then Ok(o)
    else
      match Lz77.Compress(o.data, 0, body, numIdentical, w)
      case Err(e) => Err(e)
      case Ok(c) => Ok(o.(data := c, info := o.info.(compressed := true)))
  }

  /**
   * Compressing an overlay with a token stream that decodes to its file,
   * back to front, on a 32-bit host, and decompressing the result gives
   * the overlay back.
   */
  lemma {:induction false} CompressRoundTrip(o: Overlay, s: seq<byte>)
    requires !o.info.compressed
    requires Lz77.DecompressBytes(s, |s| - 1, []) == Ok(Reverse(o.data))
    requires Lz77.Compress(o.data, 0, Reverse(s), 0, Lz77.W32).Ok?
    requires |o.data| < 0x1_0000_0000
    requires |s| + Lz77.PaddingLength(|s|) + 8 < 0x100_0000
    ensures Compress(o, Reverse(s), 0, Lz77.W32).Ok?
    ensures Decompress(Compress(o, Reverse(s), 0, Lz77.W32).value) == Ok(o)
  {
    assert o.data[0..] == o.data;
    Lz77Stream.CompressRoundTrip(o.data, 0, s);
  }

  // ---------------------------------------------------------------------
  // Signatures

  /**
   * `Overlay::compute_signature`: the MAC of the file, refused unless the
   * overlay is in the compression state it had in the ROM.
   */
  function ComputeSignature(o: Overlay, mac: Mac): (r: Result<Sig, OverlayError>)
    ensures r.Err? <==> o.info.compressed != o.originallyCompressed
    ensures r.Err? ==> r.error == OverlayCompression
    ensures r.Ok? ==> r.value == mac(o.data) && Signature.Valid(r.value)
  {
    if o.info.compressed != o.originallyCompressed then Err(OverlayCompression)
    else Ok(mac(o.data))
  }

  /**
   * `Overlay::verify_signature`: an unsigned overlay passes; a signed one
   * passes when its signature is the one computed now.
   */
  function VerifySignature(o: Overlay, mac: Mac): (r: Result<bool, OverlayError>)
    ensures o.signature.None? ==> r == Ok(true)
    ensures o.signature.Some? ==> (r.Err? <==> o.info.compressed != o.originallyCompressed)
    ensures r == Ok(true) <==> o.signature.None? || ComputeSignature(o, mac) == Ok(o.signature.value)
  {
    match o.signature
    case None => Ok(true)
    case Some(s) =>
      match ComputeSignature(o, mac)
      case Err(e) => Err(e)
      case Ok(c) => Ok(c == s)
  }

  /** `Overlay::sign`: the computed signature replaces the old one; nothing else changes. */
  function Sign(o: Overlay, mac: Mac): (r: Result<Overlay, OverlayError>)
    ensures r.Ok? <==> o.info.compressed == o.originallyCompressed
    ensures r.Err? ==> r.error == OverlayCompression
    ensures r.Ok? ==> r.value.signature == Some(mac(o.data)) && r.value.(signature := o.signature) == o
  {
    match ComputeSignature(o, mac)
    case Err(e) => Err(e)
    case Ok(s) => Ok(o.(signature := Some(s)))
  }

  /** A signed overlay verifies. */
  lemma {:induction false} SignThenVerify(o: Overlay, mac: Mac)
    requires Sign(o, mac).Ok?
    ensures VerifySignature(Sign(o, mac).value, mac) == Ok(true)
  {
  }

  /**
   * The signature covers the file as the ROM stores it: after the
   * decompression of an overlay stored compressed, computing it fails, and
   * compressing back into its stored form allows it again.
   */
  lemma {:induction false} SignatureNeedsStoredForm(o: Overlay, mac: Mac, s: seq<byte>)
    requires o.originallyCompressed && o.info.compressed && Decompress(o).Ok?
    ensures ComputeSignature(Decompress(o).value, mac) == Err(OverlayCompression)
    ensures var d := Decompress(o).value;
      Compress(d, s, 0, Lz77.W32).Ok? ==> ComputeSignature(Compress(d, s, 0, Lz77.W32).value, mac).Ok?
  {
  }
}
