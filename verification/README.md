# ds-rom core, modelled in Dafny

This project models the byte-level core of ds-rom, a toolkit that takes
Nintendo DS ROM images apart and puts them back together. The model is
written as pure functions over byte sequences, and proofs are stated about
them. It covers:

- the backwards LZ77 codec: pair codec, match search, token decoder,
  footer, and prefix handling (`lz77.dfy`). A reference token-stream
  encoder is proved inverted by the decoder (`lz77_stream.dfy`);
- the nibble Huffman codec and the diff16 filter (`huffman.dfy`), and the
  header logo codec built on them (`logo.dfy`);
- the file name table, and the file tree parsed from it (`fnt.dfy`,
  `file_tree.dfy`);
- the fixed-record tables and blocks, each with its size and magic checks:
  - the file allocation table (`fat.dfy`);
  - overlay entries and their flag words (`raw_overlay.dfy`, `bitfield.dfy`);
  - autoload infos and blocks (`autoload.dfy`);
  - the build info (`build_info.dfy`);
  - the ARM9 footer (`arm9_footer.dfy`);
  - the multiboot signature (`multiboot_signature.dfy`);
- the header's capacity code and flag displays (`header.dfy`);
- the banner's versioned layout, its build rules and its CRC-16/MODBUS
  slots (`raw_banner.dfy`, `banner.dfy`, `crc16.dfy`);
- overlays and overlay tables: parse, build, compression state, and
  signing (`overlay.dfy`, `raw_overlay_table.dfy`, `overlay_table.dfy`);
- the HMAC-SHA1 signature hex codec and signature tables (`signature.dfy`);
- the Blowfish cipher and the ARM9 secure area (`blowfish.dfy`, `arm9.dfy`);
- the section padding of `Rom::build` (`rom.dfy`).

Shared byte and word helpers live in `common.dfy`.

Several conventions hold throughout:

- Bytes and words are `int` subtypes (`byte`, `u16`, `u32`). Every u32
  wrap-around the source relies on is written out with `%` or an explicit
  range check.
- A Rust panic becomes one of two things. Where the source handles the
  failing input at all, it is an error value. Where the source simply
  indexes or slices, it is a `requires`.
- HMAC-SHA1 is a parameter: any function from bytes to 20-byte hashes
  (the `Signature.Mac` subset type).

## Model

| member | source | states |
|---|---|---|
| SecureArea.IsEncrypted | lib/src/rom/arm9.rs:29-31 | a program counts as enciphered when it is shorter than 8 bytes or does not start with the secure area id |
| SecureArea.Ciphers | lib/src/rom/arm9.rs:41-44 | the Level 2 and Level 3 ciphers are built from the key and game code; this fails exactly when the key is not 0x1048 bytes, with the key-size error |
| SecureArea.OpenArea | lib/src/rom/arm9.rs:38-45 | deciphering the 0x800-byte area (Level 2 on the first block, then Level 3 on all of it) keeps its size |
| SecureArea.SealArea | lib/src/rom/arm9.rs:65-73 | enciphering the area (Level 3 on all of it, then Level 2 on the first block) keeps its size |
| SecureArea.OpenSeal | lib/src/rom/arm9.rs:38-73 | opening and sealing the area undo each other, whatever the two ciphers |
| SecureArea.Decrypt | lib/src/rom/arm9.rs:33-54 | a program under 0x800 bytes gives DataTooSmall(0x800, len); a key of the wrong size gives the Blowfish error; with a key of the right size, NotEncryObj exactly when the deciphered area does not start with "encryObj"; success exactly when the program is long enough, the key is the right size and the area deciphers to "encryObj"; on success only the area changes, and the result starts with the secure area id, so it no longer counts as enciphered |
| SecureArea.Encrypt | lib/src/rom/arm9.rs:56-77 | DataTooSmall for a short program; NotEncryObj exactly when the program does not start with the secure area id; success exactly when the program is long enough, starts with the id and the key is the right size; only the area changes |
| SecureArea.RoundTrip | lib/src/rom/arm9.rs:33-77 | `decrypt` undoes `encrypt` and `encrypt` undoes `decrypt`, whenever the first call succeeds |
| SecureArea.DecryptEncrypted | lib/src/rom/arm9.rs:33-77 | deciphering an enciphered program gives the original back |
| SecureArea.EncryptDecrypted | lib/src/rom/arm9.rs:33-77 | enciphering a deciphered program gives the original back |
| Banners.LanguageAt | lib/src/rom/raw/banner.rs:296-305 | the language whose slot index is `k`, the inverse of the `language as usize` slot numbering |
| Banners.SlotOfTitle | lib/src/rom/raw/banner.rs:111-133 | a byte belongs to the title slot of `l` exactly when it lies in that language's 0x100-byte slot |
| Banners.LoadTitle | lib/src/rom/banner.rs:46-60 | a title is loaded exactly when both the requested version and the banner's own version have the language, and it is the slot's contents |
| Banners.LoadRaw | lib/src/rom/banner.rs:62-79 | the loaded banner keeps the raw version, holds for every language exactly the title the raw banner has, the raw bitmap and palette, and no keyframes |
| Banners.CopyTitle | lib/src/rom/banner.rs:234-241 | the title lands in its slot when the version has one, and every other byte is unchanged |
| Banners.CopyTitles | lib/src/rom/banner.rs:244-258 | after the copies for a list of languages, each byte of a listed, written slot holds the title's byte and every other byte is unchanged |
| Banners.CopyToBanner | lib/src/rom/banner.rs:244-258 | every title the banner has is copied into its slot when the version has one; all other bytes are unchanged |
| Banners.Titled | lib/src/rom/banner.rs:99-100 | a new banner of the version with the titles copied: titles in written slots, zeros past the version word elsewhere |
| Banners.Paint | lib/src/rom/banner.rs:99-103 | after the title copies and the icon stores: the version word, zero CRC slots, and the palette, bitmap and titles at their offsets |
| Banners.Stamp | lib/src/rom/banner.rs:81-87 | for a banner at least version `w`, `w`'s CRC slot gets the CRC-16 of `w`'s range and nothing else changes; for an older banner nothing changes |
| Banners.SameRange | lib/src/rom/banner.rs:85 | two banners that agree past the CRC slots checksum the same bytes for every range |
| Banners.StampEach | lib/src/rom/banner.rs:119-122 | after stamping a list of versions, each listed version up to the banner's own holds its range's CRC, every other slot keeps its value, and nothing past the slots changes |
| Banners.StampAll | lib/src/rom/banner.rs:119-122 | after the four `crc` calls, every version up to the banner's own holds the CRC of its range, later versions' slots are unchanged, nothing past the slots changes |
| Banners.Stamped | lib/src/rom/banner.rs:99-122 | the successful build of a banner is finished: its version, the drawn bytes past the CRC slots, and each CRC slot stamped or zero |
| Banners.AnimationMut | lib/src/rom/raw/banner.rs:146-153 | asking a pre-animation banner for its animation fails with the version error naming the animated version and the banner's own |
| Banners.Build | lib/src/rom/banner.rs:89-125 | `build` fails exactly for a version past Korea (version error) or when keyframes are present (`TooManyKeyframes` above 64, else the animation error, since no accepted version has an animation); otherwise it returns the stamped banner |
| Banners.BuildContents | lib/src/rom/banner.rs:89-125 | a built banner holds the banner's icon and, for every language the version has, the banner's title or zeros where it has none |
| Banners.DrawnIcon | lib/src/rom/banner.rs:102-103 | any raw banner whose bytes past the CRC slots are the drawn ones holds the banner's bitmap and palette |
| Banners.DrawnTitle | lib/src/rom/banner.rs:100 | any raw banner whose bytes past the CRC slots are the drawn ones holds every title `build` writes and zeros in the other title slots |
| Banners.TitleByteAt | lib/src/rom/banner.rs:234-241 | byte `k` of a title slot as built is the title's byte when the title is written and zero otherwise |
| Banners.LoadDrawn | lib/src/rom/banner.rs:62-79 | a drawn banner whose titles match its version reads back, through `load_raw`, as the banner it was drawn from |
| Banners.SameTitles | lib/src/rom/banner.rs:221-232 | two title sets that agree in every language are equal |
| Banners.LoadBuilt | lib/src/rom/banner.rs:62-125 | round trip: for every banner up to Korea without keyframes whose titles match its version, `load_raw(build(b)) == b` |
| Banners.BuildAccepts | lib/src/rom/banner.rs:95-124 | `build` succeeds on every banner up to Korea without keyframes |
| Banners.DrawnReserved | lib/src/rom/banner.rs:99-103 | `build` leaves every reserved byte zero |
| Banners.DrawnLoaded | lib/src/rom/banner.rs:62-103 | past the CRC slots every non-reserved byte of a raw banner is redrawn in place from what `load_raw` read |
| Banners.TitleLoaded | lib/src/rom/banner.rs:46-60 | a title slot the version has is redrawn byte for byte from the loaded title |
| Banners.FinishedByte | lib/src/rom/banner.rs:62-125 | a finished banner agrees past the CRC slots with a raw banner in build form it was loaded from |
| Banners.FinishedIsRaw | lib/src/rom/banner.rs:62-125 | a finished banner equals the raw banner in build form it was loaded from, CRC slots included |
| Banners.SameHead | lib/src/rom/banner.rs:119-122 | two stamped banners of one version that agree past the CRC slots are equal |
| Banners.SameCrc | lib/src/rom/banner.rs:81-87 | two stamped banners of one version that agree past the CRC slots hold the same CRC for every version |
| Banners.FinishedInBuildForm | lib/src/rom/banner.rs:89-125 | every banner `build` finishes, up to Korea, is in build form: stamped CRCs and zero reserved bytes |
| Banners.BuildLoaded | lib/src/rom/banner.rs:62-125 | the other round trip: `build(load_raw(raw)) == Ok(raw)` exactly when `raw` is in build form |
| Crc16.FoldAppend | lib/src/rom/banner.rs:85 | the CRC-16 register after `a + b` is the register after `a` continued over `b` |
| Blowfish.XorLaws | lib/src/crypto/blowfish.rs:38-43 | the `^` the rounds use on `u32` is commutative and associative, and xoring twice with a word restores the original |
| Blowfish.XorCancel | lib/src/crypto/blowfish.rs:60-70 | the step one decryption round takes back: masking `y ^ f` with `f` and then `p` leaves `y ^ p` |
| Blowfish.ByteOf | lib/src/crypto/blowfish.rs:27-30 | each of the four bytes of `x` the round function uses to index an S-box is below 0x100 |
| Blowfish.DecUndoesEnc | lib/src/crypto/blowfish.rs:34-70 | after `k` rounds of `decrypt_block` on an enciphered block, the halves are those of round `16 - k` of `encrypt_block`, masked with that round's subkey |
| Blowfish.EncUndoesDec | lib/src/crypto/blowfish.rs:34-70 | the same in the other order: `encrypt_block` retraces `decrypt_block` round by round |
| Blowfish.BlockRoundTrip | lib/src/crypto/blowfish.rs:34-70 | `decrypt_block` inverts `encrypt_block` and the other way round, for any subkeys and S-boxes |
| Blowfish.MapsUndo | lib/src/crypto/blowfish.rs:34-70 | the block encryption and decryption maps of a cipher undo each other on every pair of halves |
| Blowfish.ChunkThrough | lib/src/crypto/blowfish.rs:50-56 | one chunk, read as little-endian left and right halves and written back the same way, stays 8 bytes |
| Blowfish.ChunkUndo | lib/src/crypto/blowfish.rs:50-82 | a block map that undoes another also undoes it on 8-byte chunks |
| Blowfish.MapChunksAt | lib/src/crypto/blowfish.rs:50 | chunk `k` of the output depends on chunk `k` of the input alone |
| Blowfish.MapChunksInverse | lib/src/crypto/blowfish.rs:50-82 | chunk maps that undo each other chunk by chunk undo each other on whole strings |
| Blowfish.Encrypt | lib/src/crypto/blowfish.rs:46-58 | `encrypt` fails with OddBlockCount exactly when the length is not a multiple of 8, and otherwise keeps the length |
| Blowfish.Decrypt | lib/src/crypto/blowfish.rs:72-84 | `decrypt` fails with OddBlockCount exactly when the length is not a multiple of 8, and otherwise keeps the length |
| Blowfish.ChunksIndependent | lib/src/crypto/blowfish.rs:50-82 | output chunk `k` is `encrypt_block` (or `decrypt_block`) of the two little-endian words of input chunk `k` |
| Blowfish.ChunksRoundTrip | lib/src/crypto/blowfish.rs:46-84 | deciphering enciphered data restores it, and the other way round, for any cipher state |
| Blowfish.RoundTrip | lib/src/crypto/blowfish.rs:46-84 | `decrypt(encrypt(d)) == d` and `encrypt(decrypt(d)) == d` whenever the first call succeeds |
| Blowfish.SboxOfKey | lib/src/crypto/blowfish.rs:8-11 | S-box `b` holds the little-endian words the key stores after the 18 subkeys, 0x100 words per box |
| Blowfish.FromKey | lib/src/crypto/blowfish.rs:111-112 | the state cast from the key: subkey `i` is the little-endian word at `4 * i`, and the S-boxes follow |
| Blowfish.MixSubkeys | lib/src/crypto/blowfish.rs:89-92 | even subkeys are xored with the byte-swapped `code0` and odd ones with the byte-swapped `code1`; the S-boxes are untouched |
| Blowfish.New | lib/src/crypto/blowfish.rs:110-140 | `new` fails exactly when the key is not 0x1048 bytes, with KeySize(0x1048, len) |
| Fat.AllocBytes | lib/src/rom/raw/fat.rs:8-13 | a record is 8 bytes |
| Fat.AllocRoundTrip | lib/src/rom/raw/fat.rs:8-13 | a record reads back from its bytes, and every 8 bytes are the image of the record they read as |
| Fat.TableBytes | lib/src/rom/raw/fat.rs:47-51 | a table takes 8 bytes per record |
| Fat.BorrowFromSlice | lib/src/rom/raw/fat.rs:26-51 | the table is refused with `InvalidSize` exactly when its length is not a multiple of 8; record `i` holds the words at `8i` and `8i + 4` |
| Fat.TableBytesAt | lib/src/rom/raw/fat.rs:47-51 | record `i` of a table's bytes holds the start and end of entry `i` |
| Fat.TableRoundTrip | lib/src/rom/raw/fat.rs:47-51 | reading the bytes of a table gives the table back |
| Fat.BytesRoundTrip | lib/src/rom/raw/fat.rs:47-51 | a table that reads writes back to the same bytes |
| Fat.IntoFile | lib/src/rom/raw/fat.rs:53-55 | `into_file` is the `end - start` bytes of the image from `start` |
| Fat.IntoPlacedFile | lib/src/rom/raw/fat.rs:53-55 | a record covering a file placed in an image selects exactly that file |
| FileTree.Parse | lib/src/rom/file.rs:26-30 | a parsed tree is the root directory 0xf000 named "/", and it parses exactly when sub-table 0 does |
| FileTree.Heads | lib/src/rom/file.rs:16-18 | one iterator entry per parsed entry |
| FileTree.EntriesOrder | lib/src/rom/file.rs:14-24 | a parsed directory lists the iterator's entries, in the iterator's order |
| FileTree.RootEntries | lib/src/rom/file.rs:26-30 | the root lists the entries of sub-table 0, in order |
| FileTree.ChildrenSource | lib/src/rom/file.rs:18-21 | each parsed directory's children come from the sub-table its id less 0xf000 selects; a file has none |
| FileTree.FuelSubtable | lib/src/rom/file.rs:14-24 | more depth does not change a sub-table that already parses |
| FileTree.FuelEntries | lib/src/rom/file.rs:16-23 | more depth does not change a loop that already parses |
| FileTree.FuelIrrelevant | lib/src/rom/file.rs:26-30 | a tree that parses keeps its shape with any larger depth bound: the bound only cuts off cycles |
| FileTree.SelfReferenceNeverParses | lib/src/rom/file.rs:14-24 | a root sub-table whose first entry names the root itself never parses, whatever the depth bound: the source recurses forever on it |
| Fnt.DirectoryBytes | lib/src/rom/raw/fnt.rs:21-31 | a directory record is 8 bytes |
| Fnt.DirectoryAt | lib/src/rom/raw/fnt.rs:21-31 | a record reads back from its own 8 bytes, wherever they sit |
| Fnt.DirsBytes | lib/src/rom/raw/fnt.rs:132-136 | the records take 8 bytes each |
| Fnt.DirsBytesAt | lib/src/rom/raw/fnt.rs:105 | record `i` occupies bytes `8i..8i + 8`, whatever follows the records |
| Fnt.Utf8Width | lib/src/rom/raw/fnt.rs:172 | a well-formed UTF-8 sequence at the head takes 1 to 4 bytes, within the data |
| Fnt.AsciiUtf8 | lib/src/rom/raw/fnt.rs:172 | every ASCII name passes `from_utf8` |
| Fnt.LoneHighByte | lib/src/rom/raw/fnt.rs:172 | a lone byte at or above 0x80 fails `from_utf8` |
| Fnt.Next | lib/src/rom/raw/fnt.rs:163-186 | the iterator stops exactly at the end of the data or at a 0 header byte, and every yielded entry consumes bytes |
| Fnt.Numbered | lib/src/rom/raw/fnt.rs:175-183 | the entries as the iterator reports them, one per entry |
| Fnt.NextFile | lib/src/rom/raw/fnt.rs:163-186 | reading a written file entry yields its name with the running id, which then advances |
| Fnt.NextDir | lib/src/rom/raw/fnt.rs:163-186 | reading a written sub-directory entry yields its name and 2-byte directory id and keeps the running id |
| Fnt.HeadSplit | lib/src/rom/raw/fnt.rs:168-173 | a header byte, a name and what follows are read apart again |
| Fnt.EntriesRoundTrip | lib/src/rom/raw/fnt.rs:160-187 | iterating a written run of entries ended by a 0 byte yields exactly those entries, files numbered from the first id |
| Fnt.NextExtend | lib/src/rom/raw/fnt.rs:163-186 | a successful step reads the same entry when more bytes follow, and leaves them unread |
| Fnt.EntriesExtend | lib/src/rom/raw/fnt.rs:160-187 | a cleanly iterating sub-table yields the same entries when a 0 terminator and anything else follow it |
| Fnt.ParseDirectories | lib/src/rom/raw/fnt.rs:105-111 | the records parse exactly when no sub-table offset passes the end (else the slice panic); each sub-table is its record and the data from its offset |
| Fnt.BorrowFromSlice | lib/src/rom/raw/fnt.rs:93-114 | fewer than 8 bytes is exactly `InvalidSize`; a parsed table has the root's parent id as its record count, and record `i` read from bytes `8i..8i + 8` |
| Fnt.Terminated | lib/src/rom/raw/fnt.rs:138-141 | the sub-table area takes each data length plus one terminator |
| Fnt.Offsets | lib/src/rom/raw/fnt.rs:132-136 | the record loop hands out one offset per sub-table |
| Fnt.Placed | lib/src/rom/raw/fnt.rs:133 | one record per sub-table, with its offset filled in |
| Fnt.OffsetsOk | lib/src/rom/raw/fnt.rs:132-136 | the offset loop panics exactly when the end of the sub-table area would pass the u32 range |
| Fnt.NarrowTail | lib/src/rom/raw/fnt.rs:135 | the u32 cast of lengths stays exact on the rest of the sub-tables |
| Fnt.OffsetsAt | lib/src/rom/raw/fnt.rs:132-136 | record `i` gets the starting offset plus the space of the sub-tables before it |
| Fnt.WithCount | lib/src/rom/raw/fnt.rs:125-130 | setting the root's parent id keeps the number of sub-tables |
| Fnt.Build | lib/src/rom/raw/fnt.rs:121-144 | a built table is the 8-byte records followed by the sub-table area |
| Fnt.TableSizeData | lib/src/rom/raw/fnt.rs:135-141 | the data lengths alone decide the area's size |
| Fnt.WithCountData | lib/src/rom/raw/fnt.rs:125-130 | setting the count touches no sub-table data |
| Fnt.WithCountRoot | lib/src/rom/raw/fnt.rs:125-130 | the root record carries the directory count, which fits its u16 field |
| Fnt.BuildOk | lib/src/rom/raw/fnt.rs:121-144 | `build` panics exactly when the records and sub-tables would not fit below 4 GiB |
| Fnt.TerminatedFrom | lib/src/rom/raw/fnt.rs:138-141 | the area from sub-table `i` on is the terminated rest |
| Fnt.BuiltRecordAt | lib/src/rom/raw/fnt.rs:121-144 | record `i` of a built table reads back with offset `8n` plus the space before it |
| Fnt.BuiltData | lib/src/rom/raw/fnt.rs:121-144 | the data at record `i`'s offset is its sub-table followed by the rest |
| Fnt.FitsNarrow | lib/src/rom/raw/fnt.rs:135 | a table that fits has no data length the u32 cast changes |
| Fnt.ParseBuild | lib/src/rom/raw/fnt.rs:93-144 | parsing a built table gives one record per sub-table, the count in the root, offsets from `8n`, and each sub-table's data at the start of its slice |
| Fnt.BuiltTable | lib/src/rom/raw/fnt.rs:121-144 | the offsets and bytes `build` produces for a table that fits |
| Fnt.BuiltOffsetsFit | lib/src/rom/raw/fnt.rs:104-110 | a built table holds its count at byte 6 and no sub-table offset past its end |
| Fnt.BuiltCount | lib/src/rom/raw/fnt.rs:125-130 | the root record of a built table holds the directory count |
| Fnt.BuiltOffsetFits | lib/src/rom/raw/fnt.rs:109-110 | the offset of record `i` of a built table lies within it |
| Fnt.TableSizeLower | lib/src/rom/raw/fnt.rs:138-141 | one sub-table's data is shorter than the whole area |
| Fnt.BuiltEntries | lib/src/rom/raw/fnt.rs:93-187 | round trip: iterating sub-table `i` of the parsed, built table yields the same entries as the input sub-table |
| Fnt.SameEntries | lib/src/rom/raw/fnt.rs:149-151 | a sub-table whose data is the input's followed by the terminated rest iterates like the input |
| Header.BorrowFromSlice | lib/src/rom/raw/header.rs:130-164 | a header is borrowed exactly when there are at least 0x4000 bytes, else `DataTooSmall` with both sizes; it is the first 0x4000 bytes |
| Header.BitLength | lib/src/rom/raw/header.rs:229 | `32 - leading_zeros` is the least bit count the value fits in |
| Header.FromSize | lib/src/rom/raw/header.rs:228-231 | the capacity `0x20000 << c` exceeds the size, and the next smaller capacity does not |
| Header.BitLengthBelow | lib/src/rom/raw/header.rs:229 | a u32 has at most 32 significant bits |
| Header.FromSizeLeast | lib/src/rom/raw/header.rs:228-231 | `from_size` gives the least code whose capacity exceeds the size |
| Header.FromSizeMonotone | lib/src/rom/raw/header.rs:228-231 | sizes below 128 KiB get code 0, and a larger size never gets a smaller code |
| Header.WrapI32 | lib/src/rom/raw/header.rs:237-238 | an integer wrapped to i32 lies in the i32 range and is unchanged when it already did |
| Header.CapacityDisplay | lib/src/rom/raw/header.rs:234-241 | the display fails (the shift overflows) exactly for codes from 35, and is in kB exactly for codes up to 2 |
| Header.MegaToKilo | lib/src/rom/raw/header.rs:237-238 | `1 << (c - 3)` MB is `128 << c` kB |
| Header.CapacityDisplayDenotes | lib/src/rom/raw/header.rs:234-241 | up to code 33 the display denotes `128 KiB << c`, whichever unit it uses |
| Header.CapacityDisplayWraps | lib/src/rom/raw/header.rs:238 | code 34 displays -2147483648 MB, and every larger code overflows the shift |
| Header.CapacityDisplayWide | lib/src/rom/raw/header.rs:234-241 | the intended display denotes `128 KiB << c` for every code, and is positive |
| Header.CapacityDisplayAgrees | lib/src/rom/raw/header.rs:234-241 | the intended display is the source's wherever the source's does not wrap |
| Header.Selected | lib/src/rom/raw/header.rs:253-263 | only names of the listed flags are selected, at most one per flag |
| Header.WriteFlagsJoin | lib/src/rom/raw/header.rs:253-263 | the `write_flag!` comma state machine writes the names of the set flags joined by ", " |
| Header.SelectedHead | lib/src/rom/raw/header.rs:256-261 | a set first flag puts its name first |
| Header.SelectedSkip | lib/src/rom/raw/header.rs:256 | a clear first flag writes nothing |
| Header.SelectedIff | lib/src/rom/raw/header.rs:253-263 | with distinct names, a flag's name is written exactly when the flag is set |
| Header.JoinHead | lib/src/rom/raw/header.rs:257-260 | a join of non-empty names starts with the first name's first letter |
| Header.WriteNone | lib/src/rom/raw/header.rs:253-263 | with no flag set nothing is written |
| Header.FlagsTextFixed | lib/src/rom/raw/header.rs:266-305 | a flag list never spells the fixed zero text, when no name starts like it |
| Header.DsFlagsBits | lib/src/rom/raw/header.rs:281-290 | `permit_jump`, `permit_tmpjump`, `korea_region` and `china_region` are bits 0, 1, 6 and 7 |
| Header.DsLowBits | lib/src/rom/raw/header.rs:284-285 | the two permit flags are the byte's bits 0 and 1 |
| Header.DsHighBits | lib/src/rom/raw/header.rs:288-289 | the two region flags are the byte's bits 6 and 7 |
| Header.DsFlagsDisplay | lib/src/rom/raw/header.rs:292-305 | "Normal" exactly for the zero byte; otherwise the set flags' names joined by ", ", each flag's name present exactly when it is set |
| Header.DsNames | lib/src/rom/raw/header.rs:298-301 | the DS flag names are distinct and none starts like "Normal" |
| Header.DsFlagsReservedOnly | lib/src/rom/raw/header.rs:292-305 | a nonzero byte with only reserved bits set displays as the empty text |
| Header.DsFlagsKnownDisplay | lib/src/rom/raw/header.rs:292-305 | the intended display is never empty, is "Normal" exactly when no named flag is set, and agrees with the source's except on reserved-only bytes |
| Header.DsiFlagsDisplay | lib/src/rom/raw/header.rs:243-279 | DSi flag `k` is bit `k`; "Normal" exactly for the zero byte; each flag's name is written exactly when it is set |
| Header.DsiNames | lib/src/rom/raw/header.rs:272-275 | the DSi flag names are distinct and none starts like "Normal" |
| Header.OnesPrefix | lib/src/rom/raw/header.rs:243-251 | a layout opening with `k` one-bit fields puts field `k` at bit `k` |
| Header.TotalSnoc | lib/src/rom/raw/header.rs:243-251 | appending a field adds its width to the layout |
| Header.RegionNamesFacts | lib/src/rom/raw/header.rs:396-401 | the region names are distinct and none starts like "None" or "Region free" |
| Header.RegionFlagsDisplay | lib/src/rom/raw/header.rs:376-405 | region `k` is bit `k`; "None" exactly for 0, "Region free" exactly for 0xffffffff, otherwise each region named exactly when set |
| Huffman.CodeBits | lib/src/compress/huffman.rs:14-19 | a code of `length` bits is written as exactly `length` bits |
| Huffman.BitsAt | lib/src/compress/huffman.rs:28-32 | the value of `len` bits read at a position is below 2^len |
| Huffman.Peek | lib/src/compress/huffman.rs:28-33 | the decoder's peek consumes at most the code's length, never past the end, and yields a byte value |
| Huffman.FindCode | lib/src/compress/huffman.rs:23-36 | a found code's index is a nibble at or after the search start, and its bits lie inside the stream |
| Huffman.DecodeNibble | lib/src/compress/huffman.rs:22-39 | `decompress_nibble` yields a nibble and advances within the stream |
| Huffman.DecodeByte | lib/src/compress/huffman.rs:46-50 | an output byte is the high nibble shifted over the low one, read after it |
| Huffman.DecodeBytes | lib/src/compress/huffman.rs:43-51 | the decoder fills exactly the requested number of bytes |
| Huffman.Unpack | lib/src/compress/huffman.rs:44 | the bit reader sees eight bits per input byte |
| Huffman.DecompressToSlice | lib/src/compress/huffman.rs:43-51 | `decompress_to_slice` fills an output of exactly the slice's size |
| Huffman.Nibbles | lib/src/compress/huffman.rs:63-68 | every byte is coded as two nibbles, low first |
| Huffman.PadBits | lib/src/compress/huffman.rs:70 | closing the writer pads the bits with fewer than eight zeros to a whole byte, keeping them in front |
| Huffman.Pack | lib/src/compress/huffman.rs:70-71 | the writer's bytes hold eight bits each |
| Huffman.CompressToSlice | lib/src/compress/huffman.rs:59-74 | the coded bytes overwrite the front of `out`, truncated to its length; the rest of `out` is kept |
| Huffman.ShortBits | lib/src/compress/huffman.rs:30 | at most eight bits fit in the peeked byte |
| Huffman.ShiftLeftZeros | lib/src/compress/huffman.rs:30 | shifting the short peeked value left is appending zero bits, as the missing bits past the end |
| Huffman.ShiftLeftValue | lib/src/compress/huffman.rs:30 | the u8 shift is multiplication by a power of two modulo 256 |
| Huffman.UnpackPack | lib/src/compress/huffman.rs:44-71 | the reader sees exactly the bits the writer packed |
| Huffman.UnpackAppend | lib/src/compress/huffman.rs:44 | the bits of concatenated bytes are the concatenated bits |
| Huffman.BitsAtValue | lib/src/compress/huffman.rs:28-32 | the bits read at a position are the value of that slice of the stream |
| Huffman.PeekWindow | lib/src/compress/huffman.rs:28-33 | the peek compares the next `len` bits, or the remaining bits padded with zeros near the end |
| Huffman.PeekPadded | lib/src/compress/huffman.rs:28-30 | near the end the peek reads the remaining bits, shifted up over zeros |
| Huffman.WindowStarts | lib/src/compress/huffman.rs:28-34 | the peeked window and a code found at the position agree on their common prefix |
| Huffman.PeekMisses | lib/src/compress/huffman.rs:8-9 | with prefix-free codes, a code other than the one the stream starts with never matches the peek |
| Huffman.PeekHits | lib/src/compress/huffman.rs:32-34 | the code the stream starts with matches the peek and consumes its length |
| Huffman.FindCodeOf | lib/src/compress/huffman.rs:23-36 | the search passes every earlier code and stops at the one the stream starts with |
| Huffman.DecodeNibbleOf | lib/src/compress/huffman.rs:22-39 | with prefix-free codes, `decompress_nibble` reads back the nibble whose code comes next |
| Huffman.NibbleFound | lib/src/compress/huffman.rs:36-38 | the reader skips exactly the bits of the code it found |
| Huffman.EncodeByte | lib/src/compress/huffman.rs:63-68 | a byte's bits are the code of its low nibble then of its high nibble, before the rest |
| Huffman.Consecutive | lib/src/compress/huffman.rs:63-68 | three runs written one after another are found at consecutive positions |
| Huffman.ByteFound | lib/src/compress/huffman.rs:46-49 | the byte is `high << 4` ORed with `low` of the two nibbles read in turn |
| Huffman.BytesFound | lib/src/compress/huffman.rs:46-50 | bytes decoded one after another fill the output in order |
| Huffman.DecodeByteOf | lib/src/compress/huffman.rs:46-50 | with prefix-free codes, the decoder reads back the byte whose two codes come next |
| Huffman.DecodeFirst | lib/src/compress/huffman.rs:46-68 | the first byte of coded bytes decodes, and the codes of the rest follow |
| Huffman.DecodeEncoded | lib/src/compress/huffman.rs:43-68 | with prefix-free codes, decoding the codes of some bytes gives those bytes |
| Huffman.CompressRoundTrip | lib/src/compress/huffman.rs:41-74 | round trip: with prefix-free codes and room in `out`, `decompress_to_slice(compress_to_slice(bytes))` gives `bytes` back |
| Huffman.PrefixValue | lib/src/compress/huffman.rs:14-19 | the first `m` bits of a code are its value shifted right by the rest |
| Huffman.SeparatedPrefixFree | lib/src/compress/huffman.rs:8-9 | codes whose leading bits never equal another code's value are prefix-free |
| Huffman.Diff | lib/src/compress/huffman.rs:102-111 | the differences keep the number of words |
| Huffman.Undiff | lib/src/compress/huffman.rs:82-91 | the running sums keep the number of words |
| Huffman.UndiffDiff | lib/src/compress/huffman.rs:82-111 | wrapping running sums undo wrapping differences |
| Huffman.DiffUndiff | lib/src/compress/huffman.rs:82-111 | wrapping differences undo wrapping running sums |
| Huffman.DataToDiff16 | lib/src/compress/huffman.rs:102-111 | `data_to_diff16` accepts exactly even lengths (else the assertion panic) and keeps the length |
| Huffman.Diff16ToData | lib/src/compress/huffman.rs:82-91 | `diff16_to_data` accepts exactly even lengths (else the assertion panic) and keeps the length |
| Huffman.Diff16RoundTrip | lib/src/compress/huffman.rs:76-111 | `diff16_to_data(data_to_diff16(d)) == d` for every even-length `d` |
| Huffman.Diff16InverseRoundTrip | lib/src/compress/huffman.rs:76-111 | `data_to_diff16(diff16_to_data(d)) == d` for every even-length `d` |
| Huffman.DiffHead | lib/src/compress/huffman.rs:104-109 | the first difference is the first word, as `prev` starts at zero |
| Huffman.DiffKeepsFirst | lib/src/compress/huffman.rs:93-110 | `data_to_diff16` keeps the first word's bytes |
| Logo.Blank | lib/src/rom/logo.rs:40-44 | the default logo is a bitmap of `SIZE` bytes, every pixel clear |
| Logo.SetBit | lib/src/rom/logo.rs:210-212 | the masked store sets bit `k` to the value and keeps the other seven bits |
| Logo.BitsDetermine | lib/src/rom/logo.rs:210-212 | a byte is determined by its eight bits |
| Logo.ZeroBits | lib/src/rom/logo.rs:40-44 | no bit of a zero byte is set |
| Logo.SetPixel | lib/src/rom/logo.rs:207-214 | `set_pixel` keeps the bitmap's size |
| Logo.GetPixelAt | lib/src/rom/logo.rs:197-205 | `get_pixel(x, y)` is the pixel at position `y * WIDTH + x` of the bitmap read row by row |
| Logo.RowAligned | lib/src/rom/logo.rs:198-202 | a row is 13 whole bytes, so a pixel's bit place depends on its column alone |
| Logo.SetPixelSame | lib/src/rom/logo.rs:207-214 | inside the bitmap, the pixel `set_pixel` writes reads back as written |
| Logo.SetPixelOther | lib/src/rom/logo.rs:207-214 | `set_pixel` leaves every other pixel unchanged |
| Logo.GetSetPixel | lib/src/rom/logo.rs:197-214 | `get_pixel` reads what `set_pixel` wrote, for a pixel inside the bitmap |
| Logo.PixelOutside | lib/src/rom/logo.rs:197-214 | past the bitmap `get_pixel` is false and `set_pixel` changes nothing |
| Logo.TileAddress | lib/src/rom/logo.rs:172-189 | inside the logo the tile index is below `SIZE`, and distinct pixels have distinct (byte, bit) places in the tiles |
| Logo.LoadUpTo | lib/src/rom/logo.rs:169-182 | every prefix of the `load_tiles` loops yields a bitmap of `SIZE` bytes |
| Logo.LoadTiles | lib/src/rom/logo.rs:169-182 | `load_tiles` into a blank logo yields a bitmap of `SIZE` bytes |
| Logo.StoreStep | lib/src/rom/logo.rs:187-192 | one store keeps the tile buffer's length |
| Logo.StoreUpTo | lib/src/rom/logo.rs:184-195 | every prefix of the `store_tiles` loops keeps the buffer's length |
| Logo.StoreTiles | lib/src/rom/logo.rs:184-195 | `store_tiles` keeps the buffer's length |
| Logo.LoadNone | lib/src/rom/logo.rs:150-151 | before `load_tiles` starts every pixel is clear |
| Logo.LoadStep | lib/src/rom/logo.rs:172-179 | the step for pixel `q` sets that pixel from its tile bit, or false past the data, and no other |
| Logo.LoadUpToPixels | lib/src/rom/logo.rs:169-182 | after `n` steps the first `n` pixels come from the tiles and the rest are clear |
| Logo.StoreStepSame | lib/src/rom/logo.rs:187-192 | the step for (x, y) stores that pixel in its tile bit |
| Logo.StoreStepOther | lib/src/rom/logo.rs:187-192 | the step for (x, y) leaves every other tile bit alone |
| Logo.StoreKeeps | lib/src/rom/logo.rs:184-195 | a later step leaves the tile bit of an earlier pixel alone |
| Logo.StoreUpToBits | lib/src/rom/logo.rs:184-195 | after `n` steps the tile bit of each of the first `n` pixels holds that pixel |
| Logo.TilesRoundTrip | lib/src/rom/logo.rs:169-195 | `load_tiles(store_tiles(logo))` is the logo, whatever the buffer held before |
| Logo.Reverse32 | lib/src/rom/logo.rs:82-88 | `reverse32` keeps the length |
| Logo.SwapGroup | lib/src/rom/logo.rs:83-86 | byte-swapping the little-endian word of a group reverses the group's bytes |
| Logo.Reverse32Index | lib/src/rom/logo.rs:82-88 | each byte of a whole group comes from the mirrored place in its group; the tail past `len & !3` is kept |
| Logo.GroupShift | lib/src/rom/logo.rs:83 | dropping the first group shifts the places, their mirrors and the tail's start down by four |
| Logo.FirstGroup | lib/src/rom/logo.rs:83 | the first group of at least four bytes is whole and mirrors onto itself |
| Logo.MirrorMirror | lib/src/rom/logo.rs:83-86 | mirroring stays among the whole groups and undoes itself |
| Logo.Reverse32Involution | lib/src/rom/logo.rs:82-88 | `reverse32` undoes itself |
| Logo.Decompress | lib/src/rom/logo.rs:118-153 | a decompressed logo is a bitmap of `SIZE` bytes |
| Logo.Framed | lib/src/rom/logo.rs:156-161 | the framed buffer `compress` codes is `SIZE + 8` bytes |
| Logo.Compress | lib/src/rom/logo.rs:155-167 | `compress` always gives `0x9c` bytes |
| Logo.TablePrefixFree | lib/src/rom/logo.rs:7-27 | the fixed table is sixteen valid codes, none a prefix of another |
| Logo.TableSeparated | lib/src/rom/logo.rs:7-27 | no code's value equals the leading bits of another code of the fixed table |
| Logo.DecompressFraming | lib/src/rom/logo.rs:128-141 | a wrong header word is `InvalidHeader` with both words, else a wrong footer word is `InvalidFooter`, else decompression succeeds |
| Logo.NeverWrongSize | lib/src/rom/logo.rs:143-147 | the `WrongSize` error never occurs: the slice between the words is always `SIZE` bytes |
| Logo.FramedParts | lib/src/rom/logo.rs:156-161 | the framed buffer is the header word, the diffed tiles and the footer word |
| Logo.DecompressFramed | lib/src/rom/logo.rs:118-153 | data that decodes to a well-framed image decompresses to the loaded, undiffed tiles |
| Logo.DecodesFramed | lib/src/rom/logo.rs:118-167 | when the coded stream fits in 0x9c bytes, `decompress` decodes exactly the buffer `compress` framed |
| Logo.LogoRoundTrip | lib/src/rom/logo.rs:118-167 | round trip: `decompress(compress(logo)) == logo` for every logo whose coded stream fits in 0x9c bytes |
| Lz77.PairToBytes | lib/src/compress/lz77.rs:24-29 | a pair's token is two bytes: the length less 3 in the top four bits and the distance less 3 in the low twelve, low byte first |
| Lz77.PairFromBytes | lib/src/compress/lz77.rs:31-36 | every two bytes decode to a pair of length 3..18 and distance 3..4098 |
| Lz77.WordPairWord | lib/src/compress/lz77.rs:25-34 | the length and distance fields of a token word do not overlap: packing then unpacking a valid pair gives it back |
| Lz77.PairWordPair | lib/src/compress/lz77.rs:25-34 | every 16-bit word is the packing of the pair it unpacks to |
| Lz77.PairRoundTrip | lib/src/compress/lz77.rs:24-36 | `from_le_bytes(to_le_bytes(p)) == p` for every pair a token can express |
| Lz77.PairBytesRoundTrip | lib/src/compress/lz77.rs:24-36 | `to_le_bytes(from_le_bytes(b)) == b` for every two bytes |
| Lz77.MatchLength | lib/src/compress/lz77.rs:56-63 | the match grows from its start value and never past 18 bytes; reading past the input is the panic error |
| Lz77.SearchFrom | lib/src/compress/lz77.rs:49-70 | the fold over candidate offsets only ever keeps a pair of length at most 18 and distance at most 0xfff |
| Lz77.FindMatch | lib/src/compress/lz77.rs:47-72 | a reported match has length 3..18 and distance at most 0xfff; at the last byte there is none |
| Lz77.ZeroDistanceMatch | lib/src/compress/lz77.rs:47-72 | the search reports a match three bytes on as `Pair(3, 0)` (for `[1, 2, 3, 1, 2, 3, 1, 2]` at 2), a pair no token expresses |
| Lz77.CopyFrom | lib/src/compress/lz77.rs:210-213 | copying a back-reference appends exactly `length` bytes |
| Lz77.CopyFromKeeps | lib/src/compress/lz77.rs:210-213 | copying a back-reference keeps the output produced so far |
| Lz77.TokenStep | lib/src/compress/lz77.rs:201-214 | each token moves the read position down and appends at least one byte |
| Lz77.TokenStepLocal | lib/src/compress/lz77.rs:201-214 | a token reads nothing above its own top byte |
| Lz77.DecompressLocal | lib/src/compress/lz77.rs:194-221 | the decoder's result depends only on the bytes at or below its read position |
| Lz77.DecodeLocal | lib/src/compress/lz77.rs:200-219 | the inner loop's result depends only on the bytes at or below its read position |
| Lz77.UsizeBytes | lib/src/compress/lz77.rs:177 | `usize::to_le_bytes` is four bytes on a 32-bit host and eight on a 64-bit one |
| Lz77.ReadFooter | lib/src/compress/lz77.rs:223-237 | the footer reads exactly when there are eight bytes; the read offset is the fifth byte from the end and the total size below 2^24 |
| Lz77.PaddingLength | lib/src/compress/lz77.rs:166 | the padding is at most three bytes and leaves the length three past a multiple of four |
| Lz77.WriteFooter | lib/src/compress/lz77.rs:159-179 | the frame keeps the compressed bytes, then the 0xff padding, then three total-size bytes, the read offset `padding + 8` and the write offset |
| Lz77.Compress | lib/src/compress/lz77.rs:181-192 | a prefix longer than the input is refused; the frame starts with the verbatim prefix |
| Lz77.ReadFooterOf | lib/src/compress/lz77.rs:223-237 | a footer written with a total size below 2^24 reads back field by field |
| Lz77.U32Top | lib/src/compress/lz77.rs:174-175 | a total size below 2^24 loses nothing when its top byte is dropped |
| Lz77.WriteFooterImage | lib/src/compress/lz77.rs:159-179 | `write_footer` succeeds only when neither subtraction underflows, and its image is the bytes, padding, three size bytes, read offset and host-width write offset |
| Lz77.FooterRoundTrip | lib/src/compress/lz77.rs:159-237 | on a 32-bit host the footer reads back the total size less the identical bytes, the read offset and the write offset |
| Lz77.WideFooterMisread | lib/src/compress/lz77.rs:172-177 | on a 64-bit host the reader takes the write offset for the total size and finds zero read and write offsets |
| Lz77.Decompress | lib/src/compress/lz77.rs:239-252 | fewer than eight bytes is the footer error; a result starts with the `len - total_size` identical bytes copied verbatim |
| Lz77Stream.ApplyAllKeeps | lib/src/compress/lz77.rs:200-214 | replaying tokens only appends to the output |
| Lz77Stream.TokenBytes | lib/src/compress/lz77.rs:201-209 | a literal token is one byte and a pair token two |
| Lz77Stream.WrittenPairBytes | lib/src/compress/lz77.rs:87-88 | the encoder appends a pair's low byte then its high byte to a buffer it later reverses, so the high byte lies below |
| Lz77Stream.WrittenPairMisread | lib/src/compress/lz77.rs:87-88 | the decoder reads the encoder's pair bytes back as the same pair exactly when the two bytes are equal |
| Lz77Stream.WrittenPairExample | lib/src/compress/lz77.rs:207-209 | `Pair(3, 4)` is written as `[0, 1]` and read back as `Pair(3, 259)` |
| Lz77Stream.GroupBody | lib/src/compress/lz77.rs:200-214 | a group's body holds at least one byte per token |
| Lz77Stream.KindList | lib/src/compress/lz77.rs:83-89 | the kind list marks exactly the pair tokens |
| Lz77Stream.Kinds | lib/src/compress/lz77.rs:109-113 | a short last group's kinds are padded to eight with literals, as the encoder shifts its last flags up |
| Lz77Stream.FlagShift | lib/src/compress/lz77.rs:201-218 | shifting a flag byte left brings the next kind to the top bit, which is set exactly for a pair |
| Lz77Stream.FlagByteMatches | lib/src/compress/lz77.rs:83-113 | the flag byte built from a group's kinds tells the decoder each token's kind in order |
| Lz77Stream.GroupLength | lib/src/compress/lz77.rs:97-106 | groups hold eight tokens, except a shorter last one |
| Lz77Stream.Stream | lib/src/compress/lz77.rs:74-116 | the stream is empty exactly when there are no tokens |
| Lz77Stream.LaidPrefix | lib/src/compress/lz77.rs:194-221 | a laid group keeps what lies below it |
| Lz77Stream.LaidBody | lib/src/compress/lz77.rs:194-221 | a group's body sits on what lies below it, first token on top |
| Lz77Stream.DecodeOne | lib/src/compress/lz77.rs:201-214 | decoding the top token of a stream replays it and moves below its bytes |
| Lz77Stream.GroupHead | lib/src/compress/lz77.rs:200-219 | the first token of a laid group decodes, and the rest of the group stays laid with matching flags |
| Lz77Stream.DecodeAfter | lib/src/compress/lz77.rs:200-219 | one step of the inner loop either stops below zero or carries on with the shifted flags |
| Lz77Stream.DecodeGroup | lib/src/compress/lz77.rs:194-221 | decoding a laid group replays its tokens and hands over to the outer loop on what lies below |
| Lz77Stream.DecodeRest | lib/src/compress/lz77.rs:200-219 | the rest of a group below its first token decodes in place |
| Lz77Stream.DecodeLast | lib/src/compress/lz77.rs:215-219 | after a group's last token the decoder stops or moves to the next flag byte |
| Lz77Stream.DecodableSplit | lib/src/compress/lz77.rs:210-213 | replaying `a + b` is replaying `a` and then `b` |
| Lz77Stream.StreamTop | lib/src/compress/lz77.rs:97-113 | a stream is the rest's stream, the first group's body and its flag byte on top |
| Lz77Stream.FlagOnTop | lib/src/compress/lz77.rs:197-200 | the outer loop takes the top byte as the flags of the eight tokens below it |
| Lz77Stream.StreamGroup | lib/src/compress/lz77.rs:194-221 | decoding the first group leaves the decoder at the top of the rest's stream |
| Lz77Stream.StreamSplit | lib/src/compress/lz77.rs:194-221 | the outer loop decodes a stream as its first group followed by the stream of the rest |
| Lz77Stream.EmptyStream | lib/src/compress/lz77.rs:194-197 | an empty stream decodes to nothing |
| Lz77Stream.DecodeStream | lib/src/compress/lz77.rs:194-221 | `decompress_bytes` replays every token of a stream laid out with each pair's low byte below its high byte, in order |
| Lz77Stream.DecompressWith | lib/src/compress/lz77.rs:239-252 | `decompress` is the verbatim prefix followed by the reversed decoding of the token stream |
| Lz77Stream.CompressImage | lib/src/compress/lz77.rs:181-192 | the frame `compress` builds holds the verbatim prefix followed by the body in address order |
| Lz77Stream.FrameFooter | lib/src/compress/lz77.rs:159-237 | the footer of such a frame locates the body exactly on a 32-bit host |
| Lz77Stream.CompressFrame | lib/src/compress/lz77.rs:159-252 | the reader finds the prefix and exactly the body in the frame `compress` builds |
| Lz77Stream.DecompressBody | lib/src/compress/lz77.rs:181-252 | decompressing a frame gives the prefix followed by the reversed decoding of its body |
| Lz77Stream.CompressRoundTrip | lib/src/compress/lz77.rs:181-252 | round trip on a 32-bit host: when the body's tokens replay the input after the prefix, `decompress(compress(bytes)) == bytes` |
| Overlays.InfoOf | lib/src/rom/overlay.rs:305-318 | `OverlayInfo::new` copies the entry's seven words and takes `compressed` from the flags |
| Overlays.FileData | lib/src/rom/overlay.rs:90-93 | the file is the ROM range of the FAT entry `file_id` names; an id past the table or a range outside the ROM is an error, where the source panics |
| Overlays.ParseArm9 | lib/src/rom/overlay.rs:89-110 | the file error comes first; a signed entry without a signature table gives NoOverlaySignatures; on success the info, the file, `originally_compressed` from the flags, and the `id`-th signature exactly when the entry is signed |
| Overlays.ParseArm7 | lib/src/rom/overlay.rs:117-135 | the file error comes first, then a signed entry gives SignedArm7Overlay; on success the info, the file and no signature |
| Overlays.ParseAgree | lib/src/rom/overlay.rs:89-135 | an unsigned entry parses the same way as an ARM9 or an ARM7 overlay |
| Overlays.Id | lib/src/rom/overlay.rs:159-161 | `id as u16` keeps the id when it fits and otherwise its value modulo 2^16 |
| Overlays.EndAddress | lib/src/rom/overlay.rs:169-171 | the base address plus the code and .bss sizes, defined exactly when the `u32` sum does not overflow |
| Overlays.Code | lib/src/rom/overlay.rs:234-236 | the first `code_size` bytes of the file, defined exactly when the file is that long |
| Overlays.Build | lib/src/rom/overlay.rs:138-156 | the entry holds `id()`, the other six words unchanged, the current compressed state, whether a signature is present, the file length as size when compressed (zero otherwise) and clear reserved bits |
| Overlays.BuildParsed | lib/src/rom/overlay.rs:89-156 | the entry an overlay was parsed from is rebuilt exactly when it is in the form `build` writes |
| Overlays.BuildTruncatesId | lib/src/rom/overlay.rs:147 | an overlay with id 0x10000 is rebuilt with id 0 |
| Overlays.Decompress | lib/src/rom/overlay.rs:210-217 | an uncompressed overlay is left alone; otherwise the file becomes its LZ77 decompression and the overlay is marked uncompressed; the error is the decompressor's; nothing else changes |
| Overlays.Compress | lib/src/rom/overlay.rs:224-231 | a compressed overlay is left alone; otherwise the file becomes `Lz77::compress` of it with no verbatim prefix and the overlay is marked compressed; nothing else changes |
| Overlays.CompressRoundTrip | lib/src/rom/overlay.rs:210-231 | compressing with a token stream that decodes to the file, on a 32-bit host, then decompressing gives the overlay back |
| Overlays.ComputeSignature | lib/src/rom/overlay.rs:254-260 | OverlayCompression exactly when the compressed state differs from the original one; otherwise the MAC of the file, a 20-byte hash |
| Overlays.VerifySignature | lib/src/rom/overlay.rs:268-275 | an unsigned overlay passes; a signed one fails to compute when out of its stored state, and passes exactly when the computed signature is the stored one |
| Overlays.Sign | lib/src/rom/overlay.rs:278-281 | signing succeeds exactly when the overlay is in its stored state; the signature becomes the MAC of the file and nothing else changes |
| Overlays.SignThenVerify | lib/src/rom/overlay.rs:268-281 | an overlay just signed verifies |
| Overlays.SignatureNeedsStoredForm | lib/src/rom/overlay.rs:210-260 | after decompressing an overlay stored compressed, computing its signature fails, and compressing it back allows it again |
| OverlayTables.Collect | lib/src/rom/overlay_table.rs:46-47 | `collect` over the parsed entries: success exactly when every entry parses, with the results in order, or else the error of the first entry that fails |
| OverlayTables.ParseArm9 | lib/src/rom/overlay_table.rs:45-50 | the table parses exactly when every entry parses as an ARM9 overlay; then it holds those overlays in order and keeps the signature |
| OverlayTables.ParseArm7 | lib/src/rom/overlay_table.rs:57-62 | the same for ARM7 overlays |
| OverlayTables.ParsedLength | lib/src/rom/overlay_table.rs:31-38 | `len` of a parsed table is the number of raw entries, and `is_empty` holds exactly when there are none |
| OverlayTables.Build | lib/src/rom/overlay_table.rs:65-69 | the raw table holds each overlay's `build`, in order, and the table's signature |
| OverlayTables.BuildParsed | lib/src/rom/overlay_table.rs:45-69 | a table whose entries are in the form `build` writes is rebuilt exactly from its parse |
| OverlayTables.VerifySignature | lib/src/rom/overlay_table.rs:72-79 | an unsigned table passes; a signed one passes exactly when its signature is the one computed over the built table |
| OverlayTables.Sign | lib/src/rom/overlay_table.rs:87-89 | after `sign` the overlays are unchanged, the table is signed, and it verifies |
| OverlayTables.SetSignature | lib/src/rom/overlay_table.rs:97-99 | `set_signature` stores the given signature and leaves the overlays |
| OverlayTables.SetSignatureVerifies | lib/src/rom/overlay_table.rs:72-99 | a set signature verifies exactly when it is the computed one, and setting the computed one is `sign` |
| OverlayTables.VerifyParsed | lib/src/rom/overlay_table.rs:45-79 | on a table read in the form `build` writes, the check agrees with the raw table's check |
| RawBanner.FromU16 | lib/src/rom/raw/banner.rs:230-238 | `from_u16` knows exactly the values 1, 2, 3 and 0x103, and gives the version with that discriminant |
| RawBanner.FromU16RoundTrip | lib/src/rom/raw/banner.rs:222-238 | `from_u16` inverts `as u16`, and no two versions share a discriminant |
| RawBanner.LanguageIndex | lib/src/rom/raw/banner.rs:296-305 | `language as usize` is below 8 |
| RawBanner.CrcIndexInjective | lib/src/rom/raw/banner.rs:265-272 | `crc_index` gives each version its own slot below 4 |
| RawBanner.SizeMonotone | lib/src/rom/raw/banner.rs:274-281 | `banner_size` grows with the version: a version is at least another exactly when its banner is at least as large |
| RawBanner.SlotsInside | lib/src/rom/raw/banner.rs:111-153 | a language's title slot lies inside every version that supports it and past the end of every version that does not; the animation ends exactly at the animated banner's size |
| RawBanner.TitleSlotsDisjoint | lib/src/rom/raw/banner.rs:111-133 | the title slots of different languages do not overlap, and none overlaps the icon |
| RawBanner.New | lib/src/rom/raw/banner.rs:30-35 | `new` gives a banner of the version's size holding the version word and zeros elsewhere |
| RawBanner.BorrowFromSlice | lib/src/rom/raw/banner.rs:49-69 | fewer than 2 bytes is an error (the source panics); an unknown version word gives UnknownVersion; success exactly when the data holds at least the version's size, and then the banner keeps exactly that size |
| RawBanner.BorrowRoundTrip | lib/src/rom/raw/banner.rs:30-69 | a valid banner's data reads back as the same banner, and so does a new one |
| RawBanner.Slot | lib/src/rom/raw/banner.rs:87-91 | a slot is the bytes at its offset, byte for byte |
| RawBanner.Put | lib/src/rom/raw/banner.rs:93-97 | storing into a slot changes those bytes only |
| RawBanner.WithCrc | lib/src/rom/raw/banner.rs:75-85 | a store through `crc_mut` puts the value in the slot `crc` reads and changes no other byte |
| RawBanner.Bitmap | lib/src/rom/raw/banner.rs:87-91 | `bitmap` is the 0x200-byte icon |
| RawBanner.Palette | lib/src/rom/raw/banner.rs:99-103 | `palette` is the 0x20-byte palette |
| RawBanner.WithBitmap | lib/src/rom/raw/banner.rs:93-97 | a store through `bitmap_mut` is read back by `bitmap` and changes nothing outside the icon |
| RawBanner.WithPalette | lib/src/rom/raw/banner.rs:105-109 | a store through `palette_mut` is read back by `palette` and changes nothing outside the palette |
| RawBanner.Title | lib/src/rom/raw/banner.rs:111-121 | `title` is present exactly when the version supports the language, and is then that language's 0x100-byte slot |
| RawBanner.WithTitle | lib/src/rom/raw/banner.rs:123-133 | `title_mut` is present exactly when the version supports the language; a store is read back by `title` and changes nothing outside the slot |
| RawBanner.Animation | lib/src/rom/raw/banner.rs:135-143 | below the animated version, NotSupported(0x103, version); otherwise the bytes from 0x1240 to the end, 0x1180 of them |
| RawBanner.GetPixel | lib/src/rom/raw/banner.rs:344-355 | the pixel is the nibble of the tiled byte it falls in, below 16, and 0 when the index lies past the bitmap |
| RawBanner.PixelAddressing | lib/src/rom/raw/banner.rs:344-348 | on the 32x32 icon the tile addressing stays inside the bitmap and can be undone: the pixel is recovered from its byte and nibble |
| RawBanner.PixelsDistinct | lib/src/rom/raw/banner.rs:344-348 | two different icon pixels never share a nibble |
| RawBanner.Colors | lib/src/rom/raw/banner.rs:309 | the palette bytes are sixteen little-endian colours |
| RawBanner.ScaleFaithful | lib/src/rom/raw/banner.rs:315-317 | scaling a 5-bit channel by 255 / 31 keeps black and full intensity and never merges two levels |
| RawBanner.GetColor | lib/src/rom/raw/banner.rs:312-323 | the colour's red, green and blue fields (bits 0-4, 5-9, 10-14), each scaled; black past the sixteenth colour |
| RawBanner.KeyframeFields | lib/src/rom/raw/banner.rs:389-409 | the five keyframe getters read disjoint fields (duration below 0x100, indices below 8) that together make up the whole word |
| RawBanner.KeyframeGetters | lib/src/rom/raw/banner.rs:389-409 | each getter reads back its own field from a word built of fields that fit |
| RawOverlay.ReadOverlay | lib/src/rom/raw/overlay.rs:13-24 | a record is eight little-endian words in declaration order: word `k` is the u32 at byte `4k` |
| RawOverlay.OverlayRoundTrip | lib/src/rom/raw/overlay.rs:13-24 | a record reads back from its 32 bytes, and any 32 bytes are the image of the record they read as |
| RawOverlay.TableBytes | lib/src/rom/raw/overlay.rs:13-24 | a table's bytes are 32 per record |
| RawOverlay.BorrowFromSlice | lib/src/rom/raw/overlay.rs:37-58 | InvalidSize exactly when the length is not a multiple of 32; otherwise `len / 32` records, record `i` read from bytes `32i..32i+32` |
| RawOverlay.TableRoundTrip | lib/src/rom/raw/overlay.rs:46-58 | reading a table's bytes gives the table back |
| RawOverlay.BytesRoundTrip | lib/src/rom/raw/overlay.rs:46-58 | a table that reads writes back to the same bytes |
| RawOverlay.TableBytesInjective | lib/src/rom/raw/overlay.rs:46-58 | different tables have different bytes |
| RawOverlay.CompressedBits | lib/src/rom/raw/overlay.rs:87-92 | `size` is the low 24 bits of the word and `is_compressed` its top byte |
| RawOverlay.WithSize | lib/src/rom/raw/overlay.rs:87-92 | `set_size` replaces the size field and leaves the compressed byte |
| RawOverlay.WithIsCompressed | lib/src/rom/raw/overlay.rs:87-92 | `set_is_compressed` replaces the top byte and leaves the size |
| RawOverlay.NewFlags | lib/src/rom/overlay.rs:139-144 | the flags word that `OverlayFlags::new()` and the three setters give holds the size, the two flags and clear reserved bits |
| RawOverlay.SizeViewsAgree | lib/src/rom/raw/overlay.rs:87-92 | the flags reading and the raw `OverlayCompressedSize` reading of the word share the size field |
| RawOverlay.FlagBits | lib/src/rom/overlay.rs:96-103 | the compressed flag is bit 24 and the signed flag bit 25 |
| RawOverlay.FlagsFields | lib/src/rom/overlay.rs:139-144 | a flags word is the packing of its size, its two flags and its reserved bits |
| RawOverlay.FlagsDetermined | lib/src/rom/overlay.rs:139-144 | a flags word with clear reserved bits is the one `NewFlags` builds from its own fields, and only that one |
| RawOverlayTable.AsBytes | lib/src/rom/raw/overlay_table.rs:53-55 | `as_bytes` is 32 bytes per entry and reads back as the same entries |
| RawOverlayTable.VerifySignature | lib/src/rom/raw/overlay_table.rs:32-40 | an unsigned table passes; a signed one passes exactly when its signature is `compute_signature` of the table |
| RawOverlayTable.SignatureWidth | lib/src/rom/raw/overlay_table.rs:26-30 | `compute_signature` gives a 20-byte hash |
| RawOverlayTable.SharedSignatureCollides | lib/src/rom/raw/overlay_table.rs:26-40 | a signature that verifies two tables with different entries is a MAC collision: the tables' bytes differ, yet the MAC maps both to one hash |
| Rom.AlignPadding | lib/src/rom/rom.rs:35 | the as-written padding count `!position & 0x1ff` is below 0x200 and always leaves the position one byte short of a 0x200 boundary |
| Rom.Align | lib/src/rom/rom.rs:34-40 | `align` keeps what the cursor holds and appends exactly that many 0xff bytes |
| Rom.AlignMissesBoundary | lib/src/rom/rom.rs:34-40 | as written, the padded length is never a multiple of 0x200 |
| Rom.AlignedGrows | lib/src/rom/rom.rs:23-25 | a header of 0x4000 bytes, already on a boundary, is padded by 0x1ff bytes to 0x41ff |
| Rom.BoundaryPadding | lib/src/rom/rom.rs:34-40 | the intended padding reaches the next 0x200 boundary, and is zero exactly when the position is already on one |
| Rom.AlignTo | lib/src/rom/rom.rs:34-40 | the intended `align` keeps the cursor's bytes and pads with 0xff to a 0x200 boundary |
| Rom.AlignToLeast | lib/src/rom/rom.rs:34-40 | the intended padding stops at the least boundary at or past the current length |
| Rom.BuildPrefix | lib/src/rom/rom.rs:19-32 | the part of `build` that exists: the header bytes, then padding, then the whole ARM9 program at the padded offset |
| Autoload.InfoBytes | lib/src/rom/raw/autoload_info.rs:14-18 | a record is 12 bytes |
| Autoload.InfoRoundTrip | lib/src/rom/raw/autoload_info.rs:14-18 | a record reads back from its bytes, and every 12 bytes are the image of the record they read as |
| Autoload.TableBytes | lib/src/rom/raw/autoload_info.rs:59-63 | a table takes 12 bytes per record |
| Autoload.BorrowFromSlice | lib/src/rom/raw/autoload_info.rs:38-63 | the table is refused with `InvalidSize` exactly when its length is not a multiple of 12; record `i` holds the words at `12i`, `12i + 4` and `12i + 8` |
| Autoload.TableBytesAt | lib/src/rom/raw/autoload_info.rs:59-63 | record `i` of a table's bytes holds the three words of entry `i` |
| Autoload.TableRoundTrip | lib/src/rom/raw/autoload_info.rs:59-63 | reading the bytes of a table gives the table back |
| Autoload.BytesRoundTrip | lib/src/rom/raw/autoload_info.rs:59-63 | a table that reads writes back to the same bytes |
| Autoload.Kind | lib/src/rom/raw/autoload_info.rs:65-71 | ITCM exactly at base 0x1ff8000, DTCM exactly at base 0x27e0000, unknown elsewhere |
| Autoload.KindName | lib/src/rom/raw/autoload_info.rs:96-101 | every kind displays as a non-empty name |
| Autoload.KindNameInjective | lib/src/rom/raw/autoload_info.rs:96-101 | different kinds display differently |
| Autoload.Code | lib/src/rom/autoload.rs:18-20 | the code is the first `code_size` bytes of the data, and the rest of the data follows it |
| Autoload.NewBlock | lib/src/rom/autoload.rs:13-50 | a block made from its code and any other bytes gives that code back from `code`, all the bytes from `full_data`, its info's address and .bss size, and is ITCM exactly at the ITCM base |
| Autoload.EndAddress | lib/src/rom/autoload.rs:38-40 | the end lies `code_size + bss_size` past the base, and there is an end exactly when the u32 sum does not overflow |
| BuildInfo.NitrocodeWords | lib/src/rom/raw/build_info.rs:11 | the nitrocode is 0xdec00621, whose bytes are 21 06 c0 de, and its reversal's bytes are de c0 06 21 |
| BuildInfo.InfoBytes | lib/src/rom/raw/build_info.rs:15-25 | a block is 36 bytes |
| BuildInfo.ReadInfo | lib/src/rom/raw/build_info.rs:15-25 | field `k` of a block is the little-endian word at byte `4k` |
| BuildInfo.InfoRoundTrip | lib/src/rom/raw/build_info.rs:15-25 | a block reads back from its bytes, and 36 bytes are the image of what they read as |
| BuildInfo.CheckNitrocode | lib/src/rom/raw/build_info.rs:61-69 | passes exactly when both nitrocode words are right; otherwise the error names the first wrong word with its expected and actual values |
| BuildInfo.NitrocodeInBytes | lib/src/rom/raw/build_info.rs:61-69 | on bytes, the check passes exactly when bytes 28..36 are 21 06 c0 de de c0 06 21 |
| BuildInfo.BorrowFromSlice | lib/src/rom/raw/build_info.rs:40-47 | `DataTooSmall` exactly when there are fewer than 36 bytes; otherwise the block read from the first 36 bytes, or the nitrocode error |
| BuildInfo.BorrowRoundTrip | lib/src/rom/raw/build_info.rs:71-84 | a block followed by anything reads back when it carries the nitrocode pair, and is refused with the check's error otherwise |
| Arm9Footer.FooterBytes | lib/src/rom/raw/arm9_footer.rs:10-14 | a footer is 12 bytes |
| Arm9Footer.FooterRoundTrip | lib/src/rom/raw/arm9_footer.rs:10-14 | a footer reads back from its bytes, and 12 bytes are the image of what they read as |
| Arm9Footer.CheckNitrocode | lib/src/rom/raw/arm9_footer.rs:53-59 | passes exactly when the first word is the nitrocode; otherwise the error carries the word found |
| Arm9Footer.New | lib/src/rom/raw/arm9_footer.rs:29-31 | a new footer passes the check, points at the given offset and has a zero reserved word |
| Arm9Footer.BorrowFromSlice | lib/src/rom/raw/arm9_footer.rs:33-39 | `WrongSize` exactly when the data is not 12 bytes; accepted exactly when it opens with 21 06 c0 de, and then it is the image of the footer read |
| Arm9Footer.NewRoundTrip | lib/src/rom/raw/arm9_footer.rs:61-75 | the bytes of a new footer read back as that footer |
| MultibootSignature.SignatureBytes | lib/src/rom/raw/multiboot_signature.rs:13-17 | a record is 136 bytes |
| MultibootSignature.ReadSignature | lib/src/rom/raw/multiboot_signature.rs:13-17 | what 136 bytes read as has the layout's field sizes |
| MultibootSignature.SignatureRoundTrip | lib/src/rom/raw/multiboot_signature.rs:13-17 | a record reads back from its bytes, and 136 bytes are the image of what they read as |
| MultibootSignature.BorrowFromSlice | lib/src/rom/raw/multiboot_signature.rs:64-99 | `DataTooSmall` exactly below 136 bytes, `InvalidMagic` with the word found exactly when the first word is not 0x00016361; otherwise the record is the image of the first 136 bytes |
| MultibootSignature.BorrowRoundTrip | lib/src/rom/raw/multiboot_signature.rs:90-99 | a record with the magic word, followed by anything, reads back |
| Signature.HexDigit | lib/src/rom/raw/hmac_sha1_signature.rs:94-101 | the digit written for a value below 16 is lower-case and reads back as that value |
| Signature.DigitValue | lib/src/rom/raw/hmac_sha1_signature.rs:137 | a base-16 digit's value is below 16 |
| Signature.LowerHexDigit | lib/src/rom/raw/hmac_sha1_signature.rs:94-101 | a lower-case digit is the one written for its value |
| Signature.ParseByte | lib/src/rom/raw/hmac_sha1_signature.rs:137 | two bytes parse exactly when they are two digits, or a `+` sign and a digit; a `-` never parses |
| Signature.Display | lib/src/rom/raw/hmac_sha1_signature.rs:94-101 | 40 lower-case digits; digits `2i` and `2i + 1` are the high and low digit of hash byte `i` |
| Signature.DisplayPair | lib/src/rom/raw/hmac_sha1_signature.rs:94-101 | each digit pair of the text form parses back to its hash byte |
| Signature.ParseFrom | lib/src/rom/raw/hmac_sha1_signature.rs:135-139 | the loop succeeds exactly when every remaining chunk slices and parses, with one byte per chunk; otherwise it fails on the first chunk that does not |
| Signature.FromStr | lib/src/rom/raw/hmac_sha1_signature.rs:129-142 | `InvalidLength` exactly when the text is not 40 bytes; a hash exactly when every chunk parses, byte `i` from chunk `i` |
| Signature.FromStrDisplay | lib/src/rom/raw/hmac_sha1_signature.rs:145-161 | parsing the text form gives the signature back, which is the serde round trip |
| Signature.DisplayFromStr | lib/src/rom/raw/hmac_sha1_signature.rs:129-142 | a lower-case text that parses is the text form of its parse |
| Signature.DisplayFromStrAt | lib/src/rom/raw/hmac_sha1_signature.rs:129-142 | chunk `i` of a lower-case text that parses is the digit pair the text form writes for byte `i` |
| Signature.LowerPairUnique | lib/src/rom/raw/hmac_sha1_signature.rs:137 | two lower-case digit pairs that parse to the same byte are equal |
| Signature.NonCanonicalChunks | lib/src/rom/raw/hmac_sha1_signature.rs:137 | "+f", "0f" and "0F" all parse as 15 and "-f" does not parse, so the text form is not the only text for a signature |
| Signature.BorrowFromSlice | lib/src/rom/raw/hmac_sha1_signature.rs:50-80 | refused exactly when the length is not a multiple of 20; signature `i` is bytes `20i..20i + 20` |
| Signature.TableBytes | lib/src/rom/raw/hmac_sha1_signature.rs:12-15 | a table takes 20 bytes per signature |
| Signature.TableRoundTrip | lib/src/rom/raw/hmac_sha1_signature.rs:76-80 | reading the bytes of a table of signatures gives the table back |
| Bitfield.Unpack | lib/src/rom/raw/overlay.rs:87-92 | every field read from a word fits its declared width |
| Bitfield.Pack | lib/src/rom/raw/overlay.rs:87-92 | fields that fit their widths pack into a word below two to the total width |
| Bitfield.UnpackPack | lib/src/rom/raw/overlay.rs:87-92 | the fields of a packed word are the fields packed into it |
| Bitfield.PackUnpack | lib/src/rom/raw/overlay.rs:87-92 | a word that fits the layout is the packing of its fields |
| Bitfield.SetField | lib/src/rom/raw/overlay.rs:87-92 | a setter changes its own field and every other field reads as before |
| Bitfield.FieldAt | lib/src/rom/raw/overlay.rs:87-92 | field `i` is the run of its width's bits above the fields declared before it |

## Left out

Preconditions that stand for debug-build panics:

- Fat.IntoFile: requires `start <= end <= |rom|`, because the slice at lib/src/rom/raw/fat.rs:54 panics outside that range.
- Autoload.Code: requires `code_size <= |data|`, because the slice at lib/src/rom/autoload.rs:19 panics on shorter data.
- RawOverlay.WithSize: requires a size below 2^24, because the `bitfield_struct` setter asserts that the value fits its 24-bit field in debug builds.
- Overlays.Build: requires a compressed overlay's file to be shorter than 2^24 bytes, for the same setter (lib/src/rom/overlay.rs:143).
- Huffman.CompressToSlice: requires `ValidCodes` (sixteen codes of one to eight bits whose value fits the length). lib/src/compress/huffman.rs:53-57 imposes no such check. It is the precondition of the bit writer, which is not part of this model.
- Banners.Build: takes `Sized` banners (every title slot 0x100 bytes, the bitmap and palette at their fixed sizes). These lengths stand for the fixed-size arrays of the Rust types.

Interpretations of code that is not part of this model:

- FlagsLayout / NewFlags: `OverlayFlags` (lib/src/rom/overlay.rs:7, 139-144) is not defined in the source. RawOverlay.FlagsLayout assumes `[24, 1, 1, 6]`: the size in bits 0-23, compressed in bit 24, signed in bit 25, and reserved bits above. RawOverlay.NewFlags, FlagBits, FlagsFields, FlagsDetermined and SizeViewsAgree hold for this assumed layout only. The layout agrees with `OverlayCompressedSize` (lib/src/rom/raw/overlay.rs:87-92) on the size field.
- Logo.Decompress / Logo.Compress: `HUFFMAN.decompress` and `HUFFMAN.compress` (lib/src/rom/logo.rs:126, 164) do not exist on `NibbleHuffman`. They are taken to be `decompress_to_slice` and `compress_to_slice` (lib/src/compress/huffman.rs:43-74). The table's `value` field (lib/src/rom/logo.rs:10-25) is ignored, since its entries are listed in nibble order.
- Overlays.Decompress: lib/src/rom/overlay.rs:214 applies `?` to `LZ77.decompress`, which is infallible at lib/src/compress/lz77.rs:239. The panics of that decompressor are modelled as the error overlay.rs expects.
- Banners.Build: which bytes each version's CRC covers is a `CrcRange` parameter, because `crc_range` (lib/src/rom/banner.rs:85) is not part of this model. The checksum itself is CRC-16/MODBUS, implemented bit by bit. Its standard check value is not proved.
- Banners: titles are the raw 0x100-byte images of their slots. The conversion to and from `Unicode16Array` is not part of this model. Keyframes are counted but not built, because the animation writers (`set_pixel`/`set_color`, lib/src/rom/banner.rs:184, 190) are not part of this model. Any keyframes therefore end in an error.
- Overlays, OverlayTables, RawOverlayTable: HMAC-SHA1 (RFC 2104, section 2) is a function parameter.

The LZ77 encoder:

- Lz77.Compress: `compress_bytes` (lib/src/compress/lz77.rs:74-157) is not modelled. `compress` is given that function's output: the token stream and the number of identical bytes. Five defects in the shown encoder rule out modelling it.
- At lib/src/compress/lz77.rs:80, `flag_pos` is set to the buffer length, but no placeholder byte is pushed. At :101 and :113 the flag byte therefore overwrites a token byte already written. Each time, that is the first byte of the group just written.
- At lib/src/compress/lz77.rs:126, `block.pos - compressed.len()` subtracts a larger `usize` from a smaller one. Every block position was recorded before the final length, so the subtraction overflows unless the two are equal.
- At lib/src/compress/lz77.rs:150, `compressed[write + num_identical]` reads at or past `compressed.len()`, because `write` was just set to that length. The index is out of range on the first iteration.
- At lib/src/compress/lz77.rs:119, `block_infos.len() - 1` overflows on an empty input.
- At lib/src/compress/lz77.rs:64, `find_match` already subtracts MIN_SUBSEQUENCE from the distance, and `Pair::to_le_bytes` (:26) subtracts MIN_DISTANCE again. A match three bytes on is reported with distance 0, and `to_le_bytes` underflows on it (Lz77.ZeroDistanceMatch).
- The pair byte order and the 8-byte write offset are under "## Findings".

Other omissions:

- Address-alignment checks: the `Misaligned` errors and `handle_pod_cast` depend on addresses. Reinterpreting bytes as records is modelled as little-endian field decoding.
- Rom.BuildPrefix: models `Rom::build` only up to its `todo!()` (lib/src/rom/rom.rs:31).
- File and image I/O are not modelled: `Logo::from_png` (lib/src/rom/logo.rs:91-116), the bitmap file loaders, and `raw::Rom::from_file`.
- The `display` and `fmt` implementations are not modelled, except for the capacity, flag and autoload-kind displays.
- Logo.GetPixel: computes `y * 104 + x` on unbounded integers. The `usize` overflow this expression has for huge coordinates is not modelled.
- Header.DsiFlagsDisplay / Header.RegionFlagsDisplay: the same reserved-bits-only quirk as the DS flags display applies to these two. It is proved only for the DS flags.
- The region slicing of lib/src/rom/raw/rom.rs reads `header.build_info_offset`, which the shown header does not have. It is not modelled.
- Trivial field copies are not modelled: lib/src/rom/arm7.rs, lib/src/rom/library_entry.rs, lib/src/rom/build_info.rs, lib/src/rom/header.rs, and the ARM9 program's accessors other than the secure-area operations.
- The RSA serde glue, the HMAC-SHA1 internals, the CLI, config.rs, error.rs, lib.rs and the `mod.rs` files are not modelled.

## Findings

| source | as written | input that shows it | evidently intended | confidence | as-written member | corrected member |
|---|---|---|---|---|---|---|
| lib/src/compress/lz77.rs:87-88 | The encoder appends a pair as `[low, high]` and then reverses the whole buffer (:187), so the high byte lies below. The decoder (:207-209) reads the byte below as the low byte. | `Pair(3, 4)` is written `[0, 1]` and read back as `Pair(3, 259)`. | A pair reads back as written: low byte below, high byte above. | not executed; high | Lz77Stream.WrittenPairMisread | Lz77Stream.CompressRoundTrip |
| lib/src/compress/lz77.rs:177 | `write_offset.to_le_bytes()` on a `usize` writes 8 bytes on a 64-bit host. The footer size at :170 and the reader at :231-235 expect 4. | Any input on a 64-bit host: the last four bytes read are the high half, so the write offset reads as 0. | A 4-byte little-endian write offset. | not executed; high | Lz77.WideFooterMisread | Lz77.FooterRoundTrip |
| lib/src/rom/rom.rs:35 | `align` writes `!pos & 0x1ff` bytes of 0xff, so it ends at the position with its low nine bits set. That is one byte short of a 0x200 boundary. | A 0x4000-byte header, already aligned, is padded to 0x41ff. | Padding up to the next multiple of 0x200. | not executed; medium | Rom.AlignMissesBoundary | Rom.AlignToLeast |
| lib/src/rom/file.rs:14-24 | `parse_subtable` recurses on every directory entry without tracking visited sub-tables. | A root sub-table whose first entry names directory 0xf000 recurses until the stack overflows. | The parse of an acyclic tree, with cycles rejected. | not executed; medium (malformed input only) | FileTree.SelfReferenceNeverParses | FileTree.FuelIrrelevant |
| lib/src/rom/raw/header.rs:238 | The megabyte display computes `1 << (c - 3)` in 32-bit signed arithmetic. | Capacity code 34 displays -2147483648MB, and codes of 35 and above overflow the shift. | The size `128 KiB << c`, in megabytes. | not executed; low (codes above 12 do not occur on cartridges) | Header.CapacityDisplayWraps | Header.CapacityDisplayWide |
| lib/src/rom/raw/header.rs:292-305 | "Normal" is printed only for a zero byte. A nonzero byte whose set bits are all reserved joins no names. | The flags byte 0x04 displays as the empty string. | "Normal" whenever none of the four named flags is set. | not executed; medium | Header.DsFlagsReservedOnly | Header.DsFlagsKnownDisplay |
