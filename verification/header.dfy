/**
 * The ROM header: the 0x4000-byte record at the start of the image. The
 * model reads the fields the toolkit interprets itself: the capacity code
 * (with its computation from a ROM size and its display), and the DS, DSi
 * and region flag words with their bit layouts and displays.
 */
module Header {
  import opened Common
  import opened Bitfield

  /** The size of the header record; the layout ends with a 0x3000-byte reserved block at 0x1000. */
  const HeaderSize: nat := 0x4000

  /** Byte offsets of the fields read here. */
  const CapacityOffset: nat := 0x14
  const DsiFlagsOffset: nat := 0x1c
  const DsFlagsOffset: nat := 0x1d
  const RegionFlagsOffset: nat := 0x1b0

  datatype HeaderError = DataTooSmall(expectedSize: nat, actualSize: nat)

  /** A header: its bytes, read field by field below. */
  datatype Header = Header(bytes: seq<byte>)

  predicate Valid(h: Header) {
    |h.bytes| == HeaderSize
  }

  /**
   * `Header::borrow_from_slice` (and `borrow_from_slice_mut`, which makes the
   * same check): the first 0x4000 bytes of the data.
   */
  function BorrowFromSlice(data: seq<byte>): (r: Result<Header, HeaderError>)
    ensures r.Err? <==> |data| < HeaderSize
    ensures r.Err? ==> r.error == DataTooSmall(HeaderSize, |data|)
    ensures r.Ok? ==> Valid(r.value) && r.value.bytes + data[HeaderSize..] == data
  {
    if |data| < HeaderSize then Err(DataTooSmall(HeaderSize, |data|))
    else Ok(Header(data[..HeaderSize]))
  }

  function CapacityOf(h: Header): byte
    requires Valid(h)
  {
    h.bytes[CapacityOffset]
  }

  function DsiFlagsOf(h: Header): byte
    requires Valid(h)
  {
    h.bytes[DsiFlagsOffset]
  }

  function DsFlagsOf(h: Header): byte
    requires Valid(h)
  {
    h.bytes[DsFlagsOffset]
  }

  function RegionFlagsOf(h: Header): u32
    requires Valid(h)
  {
    ReadU32(h.bytes, RegionFlagsOffset)
  }

  // ---------------------------------------------------------------------
  // Capacity

  /** The smallest capacity, 128 KiB; capacity code `c` stands for `0x20000 << c` bytes. */
  const MinCapacity: nat := 0x20000

  /** The number of significant bits of `n`, `32 - n.leading_zeros()` for a u32. */
  function BitLength(n: nat): (r: nat)
    ensures n < Pow2(r)
    ensures n > 0 ==> r > 0 && Pow2(r - 1) <= n
  {
    if n == 0 then 0 else 1 + BitLength(n / 2)
  }

  /** `Capacity::from_size`: the bit length less 17, saturating at 0. */
  function FromSize(size: u32): (c: byte)
    ensures size < MinCapacity * Pow2(c)
    ensures c > 0 ==> MinCapacity * Pow2(c - 1) <= size
  {
    var bits := BitLength(size);
    BitLengthBelow(size);
    Pow2Facts();
    if bits <= 17 then
      Pow2Monotone(bits, 17);
      0
    else
      Pow2Add(17, bits - 17);
      Pow2Add(17, bits - 18);
      bits - 17
  }

  /** A u32 has at most 32 bits. */
  lemma {:induction false} BitLengthBelow(n: u32)
    ensures BitLength(n) <= 32
  {
    if BitLength(n) > 32 {
      Pow2Facts();
      Pow2Monotone(32, BitLength(n) - 1);
    }
  }

  /** `from_size` gives the least code whose capacity exceeds the size. */
  lemma {:induction false} FromSizeLeast(size: u32, c: nat)
    requires size < MinCapacity * Pow2(c)
    ensures FromSize(size) <= c
  {
    var k := FromSize(size);
    if k > c {
      Pow2Monotone(c, k - 1);
    }
  }

  /** Sizes below 128 KiB get code 0, and a larger size never gets a smaller code. */
  lemma {:induction false} FromSizeMonotone(a: u32, b: u32)
    requires a <= b
    ensures FromSize(a) <= FromSize(b)
    ensures a < MinCapacity ==> FromSize(a) == 0
  {
    FromSizeLeast(a, FromSize(b));
    if a < MinCapacity {
      FromSizeLeast(a, 0);
    }
  }

  /** The unit a capacity displays in. */
  datatype SizeUnit = KiloBytes | MegaBytes

  function UnitText(u: SizeUnit): string {
    match u
    case KiloBytes => "kB"
    case MegaBytes => "MB"
  }

  /** A displayed capacity: the number printed before its unit. */
  datatype CapacityText = CapacityText(amount: int, unit: SizeUnit)

  /** A shift by 32 bits or more, a panic in the source. */
  datatype DisplayError = ShiftOverflow

  /** The i32 that an integer wraps to. */
  function WrapI32(x: int): (r: int)
    ensures -0x8000_0000 <= r < 0x8000_0000
    ensures -0x8000_0000 <= x < 0x8000_0000 ==> r == x
  {
    (x + 0x8000_0000) % 0x1_0000_0000 - 0x8000_0000
  }

  /** The kibibytes a displayed capacity denotes. */
  function TextKiB(t: CapacityText): int {
    if t.unit == KiloBytes then t.amount else 1024 * t.amount
  }

  /**
   * The display of `Capacity` as written: `128 << c` kB for codes up to 2,
   * otherwise `1 << (c - 3)` MB, both shifts on an i32.
   */
  function CapacityDisplay(c: byte): (r: Result<CapacityText, DisplayError>)
    ensures r.Err? <==> c >= 35
    ensures r.Ok? ==> (r.value.unit == KiloBytes <==> c <= 2)
  {
    if c <= 2 then Ok(CapacityText(WrapI32(128 * Pow2(c)), KiloBytes))
    else if c - 3 >= 32 then Err(ShiftOverflow)
    else Ok(CapacityText(WrapI32(Pow2(c - 3)), MegaBytes))
  }

  /** `1024 * 2^(c - 3)` is `128 * 2^c`. */
  lemma {:induction false} MegaToKilo(c: nat)
    requires c >= 3
    ensures 1024 * Pow2(c - 3) == 128 * Pow2(c)
  {
    Pow2Add(10, c - 3);
    Pow2Add(7, c);
    assert Pow2(10) == 1024 && Pow2(7) == 128;
  }

  /** Up to code 33 the display denotes `128 KiB << c`, whichever unit it uses. */
  lemma {:induction false} CapacityDisplayDenotes(c: byte)
    requires c <= 33
    ensures CapacityDisplay(c).Ok? && TextKiB(CapacityDisplay(c).value) == 128 * Pow2(c)
  {
    if c <= 2 {
      Pow2Monotone(c, 2);
      assert Pow2(2) == 4;
    } else {
      Pow2Monotone(c - 3, 30);
      Pow2Facts();
      MegaToKilo(c);
    }
  }

  /** Code 34 displays a negative size, and any larger code overflows the shift. */
  lemma {:induction false} CapacityDisplayWraps()
    ensures CapacityDisplay(34) == Ok(CapacityText(-0x8000_0000, MegaBytes))
    ensures forall c: byte :: c >= 35 ==> CapacityDisplay(c) == Err(ShiftOverflow)
  {
    Pow2Facts();
  }

  /** The display the layout evidently intends: the same text, computed without a 32-bit bound. */
  function CapacityDisplayWide(c: byte): (r: CapacityText)
    ensures TextKiB(r) == 128 * Pow2(c)
    ensures r.amount > 0
  {
    if c <= 2 then CapacityText(128 * Pow2(c), KiloBytes)
    else
      MegaToKilo(c);
      CapacityText(Pow2(c - 3), MegaBytes)
  }

  /** The wide display agrees with the source's wherever the source's does not wrap. */
  lemma {:induction false} CapacityDisplayAgrees(c: byte)
    requires c <= 33
    ensures CapacityDisplay(c) == Ok(CapacityDisplayWide(c))
  {
    CapacityDisplayDenotes(c);
  }

  // ---------------------------------------------------------------------
  // Flag words and their display

  /** The names of the set flags, in the order given. */
  function Selected(flags: seq<bool>, names: seq<string>): (r: seq<string>)
    requires |flags| == |names|
    ensures |r| <= |names|
    ensures forall s :: s in r ==> s in names
  {
    if flags == [] then []
    else (if flags[0] then [names[0]] else []) + Selected(flags[1..], names[1..])
  }

  /** Parts separated by ", ". */
  function Join(parts: seq<string>): string {
    if parts == [] then "" else parts[0] + Separated(parts[1..])
  }

  /** Each part preceded by ", ". */
  function Separated(parts: seq<string>): string {
    if parts == [] then "" else ", " + parts[0] + Separated(parts[1..])
  }

  /**
   * The `write_flag!` sequence: each set flag writes its name, preceded by
   * ", " once an earlier flag has been written.
   */
  function WriteFlags(flags: seq<bool>, names: seq<string>, comma: bool): string
    requires |flags| == |names|
  {
    if flags == [] then ""
    else
      var head := if flags[0] then (if comma then ", " else "") + names[0] else "";
      head + WriteFlags(flags[1..], names[1..], comma || flags[0])
  }

  /** The comma state machine writes the names of the set flags joined by ", ". */
  lemma {:induction false} WriteFlagsJoin(flags: seq<bool>, names: seq<string>, comma: bool)
    requires |flags| == |names|
    ensures WriteFlags(flags, names, comma) ==
      if comma then Separated(Selected(flags, names)) else Join(Selected(flags, names))
  {
    if flags != [] {
      var tail := WriteFlags(flags[1..], names[1..], comma || flags[0]);
      var rest := Selected(flags[1..], names[1..]);
      WriteFlagsJoin(flags[1..], names[1..], comma || flags[0]);
      if flags[0] {
        SelectedHead(flags, names);
        assert tail == Separated(rest);
        assert ([names[0]] + rest)[1..] == rest;
      } else {
        SelectedSkip(flags, names);
        assert WriteFlags(flags, names, comma) == "" + tail;
        assert "" + tail == tail;
      }
    }
  }

  lemma {:induction false} SelectedHead(flags: seq<bool>, names: seq<string>)
    requires |flags| == |names| && flags != [] && flags[0]
    ensures Selected(flags, names) == [names[0]] + Selected(flags[1..], names[1..])
  {
  }

  lemma {:induction false} SelectedSkip(flags: seq<bool>, names: seq<string>)
    requires |flags| == |names| && flags != [] && !flags[0]
    ensures Selected(flags, names) == Selected(flags[1..], names[1..])
  {
    assert [] + Selected(flags[1..], names[1..]) == Selected(flags[1..], names[1..]);
  }

  /** No name appears twice. */
  predicate Distinct(names: seq<string>) {
    forall i, j :: 0 <= i < j < |names| ==> names[i] != names[j]
  }

  /** Every name starts with a character other than the first of `fixed`. */
  predicate HeadsDiffer(names: seq<string>, fixed: string) {
    fixed != [] && forall i :: 0 <= i < |names| ==> names[i] != [] && names[i][0] != fixed[0]
  }

  /** With distinct names, a flag's name is selected exactly when the flag is set. */
  lemma {:induction false} SelectedIff(flags: seq<bool>, names: seq<string>, k: nat)
    requires |flags| == |names| && k < |names|
    requires Distinct(names)
    ensures names[k] in Selected(flags, names) <==> flags[k]
  {
    var rest := Selected(flags[1..], names[1..]);
    assert Distinct(names[1..]) by {
      forall i, j | 0 <= i < j < |names| - 1 ensures names[1..][i] != names[1..][j] {
        assert names[1..][i] == names[i + 1] && names[1..][j] == names[j + 1];
      }
    }
    if k == 0 {
      assert names[0] !in names[1..] by {
        forall j | 0 <= j < |names| - 1 ensures names[1..][j] != names[0] {
          assert names[1..][j] == names[j + 1];
        }
      }
      assert names[0] !in rest;
    } else {
      SelectedIff(flags[1..], names[1..], k - 1);
      assert names[k] == names[1..][k - 1] && flags[k] == flags[1..][k - 1];
      assert names[k] != names[0];
    }
  }

  /** A join of names that are not empty starts with the first name's first letter. */
  lemma {:induction false} JoinHead(parts: seq<string>)
    requires parts != [] && parts[0] != []
    ensures Join(parts) != [] && Join(parts)[0] == parts[0][0]
  {
  }

  /** No flag set, nothing written. */
  lemma {:induction false} WriteNone(flags: seq<bool>, names: seq<string>, comma: bool)
    requires |flags| == |names| && forall i :: 0 <= i < |flags| ==> !flags[i]
    ensures WriteFlags(flags, names, comma) == ""
  {
    if flags != [] {
      assert forall i :: 0 <= i < |flags| - 1 ==> !flags[1..][i] by {
        forall i | 0 <= i < |flags| - 1 ensures !flags[1..][i] {
          assert flags[1..][i] == flags[i + 1];
        }
      }
      WriteNone(flags[1..], names[1..], comma);
    }
  }

  /**
   * A flag word display, written by the source as a fixed text for zero and
   * otherwise the set flags' names, differs from that fixed text exactly when
   * the word is not zero, provided no name starts like it.
   */
  lemma {:induction false} FlagsTextFixed(flags: seq<bool>, names: seq<string>, fixed: string)
    requires |flags| == |names| && HeadsDiffer(names, fixed)
    ensures WriteFlags(flags, names, false) != fixed
  {
    WriteFlagsJoin(flags, names, false);
    var parts := Selected(flags, names);
    if parts != [] {
      assert parts[0] in names;
      JoinHead(parts);
    }
  }

  // DsFlags: permit_jump, permit_tmpjump, 4 reserved bits, korea_region, china_region.

  const DsFlagsLayout: seq<nat> := [1, 1, 4, 1, 1]

  predicate PermitJump(b: byte) { Unpack(b, DsFlagsLayout)[0] == 1 }
  predicate PermitTmpjump(b: byte) { Unpack(b, DsFlagsLayout)[1] == 1 }
  predicate KoreaRegion(b: byte) { Unpack(b, DsFlagsLayout)[3] == 1 }
  predicate ChinaRegion(b: byte) { Unpack(b, DsFlagsLayout)[4] == 1 }

  /** The DS flag fields sit at bits 0, 1, 6 and 7 of the byte. */
  lemma {:induction false} DsFlagsBits(b: byte)
    ensures PermitJump(b) <==> b % 2 == 1
    ensures PermitTmpjump(b) <==> b / 2 % 2 == 1
    ensures KoreaRegion(b) <==> b / 0x40 % 2 == 1
    ensures ChinaRegion(b) <==> b >= 0x80
  {
    DsLowBits(b);
    DsHighBits(b);
  }

  /** The two permit flags are bits 0 and 1. */
  lemma {:induction false} DsLowBits(b: byte)
    ensures Unpack(b, DsFlagsLayout)[0] == b % 2
    ensures Unpack(b, DsFlagsLayout)[1] == b / 2 % 2
  {
    var l := DsFlagsLayout;
    FieldAt(b, l, 0);
    FieldAt(b, l, 1);
    assert l[..0] == [] && l[..1] == [1];
    assert Total([1]) == 1;
  }

  /** The two region flags are bits 6 and 7. */
  lemma {:induction false} DsHighBits(b: byte)
    ensures Unpack(b, DsFlagsLayout)[3] == b / 0x40 % 2
    ensures Unpack(b, DsFlagsLayout)[4] == b / 0x80 % 2
  {
    var l := DsFlagsLayout;
    FieldAt(b, l, 3);
    FieldAt(b, l, 4);
    assert l[..3] == [1, 1, 4] && l[..4] == [1, 1, 4, 1];
    assert Total([1, 1, 4]) == 6 by {
      assert [1, 1, 4][1..] == [1, 4] && [1, 4][1..] == [4];
    }
    assert Total([1, 1, 4, 1]) == 7 by {
      assert [1, 1, 4, 1][1..] == [1, 4, 1] && [1, 4, 1][1..] == [4, 1] && [4, 1][1..] == [1];
    }
    assert Pow2(6) == 0x40 && Pow2(7) == 0x80;
  }

  const DsFlagsNames: seq<string> := ["China", "Korea", "Permit jump", "Permit tmpjump"]

  /** The set DS flags in display order. */
  function DsFlagsShown(b: byte): seq<bool> {
    [ChinaRegion(b), KoreaRegion(b), PermitJump(b), PermitTmpjump(b)]
  }

  /** `DsFlags` displayed: "Normal" for 0, otherwise the names of the set flags. */
  function DsFlagsText(b: byte): string {
    if b == 0 then "Normal" else WriteFlags(DsFlagsShown(b), DsFlagsNames, false)
  }

  /**
   * The display is "Normal" exactly for the zero byte; otherwise it lists,
   * joined by ", ", the name of each set flag and no other.
   */
  lemma {:induction false} DsFlagsDisplay(b: byte, k: nat)
    requires k < 4
    ensures DsFlagsText(b) == "Normal" <==> b == 0
    ensures b != 0 ==> DsFlagsText(b) == Join(Selected(DsFlagsShown(b), DsFlagsNames))
    ensures DsFlagsNames[k] in Selected(DsFlagsShown(b), DsFlagsNames) <==> DsFlagsShown(b)[k]
  {
    DsNames();
    FlagsTextFixed(DsFlagsShown(b), DsFlagsNames, "Normal");
    WriteFlagsJoin(DsFlagsShown(b), DsFlagsNames, false);
    SelectedIff(DsFlagsShown(b), DsFlagsNames, k);
  }

  lemma {:induction false} DsNames()
    ensures Distinct(DsFlagsNames) && HeadsDiffer(DsFlagsNames, "Normal")
  {
  }

  /** A byte with only reserved bits set is not "Normal", yet displays as nothing. */
  lemma {:induction false} DsFlagsReservedOnly(b: byte)
    requires b != 0 && b % 2 == 0 && b / 2 % 2 == 0 && b < 0x40
    ensures DsFlagsText(b) == ""
  {
    DsFlagsBits(b);
    WriteNone(DsFlagsShown(b), DsFlagsNames, false);
  }

  /** Whether any of the four named DS flags is set. */
  predicate AnyDsFlag(b: byte) {
    PermitJump(b) || PermitTmpjump(b) || KoreaRegion(b) || ChinaRegion(b)
  }

  /** The display the flag names evidently intend: "Normal" whenever no named flag is set. */
  function DsFlagsTextKnown(b: byte): string {
    if AnyDsFlag(b) then WriteFlags(DsFlagsShown(b), DsFlagsNames, false) else "Normal"
  }

  /**
   * The intended display is never empty, is "Normal" exactly when no named
   * flag is set, and agrees with the source's on every byte but those whose
   * only set bits are reserved.
   */
  lemma {:induction false} DsFlagsKnownDisplay(b: byte)
    ensures DsFlagsTextKnown(b) != ""
    ensures DsFlagsTextKnown(b) == "Normal" <==> !AnyDsFlag(b)
    ensures b == 0 || AnyDsFlag(b) ==> DsFlagsTextKnown(b) == DsFlagsText(b)
  {
    DsFlagsBits(b);
    if AnyDsFlag(b) {
      var flags := DsFlagsShown(b);
      DsNames();
      FlagsTextFixed(flags, DsFlagsNames, "Normal");
      var k := if ChinaRegion(b) then 0 else if KoreaRegion(b) then 1 else if PermitJump(b) then 2 else 3;
      assert flags[k];
      SelectedIff(flags, DsFlagsNames, k);
      var parts := Selected(flags, DsFlagsNames);
      assert parts != [] && parts[0] in DsFlagsNames;
      JoinHead(parts);
      WriteFlagsJoin(flags, DsFlagsNames, false);
    }
  }

  // DsiFlags: dsi_title, modcrypted, modcrypt_debug_key, disable_debug, 4 reserved bits.

  const DsiFlagsLayout: seq<nat> := [1, 1, 1, 1, 4]

  const DsiFlagsNames: seq<string> := ["DSi title", "Modcrypted", "Modcrypt debug key", "Disable debug"]

  /** The set DSi flags in display order, which is the layout's order. */
  function DsiFlagsShown(b: byte): seq<bool> {
    var f := Unpack(b, DsiFlagsLayout);
    [f[0] == 1, f[1] == 1, f[2] == 1, f[3] == 1]
  }

  /** `DsiFlags` displayed: "Normal" for 0, otherwise the names of the set flags. */
  function DsiFlagsText(b: byte): string {
    if b == 0 then "Normal" else WriteFlags(DsiFlagsShown(b), DsiFlagsNames, false)
  }

  /** Flag `k` of the DSi flags is bit `k`; the display is "Normal" exactly for the zero byte. */
  lemma {:induction false} DsiFlagsDisplay(b: byte, k: nat)
    requires k < 4
    ensures DsiFlagsShown(b)[k] <==> b / Pow2(k) % 2 == 1
    ensures DsiFlagsText(b) == "Normal" <==> b == 0
    ensures DsiFlagsNames[k] in Selected(DsiFlagsShown(b), DsiFlagsNames) <==> DsiFlagsShown(b)[k]
  {
    var l := DsiFlagsLayout;
    FieldAt(b, l, k);
    OnesPrefix(l, k);
    DsiNames();
    FlagsTextFixed(DsiFlagsShown(b), DsiFlagsNames, "Normal");
    SelectedIff(DsiFlagsShown(b), DsiFlagsNames, k);
  }

  lemma {:induction false} DsiNames()
    ensures Distinct(DsiFlagsNames) && HeadsDiffer(DsiFlagsNames, "Normal")
  {
  }

  /** A layout that opens with `k` one-bit fields puts field `k` at bit `k`. */
  lemma {:induction false} OnesPrefix(widths: seq<nat>, k: nat)
    requires k <= |widths| && forall i :: 0 <= i < k ==> widths[i] == 1
    ensures Total(widths[..k]) == k
    decreases k
  {
    if k > 0 {
      OnesPrefix(widths, k - 1);
      TotalSnoc(widths[..k - 1], 1);
      assert widths[..k] == widths[..k - 1] + [1];
    }
  }

  /** Appending a field adds its width. */
  lemma {:induction false} TotalSnoc(widths: seq<nat>, w: nat)
    ensures Total(widths + [w]) == Total(widths) + w
  {
    if widths != [] {
      TotalSnoc(widths[1..], w);
      assert (widths + [w])[1..] == widths[1..] + [w];
    }
  }

  // RegionFlags: japan, usa, europe, australia, china, korea, 26 reserved bits.

  const RegionFlagsLayout: seq<nat> := [1, 1, 1, 1, 1, 1, 26]

  const RegionNames: seq<string> := ["Japan", "USA", "Europe", "Australia", "China", "Korea"]

  /** The set region flags in display order, which is the layout's order. */
  function RegionsShown(w: u32): seq<bool> {
    var f := Unpack(w, RegionFlagsLayout);
    [f[0] == 1, f[1] == 1, f[2] == 1, f[3] == 1, f[4] == 1, f[5] == 1]
  }

  /** `RegionFlags` displayed: "None" for 0, "Region free" for all ones, otherwise the set regions. */
  function RegionFlagsText(w: u32): string {
    if w == 0 then "None"
    else if w == 0xffff_ffff then "Region free"
    else WriteFlags(RegionsShown(w), RegionNames, false)
  }

  lemma {:induction false} RegionNamesFacts()
    ensures Distinct(RegionNames) && HeadsDiffer(RegionNames, "None") && HeadsDiffer(RegionNames, "Region free")
  {
  }

  /**
   * Region `k` is bit `k`; the display is "None" exactly for 0 and "Region
   * free" exactly for 0xffffffff, and otherwise names each set region and no
   * other.
   */
  lemma {:induction false} RegionFlagsDisplay(w: u32, k: nat)
    requires k < 6
    ensures RegionsShown(w)[k] <==> w / Pow2(k) % 2 == 1
    ensures RegionFlagsText(w) == "None" <==> w == 0
    ensures RegionFlagsText(w) == "Region free" <==> w == 0xffff_ffff
    ensures RegionNames[k] in Selected(RegionsShown(w), RegionNames) <==> RegionsShown(w)[k]
  {
    var l := RegionFlagsLayout;
    FieldAt(w, l, k);
    OnesPrefix(l, k);
    RegionNamesFacts();
    FlagsTextFixed(RegionsShown(w), RegionNames, "None");
    FlagsTextFixed(RegionsShown(w), RegionNames, "Region free");
    SelectedIff(RegionsShown(w), RegionNames, k);
  }
}
