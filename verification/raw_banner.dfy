/**
 * The raw banner (lib/src/rom/raw/banner.rs): the icon and titles block of
 * a ROM, in one of four versions that each extend the previous layout.
 *
 *   0x000  version (u16)         0x002  four CRC-16 slots (u16 each)
 *   0x020  icon bitmap (0x200)   0x220  icon palette (16 u16 colours)
 *   0x240  eight title slots of 0x100 bytes, one per language
 *   0x1240 the animation (bitmaps, palettes, keyframes) up to 0x23c0
 *
 * A banner's data is exactly its version's size. Reinterpreting a slice as
 * a typed section (and the alignment errors that can cause) is modelled
 * as reading the slice's bytes.
 */
module RawBanner {
  import opened Common

  datatype BannerVersion = Original | China | Korea | Animated

  /** `version as u16`: the discriminant, which is also the order versions compare in. */
  function VersionValue(v: BannerVersion): u16 {
    match v
    case Original => 1
    case China => 2
    case Korea => 3
    case Animated => 0x103
  }

  /** `v >= w` under the derived ordering. */
  predicate AtLeast(v: BannerVersion, w: BannerVersion) {
    VersionValue(v) >= VersionValue(w)
  }

  /** `BannerVersion::from_u16`: the version whose discriminant is `value`, if any. */
  function FromU16(value: u16): (r: Option<BannerVersion>)
    ensures r.Some? <==> value == 1 || value == 2 || value == 3 || value == 0x103
    ensures r.Some? ==> VersionValue(r.value) == value
  {
    match value
    case 1 => Some(Original)
    case 2 => Some(China)
    case 3 => Some(Korea)
    case 0x103 => Some(Animated)
    case _ => None
  }

  /** `from_u16` inverts `as u16`, and the discriminants are distinct. */
  lemma {:induction false} FromU16RoundTrip(v: BannerVersion, w: BannerVersion)
    ensures FromU16(VersionValue(v)) == Some(v)
    ensures VersionValue(v) == VersionValue(w) ==> v == w
  {
  }

  /** `has_chinese`, `has_korean`, `has_animation`. */
  predicate HasChinese(v: BannerVersion) { AtLeast(v, China) }
  predicate HasKorean(v: BannerVersion) { AtLeast(v, Korea) }
  predicate HasAnimation(v: BannerVersion) { AtLeast(v, Animated) }

  datatype Language = Japanese | English | French | German | Italian | Spanish | Chinese | Korean

  /** `language as usize`. */
  function LanguageIndex(l: Language): (r: nat)
    ensures r < 8
  {
    match l
    case Japanese => 0
    case English => 1
    case French => 2
    case German => 3
    case Italian => 4
    case Spanish => 5
    case Chinese => 6
    case Korean => 7
  }

  /** `supports_language`: the six base languages always, Chinese from China on, Korean from Korea on. */
  predicate SupportsLanguage(v: BannerVersion, l: Language) {
    match l
    case Chinese => HasChinese(v)
    case Korean => HasKorean(v)
    case _ => true
  }

  /** `crc_index`: the CRC slot of each version. */
  function CrcIndex(v: BannerVersion): (r: nat)
    ensures r < 4
  {
    match v
    case Original => 0
    case China => 1
    case Korea => 2
    case Animated => 3
  }

  /** Each version has its own CRC slot. */
  lemma {:induction false} CrcIndexInjective(v: BannerVersion, w: BannerVersion)
    ensures CrcIndex(v) == CrcIndex(w) ==> v == w
  {
  }

  /** `banner_size`. */
  function BannerSize(v: BannerVersion): (r: nat)
    ensures r >= 0x840
  {
    match v
    case Original => 0x840
    case China => 0x940
    case Korea => 0x1240
    case Animated => 0x23c0
  }

  /** A later version's layout extends an earlier one's. */
  lemma {:induction false} SizeMonotone(v: BannerVersion, w: BannerVersion)
    ensures AtLeast(v, w) <==> BannerSize(v) >= BannerSize(w)
  {
  }

  // ---------------------------------------------------------------------
  // Slots

  const BitmapAt: nat := 0x20
  const BitmapSize: nat := 0x200
  const PaletteAt: nat := 0x220
  const PaletteSize: nat := 0x20
  const TitleSize: nat := 0x100
  const AnimationAt: nat := 0x1240
  const AnimationEnd: nat := 0x23c0

  /** The offset of the CRC slot with the given index. */
  function CrcAt(index: nat): nat {
    2 + index * 2
  }

  /** The offset of a language's title slot. */
  function TitleAt(l: Language): nat {
    0x240 + LanguageIndex(l) * TitleSize
  }

  /**
   * A language's title slot lies inside every version that supports it,
   * and the animation ends exactly where the animated banner does.
   */
  lemma {:induction false} SlotsInside(v: BannerVersion, l: Language)
    ensures SupportsLanguage(v, l) ==> TitleAt(l) + TitleSize <= BannerSize(v)
    ensures !SupportsLanguage(v, l) ==> TitleAt(l) >= BannerSize(v)
    ensures HasAnimation(v) <==> AnimationEnd <= BannerSize(v)
    ensures AnimationEnd == BannerSize(Animated)
  {
  }

  /** Slots of different languages do not overlap, and none overlaps the icon. */
  lemma {:induction false} TitleSlotsDisjoint(l: Language, m: Language)
    ensures l != m ==> TitleAt(l) + TitleSize <= TitleAt(m) || TitleAt(m) + TitleSize <= TitleAt(l)
    ensures PaletteAt + PaletteSize <= TitleAt(l)
  {
  }

  datatype Banner = Banner(version: BannerVersion, data: seq<byte>)

  /** What every banner the source constructs satisfies: its data is its version's size, starting with the version word. */
  predicate Valid(b: Banner) {
    |b.data| == BannerSize(b.version) && ReadU16(b.data, 0) == VersionValue(b.version)
  }

  /** `Banner::new`: a zeroed banner of the version's size with the version word in front. */
  function New(v: BannerVersion): (r: Banner)
    ensures Valid(r) && r.version == v
    ensures forall i :: 2 <= i < |r.data| ==> r.data[i] == 0
  {
    var w := VersionValue(v);
    U16RoundTrip(w, U16Bytes(w), 0);
    var data := U16Bytes(w) + Fill(0, BannerSize(v) - 2);
    ReadU16Local(data, 0, U16Bytes(w), 0);
    Banner(v, data)
  }

  datatype RawBannerError =
    | DataTooShort                                                   // `data[0]`, `data[1]` panic
    | UnknownVersion(version: u16)
    | InvalidSize(version: u16, expected: nat, actual: nat)
    | NotSupported(minimum: u16, found: u16)

  /**
   * `Banner::borrow_from_slice`: the version word, which must name a known
   * version, then at least that version's size of data, of which the
   * banner keeps exactly that size.
   */
  function BorrowFromSlice(data: seq<byte>): (r: Result<Banner, RawBannerError>)
    ensures |data| < 2 ==> r == Err(DataTooShort)
    ensures |data| >= 2 && FromU16(ReadU16(data, 0)).None? ==> r == Err(UnknownVersion(ReadU16(data, 0)))
    ensures r.Ok? <==> |data| >= 2 && FromU16(ReadU16(data, 0)).Some? &&
                       |data| >= BannerSize(FromU16(ReadU16(data, 0)).value)
    ensures r.Ok? ==> r.value.version == FromU16(ReadU16(data, 0)).value && Valid(r.value) &&
                      r.value.data == data[..BannerSize(r.value.version)]
  {
    if |data| < 2 then Err(DataTooShort)
    else
      var value := ReadU16(data, 0);
      match FromU16(value)
      case None => Err(UnknownVersion(value))
      case Some(version) =>
        var size := BannerSize(version);
        if |data| < size then Err(InvalidSize(value, size, |data|))
        else
          ReadU16Local(data, 0, data[..size], 0);
          Ok(Banner(version, data[..size]))
  }

  /** A valid banner's data reads back as that banner, and a fresh banner is valid. */
  lemma {:induction false} BorrowRoundTrip(b: Banner)
    requires Valid(b)
    ensures BorrowFromSlice(b.data) == Ok(b)
    ensures BorrowFromSlice(New(b.version).data) == Ok(New(b.version))
  {
    FromU16RoundTrip(b.version, b.version);
    assert b.data[..|b.data|] == b.data;
    var n := New(b.version).data;
    assert n[..|n|] == n;
  }

  // ---------------------------------------------------------------------
  // Reading and writing slots

  /** The bytes at `at..at + n`. */
  function Slot(data: seq<byte>, at: nat, n: nat): (r: seq<byte>)
    requires at + n <= |data|
    ensures |r| == n && forall i :: 0 <= i < n ==> r[i] == data[at + i]
  {
    data[at..at + n]
  }

  /** `data[at..at + |bytes|].copy_from_slice(bytes)`: nothing outside the slot changes. */
  function Put(data: seq<byte>, at: nat, bytes: seq<byte>): (r: seq<byte>)
    requires at + |bytes| <= |data|
    ensures |r| == |data|
    ensures forall i :: 0 <= i < |data| ==> r[i] == if at <= i < at + |bytes| then bytes[i - at] else data[i]
  {
    data[..at] + bytes + data[at + |bytes|..]
  }

  /** `crc`: the CRC stored in a slot. */
  function Crc(b: Banner, index: nat): (r: u16)
    requires index < 4 && Valid(b)
  {
    ReadU16(b.data, CrcAt(index))
  }

  /** `crc_mut` followed by a store: the slot holds `value`; nothing else changes. */
  function WithCrc(b: Banner, index: nat, value: u16): (r: Banner)
    requires index < 4 && Valid(b)
    ensures Valid(r) && r.version == b.version
    ensures Crc(r, index) == value
    ensures forall i :: 0 <= i < |b.data| && !(CrcAt(index) <= i < CrcAt(index) + 2) ==> r.data[i] == b.data[i]
  {
    var data := Put(b.data, CrcAt(index), U16Bytes(value));
    U16RoundTrip(value, U16Bytes(value), 0);
    ReadU16Local(data, CrcAt(index), U16Bytes(value), 0);
    ReadU16Local(data, 0, b.data, 0);
    Banner(b.version, data)
  }

  /** `bitmap`: the icon's 0x200 bytes. */
  function Bitmap(b: Banner): (r: seq<byte>)
    requires Valid(b)
    ensures |r| == BitmapSize
  {
    Slot(b.data, BitmapAt, BitmapSize)
  }

  /** `palette`: the icon's sixteen colours as bytes. */
  function Palette(b: Banner): (r: seq<byte>)
    requires Valid(b)
    ensures |r| == PaletteSize
  {
    Slot(b.data, PaletteAt, PaletteSize)
  }

  /** `bitmap_mut` followed by a store: nothing outside the icon changes. */
  function WithBitmap(b: Banner, bitmap: seq<byte>): (r: Banner)
    requires Valid(b) && |bitmap| == BitmapSize
    ensures Valid(r) && r.version == b.version && Bitmap(r) == bitmap
    ensures forall i :: 0 <= i < |b.data| ==> r.data[i] == if BitmapAt <= i < BitmapAt + BitmapSize then bitmap[i - BitmapAt] else b.data[i]
  {
    var data := Put(b.data, BitmapAt, bitmap);
    ReadU16Local(data, 0, b.data, 0);
    Banner(b.version, data)
  }

  /** `palette_mut` followed by a store: nothing outside the palette changes. */
  function WithPalette(b: Banner, palette: seq<byte>): (r: Banner)
    requires Valid(b) && |palette| == PaletteSize
    ensures Valid(r) && r.version == b.version && Palette(r) == palette
    ensures forall i :: 0 <= i < |b.data| ==> r.data[i] == if PaletteAt <= i < PaletteAt + PaletteSize then palette[i - PaletteAt] else b.data[i]
  {
    var data := Put(b.data, PaletteAt, palette);
    ReadU16Local(data, 0, b.data, 0);
    Banner(b.version, data)
  }

  /** `title`: the language's slot, or `None` when the version has no slot for it. */
  function Title(b: Banner, l: Language): (r: Option<seq<byte>>)
    requires Valid(b)
    ensures r.Some? <==> SupportsLanguage(b.version, l)
    ensures r.Some? ==> |r.value| == TitleSize && TitleAt(l) + TitleSize <= |b.data| &&
                        forall i :: 0 <= i < TitleSize ==> r.value[i] == b.data[TitleAt(l) + i]
  {
    SlotsInside(b.version, l);
    if !SupportsLanguage(b.version, l) then None
    else Some(Slot(b.data, TitleAt(l), TitleSize))
  }

  /** `title_mut` followed by a store: `None` when the version has no slot; nothing outside the slot changes. */
  function WithTitle(b: Banner, l: Language, title: seq<byte>): (r: Option<Banner>)
    requires Valid(b) && |title| == TitleSize
    ensures r.Some? <==> SupportsLanguage(b.version, l)
    ensures r.Some? ==> Valid(r.value) && r.value.version == b.version && Title(r.value, l) == Some(title)
    ensures r.Some? ==> forall i :: 0 <= i < |b.data| && !(TitleAt(l) <= i < TitleAt(l) + TitleSize) ==>
                                    r.value.data[i] == b.data[i]
  {
    SlotsInside(b.version, l);
    if !SupportsLanguage(b.version, l) then None
    else
      var data := Put(b.data, TitleAt(l), title);
      ReadU16Local(data, 0, b.data, 0);
      assert Slot(data, TitleAt(l), TitleSize) == title;
      Some(Banner(b.version, data))
  }

  /** `animation`: refused below the animated version; otherwise bytes 0x1240..0x23c0. */
  function Animation(b: Banner): (r: Result<seq<byte>, RawBannerError>)
    requires Valid(b)
    ensures r.Err? <==> !HasAnimation(b.version)
    ensures r.Err? ==> r.error == NotSupported(VersionValue(Animated), VersionValue(b.version))
    ensures r.Ok? ==> |r.value| == AnimationEnd - AnimationAt && b.data[AnimationAt..] == r.value
  {
    SlotsInside(b.version, Japanese);
    if !HasAnimation(b.version) then Err(NotSupported(VersionValue(Animated), VersionValue(b.version)))
    else Ok(Slot(b.data, AnimationAt, AnimationEnd - AnimationAt))
  }

  // ---------------------------------------------------------------------
  // Icon

  /** The byte and nibble offset `get_pixel` reads for a pixel: 8x8 tiles in a 4x4 grid, two pixels a byte. */
  function PixelIndex(x: nat, y: nat): nat {
    y / 8 * 0x80 + x / 8 * 0x20 + y % 8 * 4 + x / 2 % 4
  }

  function PixelShift(x: nat): nat {
    x % 2 * 4
  }

  /** `BannerBitmap::get_pixel`: the pixel's nibble, or 0 outside the bitmap. */
  function GetPixel(bitmap: seq<byte>, x: nat, y: nat): (r: nat)
    requires |bitmap| == BitmapSize
    ensures r < 16
    ensures PixelIndex(x, y) >= BitmapSize ==> r == 0
    ensures PixelIndex(x, y) < BitmapSize ==>
      r == if x % 2 == 0 then bitmap[PixelIndex(x, y)] % 16 else bitmap[PixelIndex(x, y)] / 16
  {
    var index := PixelIndex(x, y);
    if index < BitmapSize then
      if PixelShift(x) == 0 then bitmap[index] % 16 else bitmap[index] / 16 % 16
    else 0
  }

  /** The pixel a byte and nibble offset hold: the inverse of the tile addressing. */
  function PixelOf(index: nat, shift: nat): (nat, nat) {
    (index / 0x20 % 4 * 8 + index % 4 * 2 + shift / 4, index / 0x80 * 8 + index / 4 % 8)
  }

  /**
   * On the 32x32 icon the addressing stays inside the bitmap and is
   * one-to-one: every pixel has its own nibble.
   */
  lemma {:induction false} PixelAddressing(x: nat, y: nat)
    requires x < 32 && y < 32
    ensures PixelIndex(x, y) < BitmapSize
    ensures PixelOf(PixelIndex(x, y), PixelShift(x)) == (x, y)
  {
    var a, b, c, d := x / 2 % 4, y % 8, x / 8, y / 8;
    IndexDigits(PixelIndex(x, y), a, b, c, d);
    ColumnDigits(x);
  }

  /** The four digits of a tile address, in radices 4, 8, 4 and whatever is left. */
  lemma {:induction false} IndexDigits(index: nat, a: nat, b: nat, c: nat, d: nat)
    requires a < 4 && b < 8 && c < 4 && index == a + 4 * (b + 8 * (c + 4 * d))
    ensures index % 4 == a && index / 4 % 8 == b && index / 0x20 % 4 == c && index / 0x80 == d
  {
    DivMixed(a, 4, b + 8 * (c + 4 * d));
    DivMixed(b, 8, c + 4 * d);
    DivMixed(c, 4, d);
    DivDiv(index, 4, 8);
    DivDiv(index / 4 / 8, 4, 1);
    DivDiv(index, 4 * 8, 4);
  }

  /** A column is its tile, its byte within the tile row, and its nibble. */
  lemma {:induction false} ColumnDigits(x: nat)
    ensures x == x / 8 * 8 + x / 2 % 4 * 2 + x % 2 * 4 / 4
  {
    DivDiv(x, 2, 4);
    assert x / 2 == 4 * (x / 2 / 4) + x / 2 % 4;
  }

  /** Two different icon pixels never share a nibble. */
  lemma {:induction false} PixelsDistinct(x1: nat, y1: nat, x2: nat, y2: nat)
    requires x1 < 32 && y1 < 32 && x2 < 32 && y2 < 32
    requires PixelIndex(x1, y1) == PixelIndex(x2, y2) && PixelShift(x1) == PixelShift(x2)
    ensures x1 == x2 && y1 == y2
  {
    PixelAddressing(x1, y1);
    PixelAddressing(x2, y2);
  }

  /** The palette's sixteen little-endian colours. */
  function Colors(palette: seq<byte>): (r: seq<u16>)
    requires |palette| == PaletteSize
    ensures |r| == 16 && forall i :: 0 <= i < 16 ==> r[i] == ReadU16(palette, 2 * i)
  {
    seq(16, i requires 0 <= i < 16 => ReadU16(palette, 2 * i))
  }

  /** A five-bit channel scaled to eight bits, rounding down. */
  function Scale(c: nat): (r: byte)
    requires c < 32
  {
    c * 255 / 31
  }

  /** The scaling keeps black and full intensity and never merges two levels. */
  lemma {:induction false} ScaleFaithful(a: nat, b: nat)
    requires a < 32 && b < 32
    ensures Scale(0) == 0 && Scale(31) == 255
    ensures a < b ==> Scale(a) < Scale(b)
  {
    if a < b {
      assert b * 255 >= a * 255 + 255;
      assert (a * 255 + 255) / 31 > a * 255 / 31;
    }
  }

  /**
   * `BannerPalette::get_color`: the red, green and blue fields of a
   * colour (bits 0-4, 5-9, 10-14) scaled to bytes; black past the
   * sixteenth colour.
   */
  function GetColor(colors: seq<u16>, index: nat): (r: (byte, byte, byte))
    requires |colors| == 16
    ensures index >= 16 ==> r == (0, 0, 0)
    ensures index < 16 ==> r == (Scale(colors[index] % 32), Scale(colors[index] / 32 % 32), Scale(colors[index] / 1024 % 32))
  {
    if index < 16 then
      var color := colors[index];
      (Scale(color % 32), Scale(color / 32 % 32), Scale(color / 1024 % 32))
    else (0, 0, 0)
  }

  // ---------------------------------------------------------------------
  // Animation keyframes

  /** `BannerKeyframe::frame_duration`: the low byte of the keyframe word. */
  function FrameDuration(k: u16): nat {
    k % 0x100
  }

  /** `BannerKeyframe::bitmap_index`: bits 8-10. */
  function BitmapIndex(k: u16): nat {
    k / 0x100 % 8
  }

  /** `BannerKeyframe::palette_index`: bits 11-13. */
  function PaletteIndex(k: u16): nat {
    k / 0x800 % 8
  }

  /** `BannerKeyframe::flip_horizontally`: bit 14. */
  predicate FlipHorizontally(k: u16) {
    k / 0x4000 % 2 == 1
  }

  /** `BannerKeyframe::flip_vertically`: bit 15. */
  predicate FlipVertically(k: u16) {
    k / 0x8000 % 2 == 1
  }

  /** The keyframe word holding the given duration, indices and flips. */
  function KeyframeWord(duration: nat, bitmap: nat, palette: nat, horizontal: bool, vertical: bool): nat {
    duration + 0x100 * bitmap + 0x800 * palette + 0x4000 * (if horizontal then 1 else 0) + 0x8000 * (if vertical then 1 else 0)
  }

  /** The five getters split the keyframe word into disjoint fields that cover it. */
  lemma {:induction false} KeyframeFields(k: u16)
    ensures FrameDuration(k) < 0x100 && BitmapIndex(k) < 8 && PaletteIndex(k) < 8
    ensures k == KeyframeWord(FrameDuration(k), BitmapIndex(k), PaletteIndex(k), FlipHorizontally(k), FlipVertically(k))
  {
    var q1 := k / 0x100;
    var q2 := q1 / 8;
    var q3 := q2 / 8;
    var q4 := q3 / 2;
    DivDiv(k, 0x100, 8);
    DivDiv(k, 0x800, 8);
    DivDiv(k, 0x4000, 2);
    assert q2 == k / 0x800 && q3 == k / 0x4000 && q4 == k / 0x8000;
    assert q4 < 2;
  }

  /** Each getter reads back its field from a word built of fields that fit. */
  lemma {:induction false} KeyframeGetters(duration: nat, bitmap: nat, palette: nat, horizontal: bool, vertical: bool)
    requires duration < 0x100 && bitmap < 8 && palette < 8
    ensures KeyframeWord(duration, bitmap, palette, horizontal, vertical) < 0x1_0000
    ensures var k: u16 := KeyframeWord(duration, bitmap, palette, horizontal, vertical);
      FrameDuration(k) == duration && BitmapIndex(k) == bitmap && PaletteIndex(k) == palette &&
      FlipHorizontally(k) == horizontal && FlipVertically(k) == vertical
  {
    var h, v := if horizontal then 1 else 0, if vertical then 1 else 0;
    var top := palette + 8 * (h + 2 * v);
    var k := KeyframeWord(duration, bitmap, palette, horizontal, vertical);
    assert k == duration + 0x100 * (bitmap + 8 * top);
    DivMixed(duration, 0x100, bitmap + 8 * top);
    DivMixed(bitmap, 8, top);
    DivDiv(k, 0x100, 8);
    DivMixed(palette, 8, h + 2 * v);
    DivDiv(k, 0x800, 8);
    DivMixed(h, 2, v);
    DivDiv(k, 0x4000, 2);
  }
}
