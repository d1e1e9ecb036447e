/**
 * The banner as the tool edits it (lib/src/rom/banner.rs): the version,
 * the titles, the icon, and optional animation keyframes. `load_raw`
 * reads one out of a raw banner; `build` writes a fresh raw banner and
 * stamps the CRC-16 of every version up to its own.
 *
 * A title is held as the 0x100-byte image of its slot: the conversion
 * between strings and UTF-16 arrays is not part of this model. Which bytes
 * each version's CRC covers is a parameter (`CrcRange`), as the function
 * that decides it is not part of this model either.
 */
module Banners {
  import opened Common
  import RawBanner
  import Crc16

  type Version = RawBanner.BannerVersion
  type Language = RawBanner.Language

  /** The titles, one per language; Chinese and Korean only where the banner has them. */
  datatype BannerTitle = BannerTitle(
    japanese: seq<byte>,
    english: seq<byte>,
    french: seq<byte>,
    german: seq<byte>,
    italian: seq<byte>,
    spanish: seq<byte>,
    chinese: Option<seq<byte>>,
    korean: Option<seq<byte>>)

  /** The icon: a 4-bit 32x32 bitmap and its palette, as raw bytes. */
  datatype BannerImages = BannerImages(bitmap: seq<byte>, palette: seq<byte>)

  datatype BannerKeyframe = BannerKeyframe(flipVertically: bool, flipHorizontally: bool, palette: nat, bitmap: nat, frameDuration: nat)

  datatype Banner = Banner(version: Version, title: BannerTitle, images: BannerImages, keyframes: Option<seq<BannerKeyframe>>)

  datatype BannerError =
    | RawBanner(source: RawBanner.RawBannerError)
    | TooManyKeyframes(maxKeyframes: nat, keyframes: nat)
    | VersionNotSupported(maxVersion: Version, version: Version)

  /** The most keyframes an animation holds. */
  const MaxKeyframes: nat := 64

  /** The title a banner holds for a language, if it holds one. */
  function TitleText(t: BannerTitle, l: Language): Option<seq<byte>> {
    match l
    case Japanese => Some(t.japanese)
    case English => Some(t.english)
    case French => Some(t.french)
    case German => Some(t.german)
    case Italian => Some(t.italian)
    case Spanish => Some(t.spanish)
    case Chinese => t.chinese
    case Korean => t.korean
  }

  /** Every title fills its slot and the icon has its fixed sizes, as the source's array types ensure. */
  predicate Sized(b: Banner) {
    (forall l :: TitleText(b.title, l).Some? ==> |TitleText(b.title, l).value| == RawBanner.TitleSize) &&
    |b.images.bitmap| == RawBanner.BitmapSize && |b.images.palette| == RawBanner.PaletteSize
  }

  // ---------------------------------------------------------------------
  // Title slots

  /** The language whose slot has the given index: the inverse of `language as usize`. */
  function LanguageAt(k: nat): (l: Language)
    requires k < 8
    ensures RawBanner.LanguageIndex(l) == k
  {
    match k
    case 0 => RawBanner.Japanese
    case 1 => RawBanner.English
    case 2 => RawBanner.French
    case 3 => RawBanner.German
    case 4 => RawBanner.Italian
    case 5 => RawBanner.Spanish
    case 6 => RawBanner.Chinese
    case _ => RawBanner.Korean
  }

  /** The language whose title slot holds byte `i` of a banner, if any. */
  function SlotOf(i: nat): Option<Language> {
    if 0x240 <= i < 0x240 + 8 * RawBanner.TitleSize then Some(LanguageAt((i - 0x240) / RawBanner.TitleSize)) else None
  }

  /** `SlotOf` names exactly the slot a byte lies in. */
  lemma {:induction false} SlotOfTitle(l: Language, i: nat)
    ensures SlotOf(i) == Some(l) <==> RawBanner.TitleAt(l) <= i < RawBanner.TitleAt(l) + RawBanner.TitleSize
  {
    var k := RawBanner.LanguageIndex(l);
    if RawBanner.TitleAt(l) <= i < RawBanner.TitleAt(l) + RawBanner.TitleSize {
      DivMixed(i - RawBanner.TitleAt(l), RawBanner.TitleSize, k);
    }
  }

  // ---------------------------------------------------------------------
  // Loading

  /** `load_title`: the slot's title when the given version has the language, else none. */
  function LoadTitle(raw: RawBanner.Banner, version: Version, l: Language): (r: Option<seq<byte>>)
    requires RawBanner.Valid(raw)
    ensures r.Some? <==> RawBanner.SupportsLanguage(version, l) && RawBanner.SupportsLanguage(raw.version, l)
    ensures r.Some? ==> r == RawBanner.Title(raw, l)
  {
    if RawBanner.SupportsLanguage(version, l) then RawBanner.Title(raw, l) else None
  }

  /**
   * `load_raw`: the six base titles (always present), Chinese and Korean
   * where the version has them, the icon, and no keyframes.
   */
  function LoadRaw(raw: RawBanner.Banner): (r: Banner)
    requires RawBanner.Valid(raw)
    ensures Sized(r) && r.version == raw.version && r.keyframes.None?
    ensures forall l :: TitleText(r.title, l) == RawBanner.Title(raw, l)
    ensures r.images == BannerImages(RawBanner.Bitmap(raw), RawBanner.Palette(raw))
  {
    var v := raw.version;
    var title := BannerTitle(
      LoadTitle(raw, v, RawBanner.Japanese).value,
      LoadTitle(raw, v, RawBanner.English).value,
      LoadTitle(raw, v, RawBanner.French).value,
      LoadTitle(raw, v, RawBanner.German).value,
      LoadTitle(raw, v, RawBanner.Italian).value,
      LoadTitle(raw, v, RawBanner.Spanish).value,
      LoadTitle(raw, v, RawBanner.Chinese),
      LoadTitle(raw, v, RawBanner.Korean));
    var r := Banner(v, title, BannerImages(RawBanner.Bitmap(raw), RawBanner.Palette(raw)), None);
    r
  }

  // ---------------------------------------------------------------------
  // Building

  /** Whether `build` writes a title into the slot of `l`: the version has the slot and the banner has the title. */
  predicate Written(t: BannerTitle, v: Version, l: Language) {
    RawBanner.SupportsLanguage(v, l) && TitleText(t, l).Some?
  }

  /** `copy_title!`: the title goes into its slot when the version has one; nothing else changes. */
  function CopyTitle(raw: RawBanner.Banner, l: Language, text: seq<byte>): (r: RawBanner.Banner)
    requires RawBanner.Valid(raw) && |text| == RawBanner.TitleSize
    ensures RawBanner.Valid(r) && r.version == raw.version
    ensures forall i :: 0 <= i < |raw.data| ==>
      r.data[i] == if RawBanner.SupportsLanguage(raw.version, l) && RawBanner.TitleAt(l) <= i < RawBanner.TitleAt(l) + RawBanner.TitleSize
                   then text[i - RawBanner.TitleAt(l)] else raw.data[i]
  {
    match RawBanner.WithTitle(raw, l, text)
    case None => raw
    case Some(r) =>
      assert forall j :: 0 <= j < RawBanner.TitleSize ==> r.data[RawBanner.TitleAt(l) + j] == text[j] by {
        assert RawBanner.Title(r, l) == Some(text);
      }
      r
  }

  /** The copies for the languages of `ls`, in order: each written title lands in its slot. */
  function CopyTitles(raw: RawBanner.Banner, t: BannerTitle, ls: seq<Language>): (r: RawBanner.Banner)
    requires RawBanner.Valid(raw)
    requires forall l :: TitleText(t, l).Some? ==> |TitleText(t, l).value| == RawBanner.TitleSize
    ensures RawBanner.Valid(r) && r.version == raw.version
    ensures forall i :: 0 <= i < |raw.data| ==>
      r.data[i] == if SlotOf(i).Some? && SlotOf(i).value in ls && Written(t, raw.version, SlotOf(i).value)
                   then TitleText(t, SlotOf(i).value).value[i - RawBanner.TitleAt(SlotOf(i).value)] else raw.data[i]
    decreases |ls|
  {
    if ls == [] then raw
    else
      var l := ls[0];
      var next := match TitleText(t, l) case None => raw case Some(text) => CopyTitle(raw, l, text);
      var r := CopyTitles(next, t, ls[1..]);
      assert forall i :: 0 <= i < |raw.data| ==>
        r.data[i] == if SlotOf(i).Some? && SlotOf(i).value in ls && Written(t, raw.version, SlotOf(i).value)
                     then TitleText(t, SlotOf(i).value).value[i - RawBanner.TitleAt(SlotOf(i).value)] else raw.data[i] by {
        forall i | 0 <= i < |raw.data|
          ensures r.data[i] == if SlotOf(i).Some? && SlotOf(i).value in ls && Written(t, raw.version, SlotOf(i).value)
                               then TitleText(t, SlotOf(i).value).value[i - RawBanner.TitleAt(SlotOf(i).value)] else raw.data[i]
        {
          SlotOfTitle(l, i);
          if SlotOf(i).Some? {
            assert SlotOf(i).value in ls <==> SlotOf(i).value == l || SlotOf(i).value in ls[1..];
            SlotOfTitle(SlotOf(i).value, i);
          }
        }
      }
      r
  }

  /** The languages in the order `copy_to_banner` writes them. */
  const Languages: seq<Language> := [RawBanner.Japanese, RawBanner.English, RawBanner.French, RawBanner.German,
                                     RawBanner.Italian, RawBanner.Spanish, RawBanner.Chinese, RawBanner.Korean]

  /** `BannerTitle::copy_to_banner`: every title the banner has goes into its slot if the version has one. */
  function CopyToBanner(t: BannerTitle, raw: RawBanner.Banner): (r: RawBanner.Banner)
    requires RawBanner.Valid(raw)
    requires forall l :: TitleText(t, l).Some? ==> |TitleText(t, l).value| == RawBanner.TitleSize
    ensures RawBanner.Valid(r) && r.version == raw.version
    ensures forall i :: 0 <= i < |raw.data| ==>
      r.data[i] == if SlotOf(i).Some? && Written(t, raw.version, SlotOf(i).value)
                   then TitleText(t, SlotOf(i).value).value[i - RawBanner.TitleAt(SlotOf(i).value)] else raw.data[i]
  {
    assert forall l :: l in Languages[..8] by {
      forall l ensures l in Languages[..8] {
        assert Languages[..8][RawBanner.LanguageIndex(l)] == l;
      }
    }
    // The list is passed as a slice so that callers see the copies only through this contract.
    CopyTitles(raw, t, Languages[..8])
  }

  /** The byte `copy_to_banner` leaves at offset `i` of a zeroed banner: a written title's, or zero. */
  function TitleByte(b: Banner, i: nat): byte
    requires Sized(b)
  {
    match SlotOf(i)
    case Some(l) =>
      if Written(b.title, b.version, l) then
        SlotOfTitle(l, i);
        TitleText(b.title, l).value[i - RawBanner.TitleAt(l)]
      else 0
    case None => 0
  }

  /**
   * The byte `build` leaves at offset `i`, past the version word and the
   * CRC slots, before it stamps the CRCs: the palette, the bitmap, the
   * titles it writes, and zeros everywhere else.
   */
  function Drawn(b: Banner, i: nat): byte
    requires Sized(b)
  {
    if RawBanner.PaletteAt <= i < RawBanner.PaletteAt + RawBanner.PaletteSize then b.images.palette[i - RawBanner.PaletteAt]
    else if RawBanner.BitmapAt <= i < RawBanner.BitmapAt + RawBanner.BitmapSize then b.images.bitmap[i - RawBanner.BitmapAt]
    else TitleByte(b, i)
  }

  /** Where the CRC slots end: every range a CRC covers starts here or later. */
  const CrcSlotsEnd: nat := 10

  /** The bytes each version's CRC covers, as a half-open range of offsets. */
  type CrcRange = Version -> (nat, nat)

  /** Each version's range lies inside that version's banner and past the CRC slots. */
  predicate RangesInside(range: CrcRange) {
    forall v :: CrcSlotsEnd <= range(v).0 <= range(v).1 <= RawBanner.BannerSize(v)
  }

  /** `Banner::new` followed by `copy_to_banner`: the written titles in their slots, zeros past the version word elsewhere. */
  function Titled(b: Banner): (r: RawBanner.Banner)
    requires Sized(b)
    ensures RawBanner.Valid(r) && r.version == b.version
    ensures forall i :: 2 <= i < |r.data| ==> r.data[i] == TitleByte(b, i)
  {
    var blank := RawBanner.New(b.version);
    var r := CopyToBanner(b.title, blank);
    forall i | 2 <= i < |r.data|
      ensures r.data[i] == TitleByte(b, i)
    {
      if !(SlotOf(i).Some? && Written(b.title, b.version, SlotOf(i).value)) {
        assert r.data[i] == blank.data[i];
      }
    }
    r
  }

  /**
   * `Banner::new` followed by `copy_to_banner` and the icon stores: the
   * version word, zeroed CRC slots, and the drawn bytes everywhere else.
   */
  function Paint(b: Banner): (r: RawBanner.Banner)
    requires Sized(b)
    ensures RawBanner.Valid(r) && r.version == b.version
    ensures forall i :: 2 <= i < CrcSlotsEnd ==> r.data[i] == 0
    ensures forall i :: CrcSlotsEnd <= i < |r.data| ==> r.data[i] == Drawn(b, i)
  {
    var titled := Titled(b);
    var withIcon := RawBanner.WithBitmap(titled, b.images.bitmap);
    var r := RawBanner.WithPalette(withIcon, b.images.palette);
    forall i | 2 <= i < |r.data|
      ensures i < CrcSlotsEnd ==> r.data[i] == 0
      ensures CrcSlotsEnd <= i ==> r.data[i] == Drawn(b, i)
    {
      if RawBanner.PaletteAt <= i < RawBanner.PaletteAt + RawBanner.PaletteSize {
      } else if RawBanner.BitmapAt <= i < RawBanner.BitmapAt + RawBanner.BitmapSize {
        assert r.data[i] == withIcon.data[i];
      } else {
        assert r.data[i] == withIcon.data[i] == titled.data[i];
      }
    }
    r
  }

  /**
   * `Banner::crc`: when the banner is at least version `w`, `w`'s slot gets
   * the checksum of `w`'s range; nothing else changes, and nothing at all
   * for a later version.
   */
  function Stamp(raw: RawBanner.Banner, w: Version, range: CrcRange): (r: RawBanner.Banner)
    requires RawBanner.Valid(raw) && RangesInside(range)
    ensures RawBanner.Valid(r) && r.version == raw.version
    ensures !RawBanner.AtLeast(raw.version, w) ==> r == raw
    ensures RawBanner.AtLeast(raw.version, w) ==>
      range(w).1 <= |raw.data| &&
      RawBanner.Crc(r, RawBanner.CrcIndex(w)) == Crc16.Checksum(raw.data[range(w).0..range(w).1])
    ensures forall i :: 0 <= i < |raw.data| && !(RawBanner.CrcAt(RawBanner.CrcIndex(w)) <= i < RawBanner.CrcAt(RawBanner.CrcIndex(w)) + 2) ==>
      r.data[i] == raw.data[i]
  {
    if !RawBanner.AtLeast(raw.version, w) then raw
    else
      RawBanner.SizeMonotone(raw.version, w);
      RawBanner.WithCrc(raw, RawBanner.CrcIndex(w), Crc16.Checksum(raw.data[range(w).0..range(w).1]))
  }

  /** Two banners that agree past the CRC slots agree on every CRC range inside them. */
  lemma {:induction false} SameRange(a: seq<byte>, b: seq<byte>, lo: nat, hi: nat)
    requires |a| == |b| && CrcSlotsEnd <= lo <= hi <= |a|
    requires forall i :: CrcSlotsEnd <= i < |a| ==> a[i] == b[i]
    ensures a[lo..hi] == b[lo..hi]
  {
    assert forall k :: 0 <= k < hi - lo ==> a[lo..hi][k] == b[lo..hi][k];
  }

  /**
   * The `crc` calls for the versions of `ws`, in order: each listed version
   * up to the banner's own gets the checksum of its range, the other slots
   * keep their values, and nothing past the slots changes.
   */
  function StampEach(raw: RawBanner.Banner, ws: seq<Version>, range: CrcRange): (r: RawBanner.Banner)
    requires RawBanner.Valid(raw) && RangesInside(range)
    ensures RawBanner.Valid(r) && r.version == raw.version
    ensures forall i :: CrcSlotsEnd <= i < |r.data| ==> r.data[i] == raw.data[i]
    ensures forall w :: w in ws && RawBanner.AtLeast(raw.version, w) ==>
      range(w).1 <= |raw.data| &&
      RawBanner.Crc(r, RawBanner.CrcIndex(w)) == Crc16.Checksum(raw.data[range(w).0..range(w).1])
    ensures forall w :: (w !in ws || !RawBanner.AtLeast(raw.version, w)) ==>
      RawBanner.Crc(r, RawBanner.CrcIndex(w)) == RawBanner.Crc(raw, RawBanner.CrcIndex(w))
    decreases |ws|
  {
    if ws == [] then raw
    else
      var s := Stamp(raw, ws[0], range);
      var r := StampEach(s, ws[1..], range);
      forall w | w in ws
        ensures RawBanner.AtLeast(raw.version, w) ==>
          range(w).1 <= |raw.data| &&
          RawBanner.Crc(r, RawBanner.CrcIndex(w)) == Crc16.Checksum(raw.data[range(w).0..range(w).1])
        ensures !RawBanner.AtLeast(raw.version, w) ==>
          RawBanner.Crc(r, RawBanner.CrcIndex(w)) == RawBanner.Crc(raw, RawBanner.CrcIndex(w))
      {
        RawBanner.SizeMonotone(raw.version, w);
        RawBanner.CrcIndexInjective(w, ws[0]);
        if RawBanner.AtLeast(raw.version, w) {
          SameRange(s.data, raw.data, range(w).0, range(w).1);
        }
        assert w == ws[0] || w in ws[1..];
      }
      forall w | w !in ws
        ensures RawBanner.Crc(r, RawBanner.CrcIndex(w)) == RawBanner.Crc(raw, RawBanner.CrcIndex(w))
      {
        RawBanner.CrcIndexInjective(w, ws[0]);
        assert w !in ws[1..];
      }
      r
  }

  /** The versions whose CRCs `build` stamps, oldest first. */
  const Versions: seq<Version> := [RawBanner.Original, RawBanner.China, RawBanner.Korea, RawBanner.Animated]

  /**
   * The four `crc` calls of `build`: each version up to the banner's own
   * holds the checksum of its range of the finished banner, the others
   * keep their slots, and nothing past the slots changes.
   */
  function StampAll(raw: RawBanner.Banner, range: CrcRange): (r: RawBanner.Banner)
    requires RawBanner.Valid(raw) && RangesInside(range)
    ensures RawBanner.Valid(r) && r.version == raw.version
    ensures forall i :: CrcSlotsEnd <= i < |r.data| ==> r.data[i] == raw.data[i]
    ensures forall w :: RawBanner.AtLeast(raw.version, w) ==>
      range(w).1 <= |r.data| && RawBanner.Crc(r, RawBanner.CrcIndex(w)) == Crc16.Checksum(r.data[range(w).0..range(w).1])
    ensures forall w :: !RawBanner.AtLeast(raw.version, w) ==> RawBanner.Crc(r, RawBanner.CrcIndex(w)) == RawBanner.Crc(raw, RawBanner.CrcIndex(w))
  {
    // As in `CopyToBanner`, a slice keeps callers from unfolding the four stamps.
    var r := StampEach(raw, Versions[..4], range);
    forall w | RawBanner.AtLeast(raw.version, w)
      ensures range(w).1 <= |r.data| && RawBanner.Crc(r, RawBanner.CrcIndex(w)) == Crc16.Checksum(r.data[range(w).0..range(w).1])
    {
      assert Versions[..4][RawBanner.CrcIndex(w)] == w;
      SameRange(r.data, raw.data, range(w).0, range(w).1);
    }
    r
  }

  /**
   * The CRC slots of a raw banner as `build` leaves them: each version up
   * to the banner's own holds the checksum of its range, the later ones
   * hold zero.
   */
  predicate Stamps(x: RawBanner.Banner, range: CrcRange)
    requires RangesInside(range)
  {
    RawBanner.Valid(x) &&
    (forall w :: RawBanner.AtLeast(x.version, w) ==>
       range(w).1 <= |x.data| && RawBanner.Crc(x, RawBanner.CrcIndex(w)) == Crc16.Checksum(x.data[range(w).0..range(w).1])) &&
    (forall w :: !RawBanner.AtLeast(x.version, w) ==> RawBanner.Crc(x, RawBanner.CrcIndex(w)) == 0)
  }

  /** A raw banner as `build` finishes it from `b`: `b`'s version, the drawn bytes past the CRC slots, and the stamped slots. */
  predicate Finished(s: RawBanner.Banner, b: Banner, range: CrcRange)
    requires Sized(b) && RangesInside(range)
  {
    Stamps(s, range) && s.version == b.version &&
    forall i :: CrcSlotsEnd <= i < |s.data| ==> s.data[i] == Drawn(b, i)
  }

  /**
   * The banner `build` returns when it succeeds: the drawn bytes, with the
   * CRC of every version up to the banner's own stamped over the finished
   * bytes and the later slots left zero.
   */
  function Stamped(b: Banner, range: CrcRange): (r: RawBanner.Banner)
    requires Sized(b) && RangesInside(range)
    ensures Finished(r, b, range)
  {
    var painted := Paint(b);
    forall k | 0 <= k < 4 ensures RawBanner.Crc(painted, k) == 0 {
      assert painted.data[RawBanner.CrcAt(k)] == 0 && painted.data[RawBanner.CrcAt(k) + 1] == 0;
    }
    StampAll(painted, range)
  }

  /** `animation_mut` on a banner without an animation: the version error. */
  function AnimationMut(raw: RawBanner.Banner): (e: RawBanner.RawBannerError)
    requires RawBanner.Valid(raw) && !RawBanner.HasAnimation(raw.version)
    ensures e == RawBanner.NotSupported(RawBanner.VersionValue(RawBanner.Animated), RawBanner.VersionValue(raw.version))
  {
    RawBanner.Animation(raw).error
  }

  /**
   * `Banner::build`: refused above the Korean version (the animated icon is
   * not built yet) and for any keyframes, which either exceed the 64 an
   * animation holds or meet a version without one; otherwise the stamped
   * banner.
   */
  function Build(b: Banner, range: CrcRange): (r: Result<RawBanner.Banner, BannerError>)
    requires Sized(b) && RangesInside(range)
    ensures r.Err? <==> !RawBanner.AtLeast(RawBanner.Korea, b.version) || b.keyframes.Some?
    ensures !RawBanner.AtLeast(RawBanner.Korea, b.version) ==> r == Err(VersionNotSupported(RawBanner.Korea, b.version))
    ensures RawBanner.AtLeast(RawBanner.Korea, b.version) && b.keyframes.Some? ==>
      r == Err(if |b.keyframes.value| > MaxKeyframes then TooManyKeyframes(MaxKeyframes, |b.keyframes.value|)
               else RawBanner(RawBanner.NotSupported(RawBanner.VersionValue(RawBanner.Animated), RawBanner.VersionValue(b.version))))
    ensures r.Ok? ==> r.value == Stamped(b, range)
  {
    if !RawBanner.AtLeast(RawBanner.Korea, b.version) then Err(VersionNotSupported(RawBanner.Korea, b.version))
    else
      match b.keyframes
      case Some(keyframes) =>
        if |keyframes| > MaxKeyframes then Err(TooManyKeyframes(MaxKeyframes, |keyframes|))
        else Err(RawBanner(AnimationMut(Paint(b))))
      case None => Ok(Stamped(b, range))
  }

  /** What `build` writes into the slots a reader sees: the icon, and each title the version has, zeros where the banner lacks one. */
  lemma {:induction false} BuildContents(b: Banner, range: CrcRange, l: Language)
    requires Sized(b) && RangesInside(range) && Build(b, range).Ok?
    ensures RawBanner.Bitmap(Build(b, range).value) == b.images.bitmap
    ensures RawBanner.Palette(Build(b, range).value) == b.images.palette
    ensures RawBanner.Title(Build(b, range).value, l) ==
      if !RawBanner.SupportsLanguage(b.version, l) then None
      else Some(if TitleText(b.title, l).Some? then TitleText(b.title, l).value else Fill(0, RawBanner.TitleSize))
  {
    DrawnIcon(b, Build(b, range).value);
    DrawnTitle(b, Build(b, range).value, l);
  }

  /** A banner whose bytes past the CRC slots are the drawn ones holds the banner's icon. */
  lemma {:induction false} DrawnIcon(b: Banner, r: RawBanner.Banner)
    requires Sized(b) && RawBanner.Valid(r) && r.version == b.version
    requires forall i :: CrcSlotsEnd <= i < |r.data| ==> r.data[i] == Drawn(b, i)
    ensures RawBanner.Bitmap(r) == b.images.bitmap
    ensures RawBanner.Palette(r) == b.images.palette
  {
    forall k | 0 <= k < RawBanner.BitmapSize ensures RawBanner.Bitmap(r)[k] == b.images.bitmap[k] {
      assert r.data[RawBanner.BitmapAt + k] == Drawn(b, RawBanner.BitmapAt + k);
    }
    forall k | 0 <= k < RawBanner.PaletteSize ensures RawBanner.Palette(r)[k] == b.images.palette[k] {
      assert r.data[RawBanner.PaletteAt + k] == Drawn(b, RawBanner.PaletteAt + k);
    }
  }

  /** A banner whose bytes past the CRC slots are the drawn ones holds each written title, and zeros in the other slots. */
  lemma {:induction false} DrawnTitle(b: Banner, r: RawBanner.Banner, l: Language)
    requires Sized(b) && RawBanner.Valid(r) && r.version == b.version
    requires forall i :: CrcSlotsEnd <= i < |r.data| ==> r.data[i] == Drawn(b, i)
    ensures RawBanner.Title(r, l) ==
      if !RawBanner.SupportsLanguage(b.version, l) then None
      else Some(if TitleText(b.title, l).Some? then TitleText(b.title, l).value else Fill(0, RawBanner.TitleSize))
  {
    if RawBanner.SupportsLanguage(b.version, l) {
      RawBanner.SlotsInside(b.version, l);
      var text := if TitleText(b.title, l).Some? then TitleText(b.title, l).value else Fill(0, RawBanner.TitleSize);
      forall k | 0 <= k < RawBanner.TitleSize ensures RawBanner.Title(r, l).value[k] == text[k] {
        TitleByteAt(b, l, k);
        assert r.data[RawBanner.TitleAt(l) + k] == Drawn(b, RawBanner.TitleAt(l) + k);
      }
      var title := RawBanner.Title(r, l);
      assert |title.value| == |text|;
      assert title.value == text;
    }
  }

  /** Byte `k` of a title slot, as `build` draws it: the title's byte when it writes one, else zero. */
  lemma {:induction false} TitleByteAt(b: Banner, l: Language, k: nat)
    requires Sized(b) && k < RawBanner.TitleSize
    ensures Drawn(b, RawBanner.TitleAt(l) + k) ==
      if Written(b.title, b.version, l) then TitleText(b.title, l).value[k] else 0
  {
    SlotOfTitle(l, RawBanner.TitleAt(l) + k);
    RawBanner.TitleSlotsDisjoint(l, l);
  }

  /** The titles a banner holds are exactly the ones its version has slots for. */
  predicate TitlesMatchVersion(b: Banner) {
    (b.title.chinese.Some? <==> RawBanner.HasChinese(b.version)) &&
    (b.title.korean.Some? <==> RawBanner.HasKorean(b.version))
  }

  /** A banner whose bytes past the CRC slots are the drawn ones reads back as `b`, when `b`'s titles match its version. */
  lemma {:induction false} LoadDrawn(b: Banner, r: RawBanner.Banner)
    requires Sized(b) && b.keyframes.None? && TitlesMatchVersion(b)
    requires RawBanner.Valid(r) && r.version == b.version
    requires forall i :: CrcSlotsEnd <= i < |r.data| ==> r.data[i] == Drawn(b, i)
    ensures LoadRaw(r) == b
  {
    var loaded := LoadRaw(r);
    DrawnIcon(b, r);
    forall l ensures TitleText(loaded.title, l) == TitleText(b.title, l) {
      DrawnTitle(b, r, l);
    }
    SameTitles(loaded.title, b.title);
  }

  /** Two titles that agree in every language are the same. */
  lemma {:induction false} SameTitles(s: BannerTitle, t: BannerTitle)
    requires forall l :: TitleText(s, l) == TitleText(t, l)
    ensures s == t
  {
    assert TitleText(s, RawBanner.Japanese) == TitleText(t, RawBanner.Japanese);
    assert TitleText(s, RawBanner.English) == TitleText(t, RawBanner.English);
    assert TitleText(s, RawBanner.French) == TitleText(t, RawBanner.French);
    assert TitleText(s, RawBanner.German) == TitleText(t, RawBanner.German);
    assert TitleText(s, RawBanner.Italian) == TitleText(t, RawBanner.Italian);
    assert TitleText(s, RawBanner.Spanish) == TitleText(t, RawBanner.Spanish);
    assert TitleText(s, RawBanner.Chinese) == TitleText(t, RawBanner.Chinese);
    assert TitleText(s, RawBanner.Korean) == TitleText(t, RawBanner.Korean);
  }

  /**
   * A banner `build` accepts, whose titles match its version, is read back
   * unchanged by `load_raw`.
   */
  lemma {:induction false} LoadBuilt(b: Banner, range: CrcRange)
    requires Sized(b) && RangesInside(range)
    requires RawBanner.AtLeast(RawBanner.Korea, b.version) && b.keyframes.None? && TitlesMatchVersion(b)
    ensures Build(b, range).Ok? && LoadRaw(Build(b, range).value) == b
  {
    BuildAccepts(b, range);
    LoadDrawn(b, Stamped(b, range));
  }

  /** `build` accepts every banner up to the Korean version without keyframes. */
  lemma {:induction false} BuildAccepts(b: Banner, range: CrcRange)
    requires Sized(b) && RangesInside(range)
    requires RawBanner.AtLeast(RawBanner.Korea, b.version) && b.keyframes.None?
    ensures Build(b, range) == Ok(Stamped(b, range))
  {
  }

  /** The bytes `build` leaves zero: between the CRC slots and the icon, and past the icon outside every title slot the version has. */
  predicate Reserved(v: Version, i: nat) {
    (CrcSlotsEnd <= i < RawBanner.BitmapAt) ||
    (RawBanner.PaletteAt + RawBanner.PaletteSize <= i && !(SlotOf(i).Some? && RawBanner.SupportsLanguage(v, SlotOf(i).value)))
  }

  /**
   * A raw banner in the form `build` writes: a version up to Korean, zeros
   * in the reserved bytes, the checksum of each version up to its own in
   * that version's slot, and zeros in the later slots.
   */
  predicate InBuildForm(raw: RawBanner.Banner, range: CrcRange)
    requires RangesInside(range)
  {
    Stamps(raw, range) && RawBanner.AtLeast(RawBanner.Korea, raw.version) &&
    forall i :: 0 <= i < |raw.data| && Reserved(raw.version, i) ==> raw.data[i] == 0
  }

  /** `build` leaves the reserved bytes zero. */
  lemma {:induction false} DrawnReserved(b: Banner, i: nat)
    requires Sized(b) && Reserved(b.version, i)
    ensures Drawn(b, i) == 0
  {
  }

  /** `b` holds what `load_raw` reads out of `raw`. */
  predicate ReadFrom(b: Banner, raw: RawBanner.Banner)
    requires RawBanner.Valid(raw)
  {
    b.version == raw.version && b.images == BannerImages(RawBanner.Bitmap(raw), RawBanner.Palette(raw)) &&
    forall l :: TitleText(b.title, l) == RawBanner.Title(raw, l)
  }

  /** Past the CRC slots, every byte a reader sees in a raw banner is drawn back in place from what `load_raw` reads. */
  lemma {:induction false} DrawnLoaded(b: Banner, raw: RawBanner.Banner, i: nat)
    requires RawBanner.Valid(raw) && Sized(b) && ReadFrom(b, raw)
    requires CrcSlotsEnd <= i < |raw.data| && !Reserved(raw.version, i)
    ensures Drawn(b, i) == raw.data[i]
  {
    if RawBanner.PaletteAt <= i < RawBanner.PaletteAt + RawBanner.PaletteSize {
      assert b.images.palette[i - RawBanner.PaletteAt] == raw.data[i];
    } else if RawBanner.BitmapAt <= i < RawBanner.BitmapAt + RawBanner.BitmapSize {
      assert b.images.bitmap[i - RawBanner.BitmapAt] == raw.data[i];
    } else {
      TitleLoaded(b, raw, SlotOf(i).value, i);
    }
  }

  /** The title case of `DrawnLoaded`. */
  lemma {:induction false} TitleLoaded(b: Banner, raw: RawBanner.Banner, l: Language, i: nat)
    requires RawBanner.Valid(raw) && Sized(b) && ReadFrom(b, raw)
    requires SlotOf(i) == Some(l) && RawBanner.SupportsLanguage(raw.version, l)
    ensures TitleByte(b, i) == raw.data[i]
  {
    SlotOfTitle(l, i);
    assert TitleText(b.title, l) == RawBanner.Title(raw, l);
    assert RawBanner.Title(raw, l).value[i - RawBanner.TitleAt(l)] == raw.data[i];
  }

  /** Two byte strings that spell the same word at `j` agree on its two bytes. */
  lemma {:induction false} SameWord(a: seq<byte>, b: seq<byte>, j: nat)
    requires j + 2 <= |a| && j + 2 <= |b| && ReadU16(a, j) == ReadU16(b, j)
    ensures a[j] == b[j] && a[j + 1] == b[j + 1]
  {
    U16RoundTrip(0, a, j);
    U16RoundTrip(0, b, j);
    assert a[j..j + 2] == b[j..j + 2];
    assert a[j..j + 2][0] == a[j] && a[j..j + 2][1] == a[j + 1];
  }

  /** Past the CRC slots, a finished banner and a raw banner in build form agree, when the banner is what `load_raw` reads from the raw one. */
  lemma {:induction false} FinishedByte(b: Banner, raw: RawBanner.Banner, s: RawBanner.Banner, range: CrcRange, i: nat)
    requires RangesInside(range) && InBuildForm(raw, range) && Sized(b) && ReadFrom(b, raw) && Finished(s, b, range)
    requires CrcSlotsEnd <= i < |raw.data|
    ensures i < |s.data| && s.data[i] == raw.data[i]
  {
    if Reserved(raw.version, i) {
      DrawnReserved(b, i);
    } else {
      DrawnLoaded(b, raw, i);
    }
  }

  /** A finished banner is the raw banner in build form it was read from, CRCs included. */
  lemma {:induction false} FinishedIsRaw(b: Banner, raw: RawBanner.Banner, s: RawBanner.Banner, range: CrcRange)
    requires RangesInside(range) && InBuildForm(raw, range) && Sized(b) && ReadFrom(b, raw) && Finished(s, b, range)
    ensures s == raw
  {
    forall i | CrcSlotsEnd <= i < |raw.data| ensures s.data[i] == raw.data[i] {
      FinishedByte(b, raw, s, range, i);
    }
    SameHead(s, raw, range);
  }

  /** Two stamped banners of one version that agree past the CRC slots agree everywhere. */
  lemma {:induction false} SameHead(s: RawBanner.Banner, raw: RawBanner.Banner, range: CrcRange)
    requires RangesInside(range) && Stamps(s, range) && Stamps(raw, range) && s.version == raw.version
    requires forall i :: CrcSlotsEnd <= i < |raw.data| ==> s.data[i] == raw.data[i]
    ensures s == raw
  {
    forall w ensures RawBanner.Crc(s, RawBanner.CrcIndex(w)) == RawBanner.Crc(raw, RawBanner.CrcIndex(w)) {
      SameCrc(s, raw, range, w);
    }
    SameCrcs(s, raw);
    SameSlots(s.data, raw.data);
    assert s.data == raw.data;
  }

  /** Banners whose CRCs agree for every version agree in all four CRC words. */
  lemma {:induction false} SameCrcs(s: RawBanner.Banner, raw: RawBanner.Banner)
    requires RawBanner.Valid(s) && RawBanner.Valid(raw)
    requires forall w :: RawBanner.Crc(s, RawBanner.CrcIndex(w)) == RawBanner.Crc(raw, RawBanner.CrcIndex(w))
    ensures forall k :: 0 <= k < 4 ==> ReadU16(s.data, RawBanner.CrcAt(k)) == ReadU16(raw.data, RawBanner.CrcAt(k))
  {
    forall k | 0 <= k < 4 ensures ReadU16(s.data, RawBanner.CrcAt(k)) == ReadU16(raw.data, RawBanner.CrcAt(k)) {
      var w := Versions[k];
      assert RawBanner.CrcIndex(w) == k;
    }
  }

  /** Stamped banners of one version that agree past the CRC slots hold the same CRC for a version. */
  lemma {:induction false} SameCrc(s: RawBanner.Banner, raw: RawBanner.Banner, range: CrcRange, w: Version)
    requires RangesInside(range) && Stamps(s, range) && Stamps(raw, range) && s.version == raw.version
    requires forall i :: CrcSlotsEnd <= i < |raw.data| ==> s.data[i] == raw.data[i]
    ensures RawBanner.Crc(s, RawBanner.CrcIndex(w)) == RawBanner.Crc(raw, RawBanner.CrcIndex(w))
  {
    if RawBanner.AtLeast(s.version, w) {
      SameRange(s.data, raw.data, range(w).0, range(w).1);
    }
  }

  /** Sequences that agree in the version word, the four CRC words and past them agree everywhere. */
  lemma {:induction false} SameSlots(a: seq<byte>, b: seq<byte>)
    requires |a| == |b| && CrcSlotsEnd <= |a|
    requires ReadU16(a, 0) == ReadU16(b, 0)
    requires forall k :: 0 <= k < 4 ==> ReadU16(a, RawBanner.CrcAt(k)) == ReadU16(b, RawBanner.CrcAt(k))
    requires forall i :: CrcSlotsEnd <= i < |a| ==> a[i] == b[i]
    ensures a == b
  {
    forall i | 0 <= i < CrcSlotsEnd ensures a[i] == b[i] {
      if i < 2 {
        SameWord(a, b, 0);
      } else {
        SameWord(a, b, RawBanner.CrcAt((i - 2) / 2));
      }
    }
  }

  /** A finished banner up to the Korean version is in build form. */
  lemma {:induction false} FinishedInBuildForm(b: Banner, s: RawBanner.Banner, range: CrcRange)
    requires Sized(b) && RangesInside(range) && Finished(s, b, range) && RawBanner.AtLeast(RawBanner.Korea, b.version)
    ensures InBuildForm(s, range)
  {
    forall i | 0 <= i < |s.data| && Reserved(s.version, i) ensures s.data[i] == 0 {
      DrawnReserved(b, i);
    }
  }

  /**
   * `build` after `load_raw` gives back the very raw banner exactly when
   * that banner is in the form `build` writes.
   */
  lemma {:induction false} BuildLoaded(raw: RawBanner.Banner, range: CrcRange)
    requires RawBanner.Valid(raw) && RangesInside(range)
    ensures Build(LoadRaw(raw), range) == Ok(raw) <==> InBuildForm(raw, range)
  {
    var b := LoadRaw(raw);
    var s := Stamped(b, range);
    assert Finished(s, b, range);
    if InBuildForm(raw, range) {
      BuildAccepts(b, range);
      FinishedIsRaw(b, raw, s, range);
    }
    if Build(b, range) == Ok(raw) {
      FinishedInBuildForm(b, s, range);
    }
  }
}
