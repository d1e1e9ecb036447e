/**
 * The header logo (lib/src/rom/logo.rs): a 104x16 one-bit bitmap, stored
 * row by row with the leftmost pixel in the top bit of each byte, and its
 * compressed form in the ROM header: the bitmap rearranged into 8x8 tiles,
 * passed through the diff16 filter, framed by a header and a footer word,
 * Huffman coded with a fixed table and byte-swapped word by word.
 */
module Logo {
  import opened Common
  import opened Huffman

  const Width: nat := 104
  const Height: nat := 16
  /** Bytes in the bitmap: `WIDTH * HEIGHT / 8`. */
  const Size: nat := 208
  const LogoHeader: u32 := 0x0000_d082
  const LogoFooter: u32 := 0xfff4_c307
  /** Bytes `compress` produces. */
  const CompressedSize: nat := 0x9c

  /** The fixed code table `HUFFMAN`, listed by nibble value. */
  const Table: seq<Code> := [
    Code(1, 0x01), Code(4, 0x06), Code(5, 0x0a), Code(4, 0x04),
    Code(5, 0x02), Code(6, 0x1e), Code(6, 0x16), Code(6, 0x06),
    Code(5, 0x06), Code(6, 0x1f), Code(6, 0x17), Code(6, 0x07),
    Code(4, 0x02), Code(5, 0x0e), Code(5, 0x07), Code(4, 0x00)
  ]

  datatype LogoError =
    | InvalidHeader(expected: u32, actual: u32)
    | InvalidFooter(expected: u32, actual: u32)
    | WrongSize(expectedSize: nat, actualSize: nat)
    | Panic(cause: HuffmanError)  // a panic inside the Huffman decoder or the diff16 filter

  /** The bitmap, `SIZE` bytes. */
  datatype Logo = Logo(pixels: seq<byte>)

  predicate Valid(l: Logo) {
    |l.pixels| == Size
  }

  /** `Logo::default`: every pixel clear. */
  function Blank(): (r: Logo)
    ensures Valid(r)
  {
    Logo(Fill(0, Size))
  }

  // ---------------------------------------------------------------------
  // Bits of a byte. The bitwise expressions of the source act on the 8-bit
  // image of a byte; bit `k` is the one of weight 2^k.

  function ByteBits(b: byte): (r: seq<bool>)
    ensures |r| == 8
  {
    assert Pow2(8) == 0x100;
    NatBits(b, 8)
  }

  /** `b & (1 << k) != 0` */
  predicate TestBit(b: byte, k: nat)
    requires k < 8
  {
    ByteBits(b)[7 - k]
  }

  /** `b & !(1 << k) | (if v { 1 << k } else { 0 })`: bit `k` set to `v`, the others kept. */
  function SetBit(b: byte, k: nat, v: bool): (r: byte)
    requires k < 8
    ensures TestBit(r, k) == v
    ensures forall j :: 0 <= j < 8 && j != k ==> TestBit(r, j) == TestBit(b, j)
  {
    var bits := ByteBits(b)[7 - k := v];
    NatBitsOfValue(bits);
    assert Pow2(8) == 0x100;
    BitsValue(bits)
  }

  /** A byte is determined by its eight bits. */
  lemma {:induction false} BitsDetermine(a: byte, b: byte)
    requires forall k :: 0 <= k < 8 ==> TestBit(a, k) == TestBit(b, k)
    ensures a == b
  {
    assert Pow2(8) == 0x100;
    forall i | 0 <= i < 8 ensures ByteBits(a)[i] == ByteBits(b)[i] {
      assert TestBit(a, 7 - i) == TestBit(b, 7 - i);
    }
    assert ByteBits(a) == ByteBits(b);
    ValueOfNatBits(a, 8);
    ValueOfNatBits(b, 8);
  }

  /** No bit of zero is set. */
  lemma {:induction false} ZeroBits(k: nat)
    requires k < 8
    ensures !TestBit(0, k)
  {
    assert Pow2(8) == 0x100;
    assert ByteBits(0) == NatBits(0, 8);
  }

  // ---------------------------------------------------------------------
  // Pixels (get_pixel, set_pixel)

  /** `get_pixel`: the pixel at (x, y), or false when its byte is past the bitmap. */
  predicate GetPixel(l: Logo, x: nat, y: nat) {
    var index := (y * Width + x) / 8;
    if index >= |l.pixels| then false
    else TestBit(l.pixels[index], 7 - x % 8)  // `!x & 7`
  }

  /** `set_pixel`: the pixel at (x, y) set to `v`; nothing happens past the bitmap. */
  function SetPixel(l: Logo, x: nat, y: nat, v: bool): (r: Logo)
    ensures |r.pixels| == |l.pixels|
  {
    var index := (y * Width + x) / 8;
    if index < |l.pixels| then Logo(l.pixels[index := SetBit(l.pixels[index], 7 - x % 8, v)])
    else l
  }

  /** The pixel at position `p` of the bitmap read row by row, `p = y * WIDTH + x`. */
  predicate PixelAt(l: Logo, p: nat) {
    if p / 8 >= |l.pixels| then false else TestBit(l.pixels[p / 8], 7 - p % 8)
  }

  /** A row is a whole number of bytes, so the pixel at (x, y) is the one at `y * WIDTH + x`. */
  lemma {:induction false} GetPixelAt(l: Logo, x: nat, y: nat)
    ensures GetPixel(l, x, y) == PixelAt(l, y * Width + x)
  {
    RowAligned(x, y);
  }

  /** A row is 13 whole bytes, so a pixel's bit place depends on its column alone. */
  lemma {:induction false} RowAligned(x: nat, y: nat)
    ensures (y * Width + x) % 8 == x % 8
  {
    assert y * Width + x == 8 * (13 * y) + x;
  }

  /** After `set_pixel` inside the bitmap, the pixel reads back as set. */
  lemma {:induction false} SetPixelSame(l: Logo, x: nat, y: nat, v: bool)
    requires (y * Width + x) / 8 < |l.pixels|
    ensures PixelAt(SetPixel(l, x, y, v), y * Width + x) == v
  {
    var q := y * Width + x;
    RowAligned(x, y);
    var k := 7 - x % 8;
    var b := SetBit(l.pixels[q / 8], k, v);
    assert SetPixel(l, x, y, v).pixels[q / 8] == b;
    assert TestBit(b, k) == v;
  }

  /** `set_pixel` leaves every other position unchanged. */
  lemma {:induction false} SetPixelOther(l: Logo, x: nat, y: nat, v: bool, p: nat)
    requires p != y * Width + x
    ensures PixelAt(SetPixel(l, x, y, v), p) == PixelAt(l, p)
  {
    var q := y * Width + x;
    RowAligned(x, y);
    if q / 8 < |l.pixels| && p / 8 == q / 8 {
      assert p % 8 != q % 8;
      var k := 7 - x % 8;
      var b := SetBit(l.pixels[q / 8], k, v);
      assert SetPixel(l, x, y, v).pixels[p / 8] == b;
      assert TestBit(b, 7 - p % 8) == TestBit(l.pixels[q / 8], 7 - p % 8);
    }
  }

  /** `get_pixel` reads what `set_pixel` wrote, for a pixel inside the bitmap. */
  lemma {:induction false} GetSetPixel(l: Logo, x: nat, y: nat, v: bool)
    requires (y * Width + x) / 8 < |l.pixels|
    ensures GetPixel(SetPixel(l, x, y, v), x, y) == v
  {
    GetPixelAt(SetPixel(l, x, y, v), x, y);
    SetPixelSame(l, x, y, v);
  }

  /** `get_pixel` and `set_pixel` past the bitmap: false, and no change. */
  lemma {:induction false} PixelOutside(l: Logo, x: nat, y: nat, v: bool)
    requires (y * Width + x) / 8 >= |l.pixels|
    ensures !GetPixel(l, x, y) && SetPixel(l, x, y, v) == l
  {
  }

  // ---------------------------------------------------------------------
  // Tiles (load_tiles, store_tiles)

  /** The byte holding row `y % 8` of the 8x8 tile containing (x, y). */
  function TileIndex(x: nat, y: nat): nat {
    (y / 8) * Width + (x / 8) * 8 + y % 8
  }

  /** Inside the logo, tile addresses are in range and distinct pixels have distinct (byte, bit) places. */
  lemma {:induction false} TileAddress(x: nat, y: nat, x': nat, y': nat)
    requires x < Width && y < Height && x' < Width && y' < Height
    ensures TileIndex(x, y) < Size
    ensures TileIndex(x, y) == TileIndex(x', y') && x % 8 == x' % 8 ==> x == x' && y == y'
  {
    if TileIndex(x, y) == TileIndex(x', y') && x % 8 == x' % 8 {
      assert y / 8 == y' / 8;
      assert (x / 8) * 8 + y % 8 == (x' / 8) * 8 + y' % 8;
      assert x / 8 == x' / 8 && y % 8 == y' % 8;
    }
  }

  /** The pixel `load_tiles` takes from the tiles for (x, y): bit `x & 7` of its tile byte, or false past the data. */
  predicate TileBit(data: seq<byte>, x: nat, y: nat) {
    var index := TileIndex(x, y);
    if index >= |data| then false else TestBit(data[index], x % 8)
  }

  /** The pixels `load_tiles` has set after its first `n` steps; the loops go row by row. */
  function LoadUpTo(data: seq<byte>, n: nat): (r: Logo)
    requires n <= Width * Height
    ensures Valid(r)
  {
    if n == 0 then Blank()
    else
      var x, y := (n - 1) % Width, (n - 1) / Width;
      SetPixel(LoadUpTo(data, n - 1), x, y, TileBit(data, x, y))
  }

  /** `load_tiles` into a blank logo, as `decompress` uses it. */
  function LoadTiles(data: seq<byte>): (r: Logo)
    ensures Valid(r)
  {
    LoadUpTo(data, Width * Height)
  }

  /** One step of `store_tiles`: bit `x & 7` of the tile byte of (x, y) set to that pixel. */
  function StoreStep(l: Logo, d: seq<byte>, x: nat, y: nat): (r: seq<byte>)
    ensures |r| == |d|
  {
    var index := TileIndex(x, y);
    if index < |d| then d[index := SetBit(d[index], x % 8, GetPixel(l, x, y))] else d
  }

  /** The tile bytes `store_tiles` has written after its first `n` steps. */
  function StoreUpTo(l: Logo, data: seq<byte>, n: nat): (r: seq<byte>)
    requires n <= Width * Height
    ensures |r| == |data|
  {
    if n == 0 then data
    else StoreStep(l, StoreUpTo(l, data, n - 1), (n - 1) % Width, (n - 1) / Width)
  }

  /** `store_tiles`. */
  function StoreTiles(l: Logo, data: seq<byte>): (r: seq<byte>)
    ensures |r| == |data|
  {
    StoreUpTo(l, data, Width * Height)
  }

  /** Before `load_tiles` starts, every pixel is clear. */
  lemma {:induction false} LoadNone(data: seq<byte>, p: nat)
    requires p < Width * Height
    ensures !PixelAt(LoadUpTo(data, 0), p)
  {
    ZeroBits(7 - p % 8);
  }

  /** The step of `load_tiles` for pixel `q` sets that pixel from the tiles and no other. */
  lemma {:induction false} LoadStep(data: seq<byte>, q: nat, p: nat, before: bool)
    requires q < Width * Height && p < Width * Height
    requires PixelAt(LoadUpTo(data, q), p) == before
    ensures PixelAt(LoadUpTo(data, q + 1), p) == if p == q then TileBit(data, q % Width, q / Width) else before
  {
    var x, y := q % Width, q / Width;
    assert y * Width + x == q;
    if p == q {
      SetPixelSame(LoadUpTo(data, q), x, y, TileBit(data, x, y));
    } else {
      SetPixelOther(LoadUpTo(data, q), x, y, TileBit(data, x, y), p);
    }
  }

  /** After `n` steps of `load_tiles`, the first `n` pixels come from the tiles and the rest are clear. */
  lemma {:induction false} LoadUpToPixels(data: seq<byte>, n: nat, p: nat)
    requires n <= Width * Height && p < Width * Height
    ensures PixelAt(LoadUpTo(data, n), p) == (p < n && TileBit(data, p % Width, p / Width))
  {
    if n == 0 {
      LoadNone(data, p);
    } else {
      LoadUpToPixels(data, n - 1, p);
      LoadStep(data, n - 1, p, p < n - 1 && TileBit(data, p % Width, p / Width));
    }
  }

  /** The step of `store_tiles` for (x, y) stores that pixel in its tile bit. */
  lemma {:induction false} StoreStepSame(l: Logo, d: seq<byte>, x: nat, y: nat)
    requires TileIndex(x, y) < |d|
    ensures TileBit(StoreStep(l, d, x, y), x, y) == GetPixel(l, x, y)
  {
  }

  /** The step of `store_tiles` for (x, y) leaves every other tile bit alone. */
  lemma {:induction false} StoreStepOther(l: Logo, d: seq<byte>, x: nat, y: nat, x': nat, y': nat)
    requires TileIndex(x, y) != TileIndex(x', y') || x % 8 != x' % 8
    ensures TileBit(StoreStep(l, d, x, y), x', y') == TileBit(d, x', y')
  {
  }

  /** The step of `store_tiles` for pixel `m` leaves the tile bit of an earlier pixel `q` alone. */
  lemma {:induction false} StoreKeeps(l: Logo, data: seq<byte>, m: nat, q: nat)
    requires m < Width * Height && q < m
    ensures TileBit(StoreUpTo(l, data, m + 1), q % Width, q / Width) == TileBit(StoreUpTo(l, data, m), q % Width, q / Width)
  {
    var x, y := m % Width, m / Width;
    var x', y' := q % Width, q / Width;
    TileAddress(x, y, x', y');
    assert y * Width + x == m && y' * Width + x' == q;
    StoreStepOther(l, StoreUpTo(l, data, m), x, y, x', y');
  }

  /** After `n` steps of `store_tiles`, the tile bit of each of the first `n` pixels holds that pixel. */
  lemma {:induction false} StoreUpToBits(l: Logo, data: seq<byte>, n: nat, q: nat)
    requires |data| == Size && n <= Width * Height && q < n
    ensures TileBit(StoreUpTo(l, data, n), q % Width, q / Width) == GetPixel(l, q % Width, q / Width)
  {
    var m := n - 1;
    if q == m {
      TileAddress(m % Width, m / Width, 0, 0);
      StoreStepSame(l, StoreUpTo(l, data, m), m % Width, m / Width);
    } else {
      StoreUpToBits(l, data, m, q);
      StoreKeeps(l, data, m, q);
    }
  }

  /** `load_tiles` undoes `store_tiles` on a buffer of `SIZE` bytes, whatever it held before. */
  lemma {:induction false} TilesRoundTrip(l: Logo, data: seq<byte>)
    requires Valid(l) && |data| == Size
    ensures LoadTiles(StoreTiles(l, data)) == l
  {
    var stored := StoreTiles(l, data);
    var loaded := LoadTiles(stored);
    forall i | 0 <= i < Size ensures loaded.pixels[i] == l.pixels[i] {
      forall k | 0 <= k < 8 ensures TestBit(loaded.pixels[i], k) == TestBit(l.pixels[i], k) {
        var p := 8 * i + 7 - k;
        LoadUpToPixels(stored, Width * Height, p);
        StoreUpToBits(l, data, Width * Height, p);
        GetPixelAt(l, p % Width, p / Width);
        assert p / Width * Width + p % Width == p;
        assert p / 8 == i && 7 - p % 8 == k;
      }
      BitsDetermine(loaded.pixels[i], l.pixels[i]);
    }
  }

  // ---------------------------------------------------------------------
  // reverse32

  /**
   * `reverse32`: each whole 4-byte group is read as a little-endian word,
   * byte-swapped and written back, which reverses the group; a shorter
   * tail is kept. `SwapGroup` shows the two readings agree.
   */
  function Reverse32(data: seq<byte>): (r: seq<byte>)
    ensures |r| == |data|
  {
    if |data| < 4 then data
    else [data[3], data[2], data[1], data[0]] + Reverse32(data[4..])
  }

  /** Swapping the bytes of the word a group holds reverses the group. */
  lemma {:induction false} SwapGroup(data: seq<byte>)
    requires |data| >= 4
    ensures U32Bytes(SwapBytes32(ReadU32(data, 0))) == Reverse32(data)[..4]
  {
    SwapReverses(data[0], data[1], data[2], data[3]);
    assert Reverse32(data)[..4] == [data[3], data[2], data[1], data[0]];
  }

  /** The start of the tail `reverse32` keeps: the bytes before it form whole groups. */
  function WholeGroups(n: nat): nat {
    n - n % 4
  }

  /** The place mirroring `i` in its group of four. */
  function Mirror(i: nat): nat {
    i - i % 4 + 3 - i % 4
  }

  /** Byte `i` of a whole group comes from the mirrored place in the same group; the tail is kept. */
  lemma {:induction false} Reverse32Index(data: seq<byte>, i: nat)
    requires i < |data|
    ensures i < WholeGroups(|data|) ==> Mirror(i) < |data| && Reverse32(data)[i] == data[Mirror(i)]
    ensures i >= WholeGroups(|data|) ==> Reverse32(data)[i] == data[i]
    decreases |data|
  {
    if |data| >= 4 {
      var rest := Reverse32(data[4..]);
      assert Reverse32(data) == [data[3], data[2], data[1], data[0]] + rest;
      if i >= 4 {
        Reverse32Index(data[4..], i - 4);
        GroupShift(i, |data|);
      } else {
        FirstGroup(i, |data|);
      }
    }
  }

  /** Dropping the first group shifts places, mirrors and the tail's start down by four. */
  lemma {:induction false} GroupShift(i: nat, n: nat)
    requires 4 <= i && 4 <= n
    ensures WholeGroups(n - 4) == WholeGroups(n) - 4 && Mirror(i - 4) == Mirror(i) - 4
  {
    assert (n - 4) % 4 == n % 4;
    assert (i - 4) % 4 == i % 4;
  }

  /** The first group is whole and mirrors onto itself. */
  lemma {:induction false} FirstGroup(i: nat, n: nat)
    requires i < 4 <= n
    ensures 4 <= WholeGroups(n) && Mirror(i) == 3 - i
  {
  }

  /** Mirroring stays among the whole groups and undoes itself. */
  lemma {:induction false} MirrorMirror(i: nat, n: nat)
    requires i < WholeGroups(n)
    ensures Mirror(i) < WholeGroups(n) && Mirror(Mirror(i)) == i
  {
  }

  /** `reverse32` undoes itself. */
  lemma {:induction false} Reverse32Involution(data: seq<byte>)
    ensures Reverse32(Reverse32(data)) == data
  {
    var r := Reverse32(data);
    forall i | 0 <= i < |data| ensures Reverse32(r)[i] == data[i] {
      Reverse32Index(r, i);
      if i < WholeGroups(|data|) {
        MirrorMirror(i, |data|);
        Reverse32Index(data, Mirror(i));
      } else {
        Reverse32Index(data, i);
      }
    }
  }

  // ---------------------------------------------------------------------
  // decompress, compress

  /** `Logo::decompress`. */
  function Decompress(data: seq<byte>): (r: Result<Logo, LogoError>)
    ensures r.Ok? ==> Valid(r.value)
  {
    match DecompressToSlice(Table, Reverse32(data), Size + 8)
    case Err(e) => Err(Panic(e))
    case Ok(bytes) =>
      var header := ReadU32(bytes, 0);
      if header != LogoHeader then Err(InvalidHeader(LogoHeader, header))
      else
        var footer := ReadU32(bytes, |bytes| - 4);
        if footer != LogoFooter then Err(InvalidFooter(LogoFooter, footer))
        else
          var diff := bytes[4..|bytes| - 4];
          if |diff| != Size then Err(WrongSize(Size, |diff|))
          else
            match Diff16ToData(diff)
            case Err(e) => Err(Panic(e))
            case Ok(tiles) => Ok(LoadTiles(tiles))
  }

  /** The diffed tiles of a logo framed by the header and footer words: what `compress` codes. */
  function Framed(l: Logo): (r: seq<byte>)
    ensures |r| == Size + 8
  {
    var tiles := StoreTiles(l, Fill(0, Size));
    var diffed := DataToDiff16(tiles);
    assert diffed.Ok?;
    U32Bytes(LogoHeader) + diffed.value + U32Bytes(LogoFooter)
  }

  /** `Logo::compress`: always `0x9c` bytes, the coded stream truncated to fit. */
  function Compress(l: Logo): (r: seq<byte>)
    ensures |r| == CompressedSize
  {
    Reverse32(CompressToSlice(Table, Framed(l), Fill(0, CompressedSize)))
  }

  /** The fixed table is valid and prefix-free. */
  lemma {:induction false} TablePrefixFree()
    ensures ValidCodes(Table) && PrefixFree(Table)
  {
    forall i | 0 <= i < 16 ensures ValidCode(Table[i]) {
      assert Pow2(4) == 16 && Pow2(5) == 32 && Pow2(6) == 64;
    }
    TableSeparated();
    SeparatedPrefixFree(Table);
  }

  lemma {:induction false} TableSeparated()
    requires ValidCodes(Table)
    ensures forall i, j :: 0 <= i < 16 && 0 <= j < 16 && i != j ==> Separated(Table[i], Table[j])
  {
    assert Pow2(0) == 1 && Pow2(1) == 2 && Pow2(2) == 4 && Pow2(3) == 8 && Pow2(4) == 16 && Pow2(5) == 32;
  }

  /** `decompress` checks the header word first, then the footer word. */
  lemma {:induction false} DecompressFraming(data: seq<byte>, bytes: seq<byte>)
    requires DecompressToSlice(Table, Reverse32(data), Size + 8) == Ok(bytes)
    ensures ReadU32(bytes, 0) != LogoHeader ==> Decompress(data) == Err(InvalidHeader(LogoHeader, ReadU32(bytes, 0)))
    ensures ReadU32(bytes, 0) == LogoHeader && ReadU32(bytes, Size + 4) != LogoFooter ==>
              Decompress(data) == Err(InvalidFooter(LogoFooter, ReadU32(bytes, Size + 4)))
    ensures ReadU32(bytes, 0) == LogoHeader && ReadU32(bytes, Size + 4) == LogoFooter ==> Decompress(data).Ok?
  {
    var diff := bytes[4..Size + 4];
    assert |diff| == Size;
  }

  /** The size check in `decompress` never fires: the slice between header and footer is always `SIZE` bytes. */
  lemma {:induction false} NeverWrongSize(data: seq<byte>)
    ensures !(Decompress(data).Err? && Decompress(data).error.WrongSize?)
  {
  }

  /** The header word, the diffed tiles and the footer word of `Framed`, as `decompress` reads them. */
  lemma {:induction false} FramedParts(l: Logo) returns (tiles: seq<byte>, diffed: seq<byte>)
    ensures tiles == StoreTiles(l, Fill(0, Size)) && DataToDiff16(tiles) == Ok(diffed)
    ensures var framed := Framed(l);
            ReadU32(framed, 0) == LogoHeader && ReadU32(framed, Size + 4) == LogoFooter &&
            framed[4..Size + 4] == diffed
  {
    var framed := Framed(l);
    tiles := StoreTiles(l, Fill(0, Size));
    diffed := DataToDiff16(tiles).value;
    assert framed[0..4] == U32Bytes(LogoHeader);
    assert framed[Size + 4..Size + 8] == U32Bytes(LogoFooter);
    U32RoundTrip(LogoHeader, framed, 0);
    U32RoundTrip(LogoFooter, framed, 0);
    ReadU32Local(framed, 0, U32Bytes(LogoHeader), 0);
    ReadU32Local(framed, Size + 4, U32Bytes(LogoFooter), 0);
  }

  /** `decompress` of data that decodes to a well-framed image loads the unfiltered tiles. */
  lemma {:induction false} DecompressFramed(data: seq<byte>, bytes: seq<byte>, tiles: seq<byte>)
    requires DecompressToSlice(Table, Reverse32(data), Size + 8) == Ok(bytes)
    requires ReadU32(bytes, 0) == LogoHeader && ReadU32(bytes, Size + 4) == LogoFooter
    requires Diff16ToData(bytes[4..Size + 4]) == Ok(tiles)
    ensures Decompress(data) == Ok(LoadTiles(tiles))
  {
  }

  /** What `decompress` decodes from the output of `compress`, when the coded stream fits. */
  lemma {:induction false} DecodesFramed(l: Logo)
    requires |Compressed(Table, Framed(l))| <= CompressedSize
    ensures DecompressToSlice(Table, Reverse32(Compress(l)), Size + 8) == Ok(Framed(l))
  {
    TablePrefixFree();
    var coded := CompressToSlice(Table, Framed(l), Fill(0, CompressedSize));
    Reverse32Involution(coded);
    CompressRoundTrip(Table, Framed(l), Fill(0, CompressedSize));
  }

  /**
   * A logo whose coded stream fits in `0x9c` bytes survives compression:
   * `decompress(compress(logo))` gives the logo back.
   */
  lemma {:induction false} LogoRoundTrip(l: Logo)
    requires Valid(l)
    requires |Compressed(Table, Framed(l))| <= CompressedSize
    ensures Decompress(Compress(l)) == Ok(l)
  {
    DecodesFramed(l);
    var tiles, diffed := FramedParts(l);
    Diff16RoundTrip(tiles);
    DecompressFramed(Compress(l), Framed(l), tiles);
    TilesRoundTrip(l, Fill(0, Size));
  }
}
