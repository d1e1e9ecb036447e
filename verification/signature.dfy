/**
 * HMAC-SHA1 signatures of overlays and overlay tables: a 20-byte hash, its
 * text form of 40 lower-case hex digits (which serde also uses), the parser
 * of that text form, and the table of signatures the ARM9 program carries.
 * `HmacSha1Signature` and `OverlaySignature` are the same codec under two
 * names, so one model covers both.
 *
 * Text is UTF-8, so a string is the sequence of its bytes; `s.len()` is its
 * byte length and slicing it inside a multi-byte character panics.
 */
module Signature {
  import opened Common

  /** The number of bytes in a hash. */
  const HashSize: nat := 20

  /** The length of a hash's text form. */
  const TextSize: nat := 40

  datatype Signature = Signature(hash: seq<byte>)

  predicate Valid(s: Signature) {
    |s.hash| == HashSize
  }

  /**
   * HMAC-SHA1 under a fixed key: a 20-byte hash for every message. Only the
   * hash width is modelled; the hash function itself is left open.
   */
  type Mac = f: seq<byte> -> Signature | forall m :: Valid(f(m))
    witness (m: seq<byte>) => Signature(Fill(0, HashSize))

  // ---------------------------------------------------------------------
  // Hex digits

  /** The lower-case hex digit of `n`, as `{:x}` writes it. */
  function HexDigit(n: nat): (r: byte)
    requires n < 16
    ensures DigitValue(r) == Some(n)
    ensures IsLowerHex(r)
  {
    if n < 10 then 0x30 + n else 0x61 + (n - 10)
  }

  /** A character `{:x}` can write: '0'-'9' or 'a'-'f'. */
  predicate IsLowerHex(c: byte) {
    0x30 <= c <= 0x39 || 0x61 <= c <= 0x66
  }

  /** The value of a base-16 digit: '0'-'9', 'a'-'f' or 'A'-'F'; anything else is no digit. */
  function DigitValue(c: byte): (r: Option<nat>)
    ensures r.Some? ==> r.value < 16
  {
    if 0x30 <= c <= 0x39 then Some(c - 0x30)
    else if 0x61 <= c <= 0x66 then Some(c - 0x61 + 10)
    else if 0x41 <= c <= 0x46 then Some(c - 0x41 + 10)
    else None
  }

  /** A lower-case digit is the one `HexDigit` writes for its value. */
  lemma {:induction false} LowerHexDigit(c: byte)
    requires IsLowerHex(c)
    ensures DigitValue(c).Some? && HexDigit(DigitValue(c).value) == c
  {
  }

  /**
   * `u8::from_str_radix(t, 16)` on a two-byte string: two base-16 digits, or
   * a '+' sign and one digit. A '-' is no digit for an unsigned type.
   */
  function ParseByte(t: seq<byte>): (r: Option<byte>)
    requires |t| == 2
    ensures r.Some? <==>
      (t[0] == 0x2b && DigitValue(t[1]).Some?) ||
      (DigitValue(t[0]).Some? && DigitValue(t[1]).Some?)
  {
    if t[0] == 0x2b then
      match DigitValue(t[1])
      case Some(d) => Some(d)
      case None => None
    else
      match (DigitValue(t[0]), DigitValue(t[1]))
      case (Some(h), Some(l)) => Some(16 * h + l)
      case _ => None
  }

  // ---------------------------------------------------------------------
  // Display

  /** `Display`: each byte of the hash as two lower-case hex digits, high digit first. */
  function Display(s: Signature): (r: seq<byte>)
    requires Valid(s)
    ensures |r| == TextSize
    ensures forall k :: 0 <= k < TextSize ==> IsLowerHex(r[k])
    ensures forall i :: 0 <= i < HashSize ==>
      ParseByte(r[2 * i..2 * i + 2]) == Some(s.hash[i])
  {
    var r := seq(TextSize, k requires 0 <= k < TextSize =>
      if k % 2 == 0 then HexDigit(s.hash[k / 2] / 16) else HexDigit(s.hash[k / 2] % 16));
    forall i | 0 <= i < HashSize ensures ParseByte(r[2 * i..2 * i + 2]) == Some(s.hash[i]) {
      DisplayPair(s, r, i);
    }
    r
  }

  /** Digits `2i` and `2i + 1` of the text parse to hash byte `i`. */
  lemma {:induction false} DisplayPair(s: Signature, r: seq<byte>, i: nat)
    requires Valid(s) && i < HashSize && |r| == TextSize
    requires forall k :: 0 <= k < TextSize ==>
      r[k] == if k % 2 == 0 then HexDigit(s.hash[k / 2] / 16) else HexDigit(s.hash[k / 2] % 16)
    ensures ParseByte(r[2 * i..2 * i + 2]) == Some(s.hash[i])
  {
    var b := s.hash[i];
    var t := r[2 * i..2 * i + 2];
    assert t[0] == r[2 * i] == HexDigit(b / 16);
    assert t[1] == r[2 * i + 1] == HexDigit(b % 16);
  }

  // ---------------------------------------------------------------------
  // Parsing

  /** Why a text is no signature. `NotCharBoundary` is the panic of slicing inside a character. */
  datatype ParseError = InvalidLength(length: nat) | ParseInt(text: seq<byte>) | NotCharBoundary(index: nat)

  /** Whether `p` starts a character of the UTF-8 text `t`: not a continuation byte. */
  predicate CharBoundary(t: seq<byte>, p: nat)
    requires p <= |t|
  {
    p == 0 || p == |t| || !(0x80 <= t[p] < 0xc0)
  }

  /** The two-byte chunk `i` of a text. */
  function Chunk(t: seq<byte>, i: nat): seq<byte>
    requires 2 * i + 2 <= |t|
  {
    t[2 * i..2 * i + 2]
  }

  /** Chunk `i` slices cleanly and parses. */
  predicate ChunkOk(t: seq<byte>, i: nat)
    requires 2 * i + 2 <= |t|
  {
    CharBoundary(t, 2 * i) && CharBoundary(t, 2 * i + 2) && ParseByte(Chunk(t, i)).Some?
  }

  /** The loop of `from_str` from chunk `i` on: the remaining hash bytes, or the first chunk's failure. */
  function ParseFrom(t: seq<byte>, i: nat): (r: Result<seq<byte>, ParseError>)
    requires |t| == TextSize && i <= HashSize
    ensures r.Ok? <==> forall j :: i <= j < HashSize ==> ChunkOk(t, j)
    ensures r.Err? ==> !r.error.InvalidLength?
    ensures r.Ok? ==> (|r.value| == HashSize - i &&
      forall k :: 0 <= k < |r.value| ==> ParseByte(Chunk(t, i + k)) == Some(r.value[k]))
    decreases HashSize - i
  {
    if i == HashSize then Ok([])
    else if !CharBoundary(t, 2 * i) then
      assert !ChunkOk(t, i);
      Err(NotCharBoundary(2 * i))
    else if !CharBoundary(t, 2 * i + 2) then
      assert !ChunkOk(t, i);
      Err(NotCharBoundary(2 * i + 2))
    else
      match ParseByte(Chunk(t, i))
      case None =>
        assert !ChunkOk(t, i);
        Err(ParseInt(Chunk(t, i)))
      case Some(b) =>
        var rest :- ParseFrom(t, i + 1);
        var r := [b] + rest;
        assert forall k :: 1 <= k < |r| ==> r[k] == rest[k - 1];
        Ok(r)
  }

  /**
   * `FromStr`: a text of exactly 40 bytes, read two bytes at a time; the
   * first chunk that does not slice or parse is the error.
   */
  function FromStr(t: seq<byte>): (r: Result<Signature, ParseError>)
    ensures r == Err(InvalidLength(|t|)) <==> |t| != TextSize
    ensures r.Ok? <==> |t| == TextSize && forall j :: 0 <= j < HashSize ==> ChunkOk(t, j)
    ensures r.Ok? ==> (Valid(r.value) &&
      forall i :: 0 <= i < HashSize ==> ParseByte(Chunk(t, i)) == Some(r.value.hash[i]))
  {
    if |t| != TextSize then Err(InvalidLength(|t|))
    else
      var hash :- ParseFrom(t, 0);
      Ok(Signature(hash))
  }

  /** Parsing the text form of a signature gives the signature back; serde goes through the same pair. */
  lemma {:induction false} FromStrDisplay(s: Signature)
    requires Valid(s)
    ensures FromStr(Display(s)) == Ok(s)
  {
    var t := Display(s);
    forall j | 0 <= j < HashSize ensures ChunkOk(t, j) {
      assert ParseByte(Chunk(t, j)) == Some(s.hash[j]);
    }
    var r := FromStr(t).value;
    assert r.hash == s.hash;
  }

  /** A lower-case text that parses is the text form of what it parses to. */
  lemma {:induction false} DisplayFromStr(t: seq<byte>)
    requires FromStr(t).Ok?
    requires forall k :: 0 <= k < |t| ==> IsLowerHex(t[k])
    ensures Display(FromStr(t).value) == t
  {
    var s := FromStr(t).value;
    var d := Display(s);
    forall k | 0 <= k < TextSize ensures d[k] == t[k] {
      var i := k / 2;
      DisplayFromStrAt(t, i);
      assert k == 2 * i || k == 2 * i + 1;
    }
    assert d == t;
  }

  /** The two digits of chunk `i` of a lower-case text that parses are those of its text form. */
  lemma {:induction false} DisplayFromStrAt(t: seq<byte>, i: nat)
    requires FromStr(t).Ok? && i < HashSize
    requires forall k :: 0 <= k < |t| ==> IsLowerHex(t[k])
    ensures var d := Display(FromStr(t).value);
      d[2 * i] == t[2 * i] && d[2 * i + 1] == t[2 * i + 1]
  {
    var s := FromStr(t).value;
    var d := Display(s);
    var a := Chunk(t, i);
    var b := Chunk(d, i);
    assert a[0] == t[2 * i] && a[1] == t[2 * i + 1];
    assert b[0] == d[2 * i] && b[1] == d[2 * i + 1];
    LowerPairUnique(a, b, s.hash[i]);
  }

  /** Two lower-case digit pairs that parse to the same byte are the same pair. */
  lemma {:induction false} LowerPairUnique(a: seq<byte>, b: seq<byte>, v: byte)
    requires |a| == 2 && |b| == 2
    requires IsLowerHex(a[0]) && IsLowerHex(a[1]) && IsLowerHex(b[0]) && IsLowerHex(b[1])
    requires ParseByte(a) == Some(v) && ParseByte(b) == Some(v)
    ensures a == b
  {
    var ha, la := DigitValue(a[0]).value, DigitValue(a[1]).value;
    var hb, lb := DigitValue(b[0]).value, DigitValue(b[1]).value;
    assert 16 * ha + la == 16 * hb + lb;
    assert ha == hb;
    LowerHexDigit(a[0]);
    LowerHexDigit(a[1]);
    LowerHexDigit(b[0]);
    LowerHexDigit(b[1]);
  }

  /**
   * The parser also accepts upper-case digits and a '+' sign, so several
   * texts name the same signature: "+f", "0f" and "0F" all read as 15.
   */
  lemma {:induction false} NonCanonicalChunks()
    ensures ParseByte([0x2b, 0x66]) == ParseByte([0x30, 0x66]) == ParseByte([0x30, 0x46]) == Some(15)
    ensures ParseByte([0x2d, 0x66]) == None
  {
  }

  // ---------------------------------------------------------------------
  // Tables of signatures

  /** The table's length is not a multiple of the hash size. */
  datatype TableError = InvalidSize

  /** `borrow_from_slice`: the data read as hashes; signature `i` is bytes `20i..20i + 20`. */
  function BorrowFromSlice(data: seq<byte>): (r: Result<seq<Signature>, TableError>)
    ensures r.Err? <==> |data| % HashSize != 0
    ensures r.Ok? ==> HashSize * |r.value| == |data| && forall i :: 0 <= i < |r.value| ==>
      HashSize * i + HashSize <= |data| && r.value[i] == Signature(data[HashSize * i..HashSize * i + HashSize])
  {
    if |data| % HashSize != 0 then Err(InvalidSize)
    else
      var n := |data| / HashSize;
      var blocks := Chunks(data, HashSize, n);
      var sigs := seq(n, i requires 0 <= i < n => Signature(blocks[i]));
      forall i | 0 <= i < n
        ensures HashSize * i + HashSize <= |data| && sigs[i] == Signature(data[HashSize * i..HashSize * i + HashSize])
      {
        ChunksAt(data, HashSize, n, i);
      }
      Ok(sigs)
  }

  /** The bytes of a table of hashes, one after another. */
  function TableBytes(sigs: seq<Signature>): (r: seq<byte>)
    requires forall i :: 0 <= i < |sigs| ==> Valid(sigs[i])
    ensures |r| == HashSize * |sigs|
  {
    var blocks := seq(|sigs|, i requires 0 <= i < |sigs| => sigs[i].hash);
    forall i | 0 <= i < |sigs| ensures |blocks[i]| == HashSize {
      assert Valid(sigs[i]);
    }
    ChunksConcat(blocks, HashSize);
    Concat(blocks)
  }

  /** Reading the bytes of a table of hashes gives the table back. */
  lemma {:induction false} TableRoundTrip(sigs: seq<Signature>)
    requires forall i :: 0 <= i < |sigs| ==> Valid(sigs[i])
    ensures BorrowFromSlice(TableBytes(sigs)) == Ok(sigs)
  {
    var n := |sigs|;
    var blocks := seq(n, i requires 0 <= i < n => sigs[i].hash);
    var data := TableBytes(sigs);
    assert |data| % HashSize == 0 && |data| / HashSize == n;
    var r := BorrowFromSlice(data).value;
    forall i | 0 <= i < n ensures r[i] == sigs[i] {
      ConcatAt(blocks, HashSize, i);
    }
    assert r == sigs;
  }
}
