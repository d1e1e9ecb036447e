/**
 * Nibble Huffman coding and the diff16 filter (lib/src/compress/huffman.rs).
 *
 * A `NibbleHuffman` holds sixteen codes, `codes[n]` being the code of the
 * nibble `n`. Each byte is coded as its low nibble, then its high nibble.
 * Bit streams are modelled as `seq<bool>`, most significant bit of each
 * byte first, in place of the bitreader and bitwriter crates; the writer
 * pads the last byte with zero bits.
 */
module Huffman {
  import opened Common

  /** The code of one nibble: the low `length` bits of `bits`. */
  datatype Code = Code(length: byte, bits: byte)

  /** A code the writer can emit: one to eight bits, the value fitting in them. */
  predicate ValidCode(c: Code) {
    1 <= c.length <= 8 && c.bits < Pow2(c.length)
  }

  /** One valid code for each of the sixteen nibble values. */
  predicate ValidCodes(codes: seq<Code>) {
    |codes| == 16 && forall i :: 0 <= i < |codes| ==> ValidCode(codes[i])
  }

  /** The bits of a code, most significant first. */
  function CodeBits(c: Code): (r: seq<bool>)
    requires ValidCode(c)
    ensures |r| == c.length
  {
    NatBits(c.bits, c.length)
  }

  /** The bits of `a` do not begin the bits of `b`. */
  predicate NotPrefixOf(a: Code, b: Code)
    requires ValidCode(a) && ValidCode(b)
  {
    a.length <= b.length ==> CodeBits(b)[..a.length] != CodeBits(a)
  }

  /** No code is a prefix of another, as the documentation of `codes` demands. */
  predicate PrefixFree(codes: seq<Code>)
    requires ValidCodes(codes)
  {
    forall i, j {:trigger NotPrefixOf(codes[i], codes[j])} :: 0 <= i < 16 && 0 <= j < 16 && i != j ==> NotPrefixOf(codes[i], codes[j])
  }

  /** Why a Huffman operation panics. */
  datatype HuffmanError =
    | NoMatchingCode  // no code matches the next bits (`find_map(..).unwrap()`)
    | PeekTooWide     // more than eight bits asked of `peek_u8`
    | ShiftOverflow   // a u8 shifted left by eight or more
    | OddLength       // the diff16 filters assert an even length

  // ---------------------------------------------------------------------
  // Decoding (decompress_nibble, decompress_to_slice)

  /** `v << k` on a u8, one place at a time: the bit shifted past the top is lost. */
  function ShiftLeft(v: byte, k: nat): byte
    decreases k
  {
    if k == 0 then v else ShiftLeft(if v < 0x80 then 2 * v else 2 * v - 0x100, k - 1)
  }

  /** A number of bits consumed together with the value they gave. */
  datatype Read = Read(count: nat, value: nat)

  /** The value of the `len` bits at `pos`, most significant first. */
  function BitsAt(bits: seq<bool>, pos: nat, len: nat): (r: nat)
    requires pos + len <= |bits|
    ensures r < Pow2(len)
    decreases len
  {
    if len == 0 then 0 else (if bits[pos] then Pow2(len - 1) else 0) + BitsAt(bits, pos + 1, len - 1)
  }

  /**
   * What the decoder compares with a code of `len` bits at `pos`: the next
   * `len` bits, or, near the end, the remaining bits shifted up so that
   * zeros stand for the missing ones.
   */
  function Peek(bits: seq<bool>, pos: nat, len: byte): (r: Result<Read, HuffmanError>)
    requires pos <= |bits|
    ensures r.Ok? ==> r.value.count <= len && pos + r.value.count <= |bits| && r.value.value < 0x100
  {
    var remaining := |bits| - pos;
    if len > remaining then
      if remaining > 8 then Err(PeekTooWide)
      else if len - remaining >= 8 then Err(ShiftOverflow)
      else
        Pow2Monotone(remaining, 8);
        Ok(Read(remaining, ShiftLeft(BitsAt(bits, pos, remaining), len - remaining)))
    else if len > 8 then Err(PeekTooWide)
    else
      Pow2Monotone(len, 8);
      Ok(Read(len, BitsAt(bits, pos, len)))
  }

  /** The first code, from index `i` on, whose value equals the peeked bits; its index is the nibble. */
  function FindCode(codes: seq<Code>, bits: seq<bool>, pos: nat, i: nat): (r: Result<Read, HuffmanError>)
    requires |codes| == 16 && i <= 16 && pos <= |bits|
    ensures r.Ok? ==> i <= r.value.value < 16 && pos + r.value.count <= |bits|
    decreases 16 - i
  {
    if i == 16 then Err(NoMatchingCode)
    else
      match Peek(bits, pos, codes[i].length)
      case Err(e) => Err(e)
      case Ok(p) => if p.value == codes[i].bits then Ok(Read(p.count, i)) else FindCode(codes, bits, pos, i + 1)
  }

  /** `decompress_nibble`: the nibble coded at `pos`, and the position after it. */
  function DecodeNibble(codes: seq<Code>, bits: seq<bool>, pos: nat): (r: Result<Read, HuffmanError>)
    requires |codes| == 16 && pos <= |bits|
    ensures r.Ok? ==> r.value.value < 16 && pos <= r.value.count <= |bits|
  {
    match FindCode(codes, bits, pos, 0)
    case Err(e) => Err(e)
    case Ok(m) => Ok(Read(pos + m.count, m.value))
  }

  /** One output byte: its low nibble, then its high nibble. */
  function DecodeByte(codes: seq<Code>, bits: seq<bool>, pos: nat): (r: Result<Read, HuffmanError>)
    requires |codes| == 16 && pos <= |bits|
    ensures r.Ok? ==> r.value.value < 0x100 && pos <= r.value.count <= |bits|
  {
    match DecodeNibble(codes, bits, pos)
    case Err(e) => Err(e)
    case Ok(low) =>
      match DecodeNibble(codes, bits, low.count)
      case Err(e) => Err(e)
      case Ok(high) => Ok(Read(high.count, high.value * 16 + low.value))  // `high << 4 | low`
  }

  /** `n` output bytes decoded one after the other. */
  function DecodeBytes(codes: seq<Code>, bits: seq<bool>, pos: nat, n: nat): (r: Result<seq<byte>, HuffmanError>)
    requires |codes| == 16 && pos <= |bits|
    ensures r.Ok? ==> |r.value| == n
    decreases n
  {
    if n == 0 then Ok([])
    else
      match DecodeByte(codes, bits, pos)
      case Err(e) => Err(e)
      case Ok(b) =>
        match DecodeBytes(codes, bits, b.count, n - 1)
        case Err(e) => Err(e)
        case Ok(rest) => Ok([b.value] + rest)
  }

  /** The bits of a byte string, most significant bit of each byte first. */
  function Unpack(data: seq<byte>): (r: seq<bool>)
    ensures |r| == 8 * |data|
  {
    if data == [] then [] else NatBits(data[0], 8) + Unpack(data[1..])
  }

  /** `decompress_to_slice`: fills an output of `size` bytes from `data`. */
  function DecompressToSlice(codes: seq<Code>, data: seq<byte>, size: nat): (r: Result<seq<byte>, HuffmanError>)
    requires |codes| == 16
    ensures r.Ok? ==> |r.value| == size
  {
    DecodeBytes(codes, Unpack(data), 0, size)
  }

  // ---------------------------------------------------------------------
  // Encoding (compress_nibble, compress_to_slice)

  /** The nibbles of a byte string in coding order: low, then high, for each byte. */
  function Nibbles(bytes: seq<byte>): (r: seq<nat>)
    ensures |r| == 2 * |bytes|
    ensures forall i :: 0 <= i < |r| ==> r[i] < 16
  {
    if bytes == [] then [] else [bytes[0] % 16, bytes[0] / 16] + Nibbles(bytes[1..])
  }

  /** The codes of a run of nibbles, one after the other. */
  function Encode(codes: seq<Code>, ns: seq<nat>): (r: seq<bool>)
    requires ValidCodes(codes) && forall i :: 0 <= i < |ns| ==> ns[i] < 16
  {
    if ns == [] then [] else CodeBits(codes[ns[0]]) + Encode(codes, ns[1..])
  }

  /** The bits the writer holds once closed: padded with zeros to a whole byte. */
  function PadBits(bits: seq<bool>): (r: seq<bool>)
    ensures |r| % 8 == 0 && |bits| <= |r| < |bits| + 8 && r[..|bits|] == bits
  {
    bits + Zeros((8 - |bits| % 8) % 8)
  }

  /** The bytes of a whole number of bytes' worth of bits. */
  function Pack(bits: seq<bool>): (r: seq<byte>)
    requires |bits| % 8 == 0
    ensures |r| == |bits| / 8
  {
    if bits == [] then []
    else
      BitsValueBound(bits[..8]);
      assert Pow2(8) == 0x100;
      [BitsValue(bits[..8])] + Pack(bits[8..])
  }

  /** The bytes the writer produces for a byte string. */
  function Compressed(codes: seq<Code>, bytes: seq<byte>): seq<byte>
    requires ValidCodes(codes)
  {
    Pack(PadBits(Encode(codes, Nibbles(bytes))))
  }

  /**
   * `compress_to_slice`: the coded bytes overwrite the front of `out`,
   * truncated to its length; the rest of `out` is left as it was.
   */
  function CompressToSlice(codes: seq<Code>, bytes: seq<byte>, out: seq<byte>): (r: seq<byte>)
    requires ValidCodes(codes)
    ensures var data := Compressed(codes, bytes);
            var len := if |out| < |data| then |out| else |data|;
            |r| == |out| && r[..len] == data[..len] && r[len..] == out[len..]
  {
    var data := Compressed(codes, bytes);
    var len := if |out| < |data| then |out| else |data|;
    data[..len] + out[len..]
  }

  // ---------------------------------------------------------------------
  // Round trip

  /** At most eight bits fit in a byte. */
  lemma {:induction false} ShortBits(r: seq<bool>)
    requires |r| <= 8
    ensures BitsValue(r) < 0x100
  {
    BitsValueBound(r);
    Pow2Monotone(|r|, 8);
    assert Pow2(8) == 0x100;
  }

  /** Shifting the value of a short bit string appends zero bits to it. */
  lemma {:induction false} ShiftLeftZeros(r: seq<bool>, k: nat)
    requires |r| + k <= 8
    ensures BitsValue(r) < 0x100 && ShiftLeft(BitsValue(r), k) == BitsValue(r + Zeros(k))
    decreases k
  {
    ShortBits(r);
    if k == 0 {
      assert r + Zeros(k) == r;
    } else {
      BitsValueAppendFalse(r);
      ShortBits(r + [false]);
      ShiftLeftZeros(r + [false], k - 1);
      assert r + [false] + Zeros(k - 1) == r + Zeros(k);
    }
  }

  /** The shift is multiplication by a power of two, modulo 256. */
  lemma {:induction false} ShiftLeftValue(v: byte, k: nat)
    ensures ShiftLeft(v, k) == v * Pow2(k) % 0x100
    decreases k
  {
    if k > 0 {
      var d := if v < 0x80 then 2 * v else 2 * v - 0x100;
      var p := Pow2(k - 1);
      ShiftLeftValue(d, k - 1);
      DoubleMod(v, p);
      Twice(v, p, Pow2(k));
    }
  }

  /** Reducing a doubled byte modulo 256 before multiplying does not change the product modulo 256. */
  lemma {:induction false} DoubleMod(v: byte, p: nat)
    ensures (if v < 0x80 then 2 * v else 2 * v - 0x100) * p % 0x100 == 2 * v * p % 0x100
  {
    if v >= 0x80 {
      assert (2 * v - 0x100) * p == 2 * v * p - 0x100 * p;
    }
  }

  lemma {:induction false} Twice(v: nat, p: nat, q: nat)
    requires q == 2 * p
    ensures 2 * v * p == v * q
  {
  }

  /** Unpacking packed bits gives them back. */
  lemma {:induction false} UnpackPack(bits: seq<bool>)
    requires |bits| % 8 == 0
    ensures Unpack(Pack(bits)) == bits
    decreases |bits|
  {
    if bits != [] {
      NatBitsOfValue(bits[..8]);
      UnpackPack(bits[8..]);
      var p := Pack(bits);
      assert p[0] == BitsValue(bits[..8]) && p[1..] == Pack(bits[8..]);
      assert bits == bits[..8] + bits[8..];
    }
  }

  lemma {:induction false} UnpackAppend(a: seq<byte>, b: seq<byte>)
    ensures Unpack(a + b) == Unpack(a) + Unpack(b)
    decreases |a|
  {
    if a == [] {
      assert a + b == b;
    } else {
      assert (a + b)[0] == a[0] && (a + b)[1..] == a[1..] + b;
      UnpackAppend(a[1..], b);
    }
  }

  lemma {:induction false} BitsAtValue(bits: seq<bool>, pos: nat, len: nat)
    requires pos + len <= |bits|
    ensures BitsAt(bits, pos, len) == BitsValue(bits[pos..pos + len])
    decreases len
  {
    if len > 0 {
      BitsAtValue(bits, pos + 1, len - 1);
      var w := bits[pos..pos + len];
      assert w[0] == bits[pos] && w[1..] == bits[pos + 1..pos + len];
    }
  }

  /** The bits `Peek` compares with a code of `len` bits: the next ones, padded with zeros at the end. */
  lemma {:induction false} PeekWindow(bits: seq<bool>, pos: nat, len: byte) returns (w: seq<bool>)
    requires pos < |bits| && 1 <= len <= 8
    ensures |w| == len
    ensures Peek(bits, pos, len).Ok? && Peek(bits, pos, len).value.value == BitsValue(w)
    ensures len <= |bits| - pos ==> w == bits[pos..pos + len]
    ensures len > |bits| - pos ==> w == bits[pos..] + Zeros(len - (|bits| - pos))
  {
    var remaining := |bits| - pos;
    if len > remaining {
      w := PeekPadded(bits, pos, len);
    } else {
      BitsAtValue(bits, pos, len);
      w := bits[pos..pos + len];
    }
  }

  /** Near the end, `Peek` compares the remaining bits followed by zeros. */
  lemma {:induction false} PeekPadded(bits: seq<bool>, pos: nat, len: byte) returns (w: seq<bool>)
    requires pos < |bits| && |bits| - pos < len <= 8
    ensures w == bits[pos..] + Zeros(len - (|bits| - pos))
    ensures Peek(bits, pos, len) == Ok(Read(|bits| - pos, BitsValue(w)))
  {
    var remaining := |bits| - pos;
    BitsAtValue(bits, pos, remaining);
    assert bits[pos..pos + remaining] == bits[pos..];
    ShiftLeftZeros(bits[pos..], len - remaining);
    w := bits[pos..] + Zeros(len - remaining);
  }

  /** The window `Peek` takes at the start of a code's bits begins with them. */
  lemma {:induction false} WindowStarts(bits: seq<bool>, pos: nat, w: seq<bool>, c: seq<bool>)
    requires pos + |c| <= |bits| && bits[pos..pos + |c|] == c
    requires |w| <= |bits| - pos ==> w == bits[pos..pos + |w|]
    requires |w| > |bits| - pos ==> w == bits[pos..] + Zeros(|w| - (|bits| - pos))
    ensures |c| <= |w| ==> w[..|c|] == c
    ensures |w| <= |c| ==> c[..|w|] == w
  {
    if |w| > |bits| - pos {
      assert w[..|c|] == bits[pos..pos + |c|];
    } else if |c| <= |w| {
      assert w[..|c|] == bits[pos..pos + |c|];
    } else {
      assert c[..|w|] == bits[pos..pos + |w|];
    }
  }

  /** A code the stream does not start with does not match what the decoder peeks. */
  lemma {:induction false} PeekMisses(codes: seq<Code>, bits: seq<bool>, pos: nat, n: nat, i: nat)
    requires ValidCodes(codes) && PrefixFree(codes) && n < 16 && i < 16 && i != n
    requires pos + codes[n].length <= |bits| && bits[pos..pos + codes[n].length] == CodeBits(codes[n])
    ensures Peek(bits, pos, codes[i].length).Ok?
    ensures Peek(bits, pos, codes[i].length).value.value != codes[i].bits
  {
    var ci, cn := codes[i], codes[n];
    assert ValidCode(ci) && ValidCode(cn);
    assert NotPrefixOf(ci, cn) && NotPrefixOf(cn, ci);
    var w := PeekWindow(bits, pos, ci.length);
    WindowStarts(bits, pos, w, CodeBits(cn));
    assert w != CodeBits(ci);
    NatBitsOfValue(w);
  }

  /** The code the stream starts with matches what the decoder peeks. */
  lemma {:induction false} PeekHits(c: Code, bits: seq<bool>, pos: nat)
    requires ValidCode(c) && pos + c.length <= |bits| && bits[pos..pos + c.length] == CodeBits(c)
    ensures Peek(bits, pos, c.length) == Ok(Read(c.length, c.bits))
  {
    BitsAtValue(bits, pos, c.length);
    ValueOfNatBits(c.bits, c.length);
  }

  /** The search passes over every code before the one the stream starts with, and stops at it. */
  lemma {:induction false} FindCodeOf(codes: seq<Code>, bits: seq<bool>, pos: nat, n: nat, i: nat)
    requires ValidCodes(codes) && PrefixFree(codes) && n < 16 && i <= n
    requires pos + codes[n].length <= |bits| && bits[pos..pos + codes[n].length] == CodeBits(codes[n])
    ensures FindCode(codes, bits, pos, i) == Ok(Read(codes[n].length, n))
    decreases n - i
  {
    if i == n {
      PeekHits(codes[n], bits, pos);
    } else {
      PeekMisses(codes, bits, pos, n, i);
      FindCodeOf(codes, bits, pos, n, i + 1);
    }
  }

  /** With prefix-free codes, the decoder reads back the nibble whose code comes next. */
  lemma {:induction false} DecodeNibbleOf(codes: seq<Code>, bits: seq<bool>, pos: nat, end: nat, n: nat) returns (r: Read)
    requires ValidCodes(codes) && PrefixFree(codes) && n < 16
    requires end == pos + codes[n].length && end <= |bits| && bits[pos..end] == CodeBits(codes[n])
    ensures r == Read(end, n) && DecodeNibble(codes, bits, pos) == Ok(r)
  {
    FindCodeOf(codes, bits, pos, n, 0);
    NibbleFound(codes, bits, pos, codes[n].length, n);
    r := Read(end, n);
  }

  lemma {:induction false} NibbleFound(codes: seq<Code>, bits: seq<bool>, pos: nat, count: nat, n: nat)
    requires |codes| == 16 && pos <= |bits|
    requires FindCode(codes, bits, pos, 0) == Ok(Read(count, n))
    ensures DecodeNibble(codes, bits, pos) == Ok(Read(pos + count, n))
  {
  }

  /** The codes of a byte's two nibbles, then those of the rest. */
  lemma {:induction false} EncodeByte(codes: seq<Code>, bytes: seq<byte>)
    requires ValidCodes(codes) && bytes != []
    ensures var lo, hi := bytes[0] % 16, bytes[0] / 16;
            Encode(codes, Nibbles(bytes)) == CodeBits(codes[lo]) + CodeBits(codes[hi]) + Encode(codes, Nibbles(bytes[1..]))
  {
    var ns := Nibbles(bytes);
    assert ns[1..][1..] == Nibbles(bytes[1..]);
  }

  /** Three runs of bits that follow one another, from `p0` to `p3`. */
  lemma {:induction false} Consecutive(bits: seq<bool>, p0: nat, p1: nat, p2: nat, p3: nat, a: seq<bool>, b: seq<bool>, e: seq<bool>)
    requires p1 == p0 + |a| && p2 == p1 + |b| && p3 == p2 + |e| && p3 <= |bits|
    requires bits[p0..p3] == a + b + e
    ensures bits[p0..p1] == a && bits[p1..p2] == b && bits[p2..p3] == e
  {
    var window := bits[p0..p3];
    assert forall t :: 0 <= t < |a| ==> bits[p0 + t] == window[t] == a[t];
    assert forall t :: 0 <= t < |b| ==> bits[p1 + t] == window[|a| + t] == b[t];
    assert forall t :: 0 <= t < |e| ==> bits[p2 + t] == window[|a| + |b| + t] == e[t];
  }

  lemma {:induction false} ByteFound(codes: seq<Code>, bits: seq<bool>, pos: nat, low: Read, high: Read, next: nat, x: nat)
    requires |codes| == 16 && pos <= |bits|
    requires DecodeNibble(codes, bits, pos) == Ok(low) && low.count <= |bits|
    requires DecodeNibble(codes, bits, low.count) == Ok(high)
    requires next == high.count && x == high.value * 16 + low.value
    ensures DecodeByte(codes, bits, pos) == Ok(Read(next, x))
  {
  }

  lemma {:induction false} BytesFound(codes: seq<Code>, bits: seq<bool>, pos: nat, next: nat, bytes: seq<byte>)
    requires |codes| == 16 && pos <= |bits| && next <= |bits| && bytes != []
    requires DecodeByte(codes, bits, pos) == Ok(Read(next, bytes[0]))
    requires DecodeBytes(codes, bits, next, |bytes[1..]|) == Ok(bytes[1..])
    ensures DecodeBytes(codes, bits, pos, |bytes|) == Ok(bytes)
  {
    var n := |bytes|;
    assert n - 1 == |bytes[1..]|;
    assert DecodeBytes(codes, bits, pos, n) == Ok([bytes[0]] + bytes[1..]);
    assert [bytes[0]] + bytes[1..] == bytes;
  }

  /** With prefix-free codes, the decoder reads back the byte whose two codes come next. */
  lemma {:induction false} DecodeByteOf(codes: seq<Code>, bits: seq<bool>, pos: nat, mid: nat, next: nat, x: byte, a: seq<bool>, b: seq<bool>)
    requires ValidCodes(codes) && PrefixFree(codes)
    requires a == CodeBits(codes[x % 16]) && b == CodeBits(codes[x / 16])
    requires mid == pos + |a| && next == mid + |b| && next <= |bits|
    requires bits[pos..mid] == a && bits[mid..next] == b
    ensures DecodeByte(codes, bits, pos) == Ok(Read(next, x))
  {
    var low := DecodeNibbleOf(codes, bits, pos, mid, x % 16);
    var high := DecodeNibbleOf(codes, bits, mid, next, x / 16);
    ByteFound(codes, bits, pos, low, high, next, x);
  }

  /** The first byte of some encoded bytes decodes, and the codes of the rest follow it. */
  lemma {:induction false} DecodeFirst(codes: seq<Code>, bytes: seq<byte>, bits: seq<bool>, pos: nat) returns (next: nat)
    requires ValidCodes(codes) && PrefixFree(codes) && bytes != []
    requires pos + |Encode(codes, Nibbles(bytes))| <= |bits|
    requires bits[pos..pos + |Encode(codes, Nibbles(bytes))|] == Encode(codes, Nibbles(bytes))
    ensures DecodeByte(codes, bits, pos) == Ok(Read(next, bytes[0]))
    ensures next + |Encode(codes, Nibbles(bytes[1..]))| <= |bits|
    ensures bits[next..next + |Encode(codes, Nibbles(bytes[1..]))|] == Encode(codes, Nibbles(bytes[1..]))
  {
    var a, b := CodeBits(codes[bytes[0] % 16]), CodeBits(codes[bytes[0] / 16]);
    var e := Encode(codes, Nibbles(bytes[1..]));
    EncodeByte(codes, bytes);
    var mid := pos + |a|;
    next := mid + |b|;
    Consecutive(bits, pos, mid, next, next + |e|, a, b, e);
    DecodeByteOf(codes, bits, pos, mid, next, bytes[0], a, b);
  }

  /** With prefix-free codes, decoding the codes of some bytes gives those bytes. */
  lemma {:induction false} DecodeEncoded(codes: seq<Code>, bytes: seq<byte>, bits: seq<bool>, pos: nat)
    requires ValidCodes(codes) && PrefixFree(codes)
    requires pos + |Encode(codes, Nibbles(bytes))| <= |bits|
    requires bits[pos..pos + |Encode(codes, Nibbles(bytes))|] == Encode(codes, Nibbles(bytes))
    ensures DecodeBytes(codes, bits, pos, |bytes|) == Ok(bytes)
    decreases |bytes|
  {
    if bytes != [] {
      var next := DecodeFirst(codes, bytes, bits, pos);
      DecodeEncoded(codes, bytes[1..], bits, next);
      BytesFound(codes, bits, pos, next, bytes);
    }
  }


  /**
   * With prefix-free codes, decompressing what `compress_to_slice` wrote
   * gives the bytes back, as long as `out` had room for all of it.
   */
  lemma {:induction false} CompressRoundTrip(codes: seq<Code>, bytes: seq<byte>, out: seq<byte>)
    requires ValidCodes(codes) && PrefixFree(codes)
    requires |Compressed(codes, bytes)| <= |out|
    ensures DecompressToSlice(codes, CompressToSlice(codes, bytes, out), |bytes|) == Ok(bytes)
  {
    var e := Encode(codes, Nibbles(bytes));
    var data := Compressed(codes, bytes);
    var r := CompressToSlice(codes, bytes, out);
    assert r == data + out[|data|..];
    UnpackAppend(data, out[|data|..]);
    UnpackPack(PadBits(e));
    var bits := Unpack(r);
    assert bits[..|e|] == e;
    DecodeEncoded(codes, bytes, bits, 0);
  }

  // ---------------------------------------------------------------------
  // Prefix-freeness by arithmetic

  /** The leading `a.length` bits of `b`, read as a number, are not the value of `a`. */
  predicate Separated(a: Code, b: Code)
    requires ValidCode(a) && ValidCode(b)
  {
    a.length <= b.length ==> b.bits / Pow2(b.length - a.length) != a.bits
  }

  /** The first `m` bits of a code are worth its value shifted right by the rest. */
  lemma {:induction false} PrefixValue(c: Code, m: nat)
    requires ValidCode(c) && m <= c.length
    ensures BitsValue(CodeBits(c)[..m]) == c.bits / Pow2(c.length - m)
  {
    var bs := CodeBits(c);
    var pre, suf := bs[..m], bs[m..];
    assert pre + suf == bs;
    BitsValueAppend(pre, suf);
    ValueOfNatBits(c.bits, c.length);
    BitsValueBound(suf);
    DivUnique(BitsValue(pre), Pow2(|suf|), BitsValue(suf), c.bits);
  }

  /** Codes whose values are separated are prefix-free, the condition the decoder relies on. */
  lemma {:induction false} SeparatedPrefixFree(codes: seq<Code>)
    requires ValidCodes(codes)
    requires forall i, j :: 0 <= i < 16 && 0 <= j < 16 && i != j ==> Separated(codes[i], codes[j])
    ensures PrefixFree(codes)
  {
    forall i, j | 0 <= i < 16 && 0 <= j < 16 && i != j
      ensures NotPrefixOf(codes[i], codes[j])
    {
      var a, b := codes[i], codes[j];
      if a.length <= b.length {
        PrefixValue(b, a.length);
        ValueOfNatBits(a.bits, a.length);
      }
    }
  }

  // ---------------------------------------------------------------------
  // The diff16 filter

  /** `a.wrapping_sub(b)` on u16. */
  function WrappingSub(a: u16, b: u16): u16 {
    if a >= b then a - b else a - b + 0x1_0000
  }

  /** `a.wrapping_add(b)` on u16. */
  function WrappingAdd(a: u16, b: u16): u16 {
    if a + b < 0x1_0000 then a + b else a + b - 0x1_0000
  }

  /** Each word less the one before it, wrapping, the first less `prev`. */
  function Diff(ws: seq<u16>, prev: u16): (r: seq<u16>)
    ensures |r| == |ws|
  {
    if ws == [] then [] else [WrappingSub(ws[0], prev)] + Diff(ws[1..], ws[0])
  }

  /** Running sums of the words, wrapping, starting from `prev`. */
  function Undiff(ws: seq<u16>, prev: u16): (r: seq<u16>)
    ensures |r| == |ws|
  {
    if ws == [] then []
    else
      var value := WrappingAdd(ws[0], prev);
      [value] + Undiff(ws[1..], value)
  }

  lemma {:induction false} UndiffDiff(ws: seq<u16>, prev: u16)
    ensures Undiff(Diff(ws, prev), prev) == ws
  {
    if ws != [] {
      var d := Diff(ws, prev);
      assert WrappingAdd(d[0], prev) == ws[0];
      assert d[1..] == Diff(ws[1..], ws[0]);
      UndiffDiff(ws[1..], ws[0]);
    }
  }

  lemma {:induction false} DiffUndiff(ws: seq<u16>, prev: u16)
    ensures Diff(Undiff(ws, prev), prev) == ws
  {
    if ws != [] {
      var u := Undiff(ws, prev);
      assert WrappingSub(u[0], prev) == ws[0];
      assert u[1..] == Undiff(ws[1..], u[0]);
      DiffUndiff(ws[1..], u[0]);
    }
  }

  /** `data_to_diff16`: every little-endian word less the one before it. */
  function DataToDiff16(data: seq<byte>): (r: Result<seq<byte>, HuffmanError>)
    ensures r.Ok? <==> |data| % 2 == 0
    ensures r.Ok? ==> |r.value| == |data|
  {
    if |data| % 2 != 0 then Err(OddLength)
    else Ok(Words16Bytes(Diff(Words16(data), 0)))
  }

  /** `diff16_to_data`: every little-endian word plus the sum before it. */
  function Diff16ToData(data: seq<byte>): (r: Result<seq<byte>, HuffmanError>)
    ensures r.Ok? <==> |data| % 2 == 0
    ensures r.Ok? ==> |r.value| == |data|
  {
    if |data| % 2 != 0 then Err(OddLength)
    else Ok(Words16Bytes(Undiff(Words16(data), 0)))
  }

  /** Undoing the differences restores the data. */
  lemma {:induction false} Diff16RoundTrip(data: seq<byte>)
    requires |data| % 2 == 0
    ensures DataToDiff16(data).Ok? && Diff16ToData(DataToDiff16(data).value) == Ok(data)
  {
    var ws := Words16(data);
    Words16OfBytes(Diff(ws, 0));
    UndiffDiff(ws, 0);
    BytesOfWords16(data);
  }

  /** Taking the differences of the running sums restores the data. */
  lemma {:induction false} Diff16InverseRoundTrip(data: seq<byte>)
    requires |data| % 2 == 0
    ensures Diff16ToData(data).Ok? && DataToDiff16(Diff16ToData(data).value) == Ok(data)
  {
    var ws := Words16(data);
    Words16OfBytes(Undiff(ws, 0));
    DiffUndiff(ws, 0);
    BytesOfWords16(data);
  }

  lemma {:induction false} DiffHead(ws: seq<u16>)
    requires |ws| >= 1
    ensures Diff(ws, 0)[0] == ws[0]
  {
  }


  lemma {:induction false} FirstWordBytes(data: seq<byte>)
    requires |data| >= 2
    ensures U16Bytes(ReadU16(data, 0)) == data[..2]
  {
    var first := data[..2];
    U16RoundTrip(0, data, 0);
    assert data[0..2] == first;
  }

  /** The first word is kept, as the running difference starts from zero. */
  lemma {:induction false} DiffKeepsFirst(data: seq<byte>)
    requires |data| % 2 == 0 && |data| >= 2
    ensures DataToDiff16(data).value[..2] == data[..2]
  {
    var d := Diff(Words16(data), 0);
    Words16Head(data);
    DiffHead(Words16(data));
    Words16BytesHead(d);
    FirstWordBytes(data);
  }
}
