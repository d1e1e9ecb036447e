/**
 * The backwards LZ77 codec of Nintendo DS binaries (lib/src/compress/lz77.rs).
 *
 * A compressed image is a verbatim prefix, a token stream that is read from
 * its END towards its start, 0xff padding and an 8-byte footer. Each group
 * of up to eight tokens is preceded (at the higher address) by a flag byte
 * whose bits, most significant first, say whether the next token is a
 * literal byte or a two-byte length/distance pair. The decoder produces
 * its output back to front, so the result is reversed at the end.
 *
 * Rust's debug-build panics (an index out of range, a `usize` subtraction
 * that underflows) are the `Lz77Error` values below.
 */
module Lz77 {
  import opened Common

  const LengthBits: nat := 4
  const DistanceBits: nat := 12
  const MinSubsequence: nat := 3
  const MinDistance: nat := 3
  const LengthMask: nat := 0xf
  const DistanceMask: nat := 0xfff
  const MaxSubsequence: nat := MinSubsequence + LengthMask
  const Lookahead: nat := 0x1000

  /** Why an LZ77 operation panics. */
  datatype Lz77Error =
    | FooterTooShort        // fewer than the 8 footer bytes
    | TotalSizeTooLarge     // the stored total size exceeds the input length
    | ReadOffsetTooLarge    // the token stream would end before it starts
    | PairAtStart           // a pair token would begin before the first byte
    | DistanceTooFar        // a back-reference before the start of the output
    | WriteOffsetNegative   // the footer's write offset underflows
    | TotalSizeUnderflow    // more identical bytes than the total size
    | StartBeyondInput      // the verbatim prefix is longer than the input
    | IndexOutOfRange       // the match search reads past the input
    | DistanceUnderflow     // the match search subtracts below zero

  /** A length/distance back-reference. */
  datatype Pair = Pair(length: nat, distance: nat)

  /** The pairs a two-byte token can express. */
  predicate ValidPair(p: Pair) {
    MinSubsequence <= p.length <= MaxSubsequence && MinDistance <= p.distance <= MinDistance + DistanceMask
  }

  /**
   * The two token bytes of a pair, low byte first. The length sits in the
   * top four bits and the distance in the low twelve; as the two fields do
   * not overlap, the source's shift-and-or is the sum written here.
   */
  function PairToBytes(p: Pair): (r: seq<byte>)
    requires p.length >= MinSubsequence && p.distance >= MinDistance
    ensures |r| == 2
  {
    U16Bytes(PairWord(p))
  }

  /** The pair a two-byte token stands for. */
  function PairFromBytes(b: seq<byte>): (p: Pair)
    requires |b| == 2
    ensures ValidPair(p)
  {
    WordPair(ReadU16(b, 0))
  }

  /** The token word of a pair: length in the top four bits, distance in the low twelve. */
  function PairWord(p: Pair): u16
    requires p.length >= MinSubsequence && p.distance >= MinDistance
  {
    ((p.length - MinSubsequence) % (LengthMask + 1)) * 0x1000 + (p.distance - MinDistance) % (DistanceMask + 1)
  }

  /** The pair a token word stands for. */
  function WordPair(v: u16): (p: Pair)
    ensures ValidPair(p)
  {
    Pair(v / 0x1000 % (LengthMask + 1) + MinSubsequence, v % (DistanceMask + 1) + MinDistance)
  }

  /** The two fields of a token word do not overlap. */
  lemma {:induction false} WordPairWord(p: Pair)
    requires ValidPair(p)
    ensures WordPair(PairWord(p)) == p
  {
    var a, b := p.length - MinSubsequence, p.distance - MinDistance;
    assert a % 16 == a && b % 0x1000 == b;
    assert (a * 0x1000 + b) / 0x1000 == a && (a * 0x1000 + b) % 0x1000 == b;
  }

  lemma {:induction false} PairWordPair(v: u16)
    ensures PairWord(WordPair(v)) == v
  {
    assert v / 0x1000 < 16 && v / 0x1000 % 16 == v / 0x1000;
  }

  /** Every expressible pair survives encoding and decoding. */
  lemma {:induction false} PairRoundTrip(p: Pair)
    requires ValidPair(p)
    ensures PairFromBytes(PairToBytes(p)) == p
  {
    WordPairWord(p);
    U16RoundTrip(PairWord(p), [0, 0], 0);
  }

  /** Every pair of bytes is the encoding of the pair it decodes to. */
  lemma {:induction false} PairBytesRoundTrip(b: seq<byte>)
    requires |b| == 2
    ensures PairToBytes(PairFromBytes(b)) == b
  {
    PairWordPair(ReadU16(b, 0));
    U16BytesOf(b);
  }

  // ---------------------------------------------------------------------
  // Match search (find_match)

  /**
   * The inner loop of the match search: it grows `length` while the bytes
   * it compares agree. The indices it compares are `pos + needle - length`
   * and `pos + haystack - length`, with the needle equal to `pos`; reading
   * past the input panics.
   */
  function MatchLength(bytes: seq<byte>, pos: nat, haystack: nat, length: nat): (r: Result<nat, Lz77Error>)
    requires pos < haystack < |bytes| && length <= MaxSubsequence
    ensures r.Ok? ==> length <= r.value <= MaxSubsequence
    decreases MaxSubsequence - length
  {
    if pos < length then Ok(length)
    else if pos + pos - length >= |bytes| || pos + haystack - length >= |bytes| then Err(IndexOutOfRange)
    else if bytes[pos + pos - length] != bytes[pos + haystack - length] then Ok(length)
    else if haystack <= pos + length then Ok(length)
    else if length >= MaxSubsequence then Ok(length)
    else MatchLength(bytes, pos, haystack, length + 1)
  }

  function BestLength(best: Option<Pair>): nat {
    if best.Some? then best.value.length else 0
  }

  /** Bound on the pairs the search may report. */
  predicate Reportable(p: Pair) {
    p.length <= MaxSubsequence && p.distance <= DistanceMask
  }

  /** The fold of the match search over candidate offsets `i..max`. */
  function SearchFrom(bytes: seq<byte>, pos: nat, i: nat, max: nat, best: Option<Pair>): (r: Result<Option<Pair>, Lz77Error>)
    requires pos + max < |bytes|
    requires best.Some? ==> Reportable(best.value)
    ensures r.Ok? && r.value.Some? ==> Reportable(r.value.value)
    decreases max - i
  {
    if i >= max then Ok(best)
    else
      var haystack := pos + 1 + i;
      if bytes[pos] != bytes[haystack] then SearchFrom(bytes, pos, i + 1, max, best)
      else
        match MatchLength(bytes, pos, haystack, 0)
        case Err(e) => Err(e)
        case Ok(length) =>
          if haystack < pos + MinSubsequence then Err(DistanceUnderflow)
          else
            var distance := haystack - pos - MinSubsequence;
            var best' := if length > BestLength(best) && distance <= DistanceMask then Some(Pair(length, distance)) else best;
            SearchFrom(bytes, pos, i + 1, max, best')
  }

  /**
   * The longest match for the byte at `pos` among the following bytes,
   * dropped when shorter than three bytes.
   */
  function FindMatch(bytes: seq<byte>, pos: nat): (r: Result<Option<Pair>, Lz77Error>)
    requires pos < |bytes|
    ensures r.Ok? && r.value.Some? ==>
              MinSubsequence <= r.value.value.length <= MaxSubsequence && r.value.value.distance <= DistanceMask
    ensures pos == |bytes| - 1 ==> r == Ok(None)
  {
    var max := if Lookahead + MinDistance + MaxSubsequence < |bytes| - pos - 1
               then Lookahead + MinDistance + MaxSubsequence else |bytes| - pos - 1;
    match SearchFrom(bytes, pos, 0, max, None)
    case Err(e) => Err(e)
    case Ok(best) => Ok(if best.Some? && best.value.length >= MinSubsequence then best else None)
  }

  /**
   * The search already takes the minimum distance off (`haystack - needle -
   * MIN_SUBSEQUENCE`), and `to_le_bytes` takes it off again, so a match
   * three bytes on is reported with distance 0: a pair no token expresses,
   * on which `to_le_bytes` underflows.
   */
  lemma {:induction false} ZeroDistanceMatch()
    ensures FindMatch([1, 2, 3, 1, 2, 3, 1, 2], 2) == Ok(Some(Pair(3, 0)))
    ensures !ValidPair(Pair(3, 0))
  {
    var bytes: seq<byte> := [1, 2, 3, 1, 2, 3, 1, 2];
    assert MatchLength(bytes, 2, 5, 0) == Ok(3);
  }

  // ---------------------------------------------------------------------
  // Decoding (decompress_bytes)

  /** Appends `k` bytes, each copied from index `src`, `src + 1`, ... of the growing output. */
  function CopyFrom(out: seq<byte>, src: nat, k: nat): (r: seq<byte>)
    requires src < |out|
    ensures |r| == |out| + k
    decreases k
  {
    if k == 0 then out else CopyFrom(out + [out[src]], src + 1, k - 1)
  }

  /** Copying only appends: the output produced so far is kept. */
  lemma {:induction false} CopyFromKeeps(out: seq<byte>, src: nat, k: nat)
    requires src < |out|
    ensures CopyFrom(out, src, k)[..|out|] == out
    decreases k
  {
    if k > 0 {
      CopyFromKeeps(out + [out[src]], src + 1, k - 1);
      assert CopyFrom(out, src, k)[..|out|] == CopyFrom(out, src, k)[..|out| + 1][..|out|];
    }
  }

  /** Where the decoder stands after a token: the next byte to read and the output so far. */
  datatype Step = Step(read: int, out: seq<byte>)

  /**
   * One token of the decoder's inner loop, ending at `read`: a literal byte
   * when the top bit of `flags` is clear, else a pair in the two bytes
   * ending at `read`, copied from `distance` bytes back in the output.
   */
  function TokenStep(data: seq<byte>, read: int, flags: byte, out: seq<byte>): (r: Result<Step, Lz77Error>)
    requires 0 <= read < |data|
    ensures r.Ok? ==> -1 <= r.value.read < read && |r.value.out| > |out|
  {
    if flags < 0x80 then Ok(Step(read - 1, out + [data[read]]))
    else if read == 0 then Err(PairAtStart)  // `read as usize - 1` underflows
    else
      var pair := PairFromBytes(data[read - 1..read + 1]);
      if pair.distance > |out| then Err(DistanceTooFar)  // `pos - pair.distance` underflows
      else Ok(Step(read - 2, CopyFrom(out, |out| - pair.distance, pair.length)))
  }

  /**
   * The decoder's outer loop: while `read > 0`, take the flag byte at
   * `read` and decode up to eight tokens below it.
   */
  function DecompressBytes(data: seq<byte>, read: int, out: seq<byte>): Result<seq<byte>, Lz77Error>
    requires -1 <= read < |data|
    decreases read + 1, 0
  {
    if read <= 0 then Ok(out)
    else DecodeTokens(data, read - 1, data[read], 8, out)
  }

  /**
   * The decoder's inner loop: `n` flag bits remain, the next in the top bit
   * of `flags`; it stops early once `read` drops below zero.
   */
  function DecodeTokens(data: seq<byte>, read: int, flags: byte, n: nat, out: seq<byte>): Result<seq<byte>, Lz77Error>
    requires 0 <= read < |data|
    decreases read + 1, n + 1
  {
    if n == 0 then DecompressBytes(data, read, out)
    else
      match TokenStep(data, read, flags, out)
      case Err(e) => Err(e)
      case Ok(step) =>
        if step.read < 0 then Ok(step.out)
        else DecodeTokens(data, step.read, flags * 2 % 0x100, n - 1, step.out)
  }

  /** A token reads nothing above its own last byte. */
  lemma {:induction false} TokenStepLocal(d1: seq<byte>, d2: seq<byte>, read: int, flags: byte, out: seq<byte>)
    requires 0 <= read < |d1| && read < |d2| && d1[..read + 1] == d2[..read + 1]
    ensures TokenStep(d1, read, flags, out) == TokenStep(d2, read, flags, out)
  {
    assert d1[read] == d1[..read + 1][read];
    if read >= 1 {
      assert d1[read - 1..read + 1] == d1[..read + 1][read - 1..];
      assert d2[read - 1..read + 1] == d2[..read + 1][read - 1..];
    }
  }

  /** The decoder never reads above `read`. */
  lemma {:induction false} DecompressLocal(d1: seq<byte>, d2: seq<byte>, read: int, out: seq<byte>)
    requires -1 <= read < |d1| && read < |d2| && d1[..read + 1] == d2[..read + 1]
    ensures DecompressBytes(d1, read, out) == DecompressBytes(d2, read, out)
    decreases read + 1, 0
  {
    if read > 0 {
      assert d1[read] == d1[..read + 1][read];
      assert d1[..read] == d1[..read + 1][..read] && d2[..read] == d2[..read + 1][..read];
      DecodeLocal(d1, d2, read - 1, d1[read], 8, out);
    }
  }

  lemma {:induction false} DecodeLocal(d1: seq<byte>, d2: seq<byte>, read: int, flags: byte, n: nat, out: seq<byte>)
    requires 0 <= read < |d1| && read < |d2| && d1[..read + 1] == d2[..read + 1]
    ensures DecodeTokens(d1, read, flags, n, out) == DecodeTokens(d2, read, flags, n, out)
    decreases read + 1, n + 1
  {
    if n == 0 {
      DecompressLocal(d1, d2, read, out);
    } else {
      TokenStepLocal(d1, d2, read, flags, out);
      var r := TokenStep(d1, read, flags, out);
      if r.Ok? && r.value.read >= 0 {
        var k := r.value.read;
        assert d1[..k + 1] == d1[..read + 1][..k + 1] && d2[..k + 1] == d2[..read + 1][..k + 1];
        DecodeLocal(d1, d2, k, flags * 2 % 0x100, n - 1, r.value.out);
      }
    }
  }

  // ---------------------------------------------------------------------
  // Footer

  /** The three fields of the footer. */
  datatype Footer = Footer(totalSize: nat, readOffset: nat, writeOffset: nat)

  /** The word width of the host, which fixes the size of a `usize` image. */
  datatype Width = W32 | W64

  /** `usize::to_le_bytes` on the host. */
  function UsizeBytes(v: nat, w: Width): (r: seq<byte>)
    ensures |r| == if w == W32 then 4 else 8
  {
    if w == W32 then U32Bytes(v % 0x1_0000_0000)
    else U32Bytes(v % 0x1_0000_0000) + U32Bytes(v / 0x1_0000_0000 % 0x1_0000_0000)
  }

  /** The footer fields read from the last eight bytes. */
  function ReadFooter(bytes: seq<byte>): (r: Result<Footer, Lz77Error>)
    ensures r.Ok? <==> |bytes| >= 8
    ensures r.Ok? ==> r.value.readOffset == bytes[|bytes| - 5] && r.value.totalSize < 0x100_0000
  {
    if |bytes| < 8 then Err(FooterTooShort)
    else
      var n := |bytes|;
      Ok(Footer(ReadU32(bytes[n - 8..n - 5] + [0], 0), bytes[n - 5], ReadU32(bytes, n - 4)))
  }

  /** The padding before the footer: `3 ^ (len & 3)` bytes of 0xff. */
  function PaddingLength(len: nat): (r: nat)
    ensures r <= 3 && (len + r) % 4 == 3
  {
    3 - len % 4  // exclusive or with 3 complements the two low bits
  }

  /**
   * Pads `compressed` and appends the footer: the low three bytes of the
   * total size less the identical bytes, the read offset and the write
   * offset as a host `usize`.
   */
  function WriteFooter(compressed: seq<byte>, inputLength: nat, start: nat, numIdentical: nat, w: Width): (r: Result<seq<byte>, Lz77Error>)
    ensures r.Ok? ==> var pad := PaddingLength(|compressed|);
      && |r.value| == |compressed| + pad + 4 + (if w == W32 then 4 else 8)
      && r.value[..|compressed|] == compressed
      && r.value[|compressed|..|compressed| + pad] == Fill(0xff, pad)
      && r.value[|compressed| + pad + 3] == (pad + 8) as byte
  {
    var padding := PaddingLength(|compressed|);
    var padded := compressed + Fill(0xff, padding);
    var totalSize := |padded| + 8;
    if inputLength < totalSize + start then Err(WriteOffsetNegative)
    else if totalSize < numIdentical then Err(TotalSizeUnderflow)
    else
      var writeOffset := inputLength - totalSize - start;
      var stored := totalSize - numIdentical;
      Ok(padded + U32Bytes(stored % 0x1_0000_0000)[..3] + [padding + 8] + UsizeBytes(writeOffset, w))
  }

  /**
   * `Lz77::compress` given what `compress_bytes` produced for
   * `bytes[start..]`: its body, written back to front, and its count of
   * identical bytes. The first `start` bytes are kept verbatim.
   */
  function Compress(bytes: seq<byte>, start: nat, body: seq<byte>, numIdentical: nat, w: Width): (r: Result<seq<byte>, Lz77Error>)
    ensures start > |bytes| ==> r == Err(StartBeyondInput)
    ensures r.Ok? ==> |r.value| >= start && r.value[..start] == bytes[..start]
  {
    if start > |bytes| then Err(StartBeyondInput)
    else
      var r := WriteFooter(bytes[..start] + Reverse(body), |bytes|, start, numIdentical, w);
      assert r.Ok? ==> r.value[..start] == r.value[..start + |body|][..start];
      r
  }

  /** A footer holding a total size below 2^24 reads back field by field. */
  lemma {:induction false} ReadFooterOf(prefix: seq<byte>, stored: nat, ro: byte, wo: u32)
    requires stored < 0x100_0000
    ensures ReadFooter(prefix + U32Bytes(stored)[..3] + [ro] + U32Bytes(wo)) == Ok(Footer(stored, ro, wo))
  {
    var s := U32Bytes(stored)[..3];
    var o := U32Bytes(wo);
    var r := prefix + s + [ro] + o;
    var n := |r|;
    assert r[n - 8..n - 5] == s;
    assert r[n - 5] == ro;
    U32Top(stored);
    U32RoundTrip(stored, [0, 0, 0, 0], 0);
    U32RoundTrip(wo, [0, 0, 0, 0], 0);
    assert r[n - 4..n] == o[0..4];
    ReadU32Local(r, n - 4, o, 0);
  }

  /** A word below 2^24 has a zero top byte. */
  lemma {:induction false} U32Top(v: nat)
    requires v < 0x100_0000
    ensures U32Bytes(v) == U32Bytes(v)[..3] + [0]
  {
    assert v / 0x100 / 0x100 < 0x100;
  }

  /** A value below 2^32 is its own low word and has no high word. */
  lemma {:induction false} Low32(v: nat)
    requires v < 0x1_0000_0000
    ensures v % 0x1_0000_0000 == v && v / 0x1_0000_0000 % 0x1_0000_0000 == 0
  {
  }

  /** The image `WriteFooter` produces, spelled out. */
  lemma {:induction false} WriteFooterImage(compressed: seq<byte>, inputLength: nat, start: nat, numIdentical: nat, w: Width)
    requires WriteFooter(compressed, inputLength, start, numIdentical, w).Ok?
    ensures var pad := PaddingLength(|compressed|);
            var total := |compressed| + pad + 8;
            && inputLength >= total + start && total >= numIdentical
            && WriteFooter(compressed, inputLength, start, numIdentical, w).value
               == compressed + Fill(0xff, pad) + U32Bytes((total - numIdentical) % 0x1_0000_0000)[..3] + [pad + 8]
                  + UsizeBytes(inputLength - total - start, w)
  {
  }

  /**
   * On a 32-bit host, where no input reaches 4 GiB, the footer reads back
   * what was written as long as the total size fits in its three bytes.
   */
  lemma {:induction false} FooterRoundTrip(compressed: seq<byte>, inputLength: nat, start: nat, numIdentical: nat)
    requires WriteFooter(compressed, inputLength, start, numIdentical, W32).Ok?
    requires inputLength < 0x1_0000_0000
    requires |compressed| + PaddingLength(|compressed|) + 8 - numIdentical < 0x100_0000
    ensures var pad := PaddingLength(|compressed|);
            var total := |compressed| + pad + 8;
            ReadFooter(WriteFooter(compressed, inputLength, start, numIdentical, W32).value)
              == Ok(Footer(total - numIdentical, pad + 8, inputLength - total - start))
  {
    var pad := PaddingLength(|compressed|);
    var total := |compressed| + pad + 8;
    WriteFooterImage(compressed, inputLength, start, numIdentical, W32);
    var stored, wo := total - numIdentical, inputLength - total - start;
    Low32(stored);
    Low32(wo);
    ReadFooterOf(compressed + Fill(0xff, pad), stored, pad + 8, wo);
  }

  /**
   * On a 64-bit host the write offset takes eight bytes, so the reader's
   * fixed positions fall inside it: for a write offset below 2^24 the
   * reader sees the write offset as the total size, and zero as both the
   * read offset and the write offset.
   */
  lemma {:induction false} WideFooterMisread(compressed: seq<byte>, inputLength: nat, start: nat, numIdentical: nat)
    requires WriteFooter(compressed, inputLength, start, numIdentical, W64).Ok?
    requires inputLength - (|compressed| + PaddingLength(|compressed|) + 8) - start < 0x100_0000
    ensures var total := |compressed| + PaddingLength(|compressed|) + 8;
            ReadFooter(WriteFooter(compressed, inputLength, start, numIdentical, W64).value)
              == Ok(Footer(inputLength - total - start, 0, 0))
  {
    var pad := PaddingLength(|compressed|);
    var total := |compressed| + pad + 8;
    WriteFooterImage(compressed, inputLength, start, numIdentical, W64);
    var wo := inputLength - total - start;
    var stored := total - numIdentical;
    Low32(wo);
    U32Top(wo);
    var prefix := compressed + Fill(0xff, pad) + U32Bytes(stored % 0x1_0000_0000)[..3] + [pad + 8];
    var lo := U32Bytes(wo);
    assert UsizeBytes(wo, W64) == lo[..3] + [0] + U32Bytes(0);
    assert prefix + UsizeBytes(wo, W64) == prefix + lo[..3] + [0] + U32Bytes(0);
    ReadFooterOf(prefix, wo, 0, 0);
  }

  // ---------------------------------------------------------------------
  // Decompression

  /**
   * `Lz77::decompress`: the bytes before the stored total size are copied
   * verbatim; the token stream between them and the read offset is
   * decoded and reversed.
   */
  function Decompress(bytes: seq<byte>): (r: Result<seq<byte>, Lz77Error>)
    ensures |bytes| < 8 ==> r == Err(FooterTooShort)
    ensures r.Ok? ==> |bytes| >= 8 && ReadFooter(bytes).value.totalSize <= |bytes| &&
                      var ni := |bytes| - ReadFooter(bytes).value.totalSize;
                      |r.value| >= ni && r.value[..ni] == bytes[..ni]
  {
    match ReadFooter(bytes)
    case Err(e) => Err(e)
    case Ok(f) =>
      if f.totalSize > |bytes| then Err(TotalSizeTooLarge)
      else
        var ni := |bytes| - f.totalSize;
        if f.readOffset > f.totalSize then Err(ReadOffsetTooLarge)
        else
          var body := bytes[ni..ni + f.totalSize - f.readOffset];
          match DecompressBytes(body, |body| - 1, [])
          case Err(e) => Err(e)
          case Ok(d) => Ok(bytes[..ni] + Reverse(d))
  }

}
