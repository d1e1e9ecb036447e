/**
 * A reference encoder for the token stream of the backwards LZ77 codec,
 * and the proof that the decoder of lib/src/compress/lz77.rs inverts it.
 *
 * The encoder of the source is not modelled (its defects are listed in
 * the README); instead a stream is built from any list of tokens the
 * decoder can replay: the tokens are cut into groups of eight from the
 * first, and each group is laid out below its flag byte with its first
 * token at the top, exactly as the decoder walks it.
 */
module Lz77Stream {
  import opened Common
  import opened Lz77

  /** A decoded token. */
  datatype Token = Literal(b: byte) | Copy(pair: Pair)

  /** The output after one token. */
  function Apply(out: seq<byte>, t: Token): (r: seq<byte>)
    requires t.Copy? ==> 1 <= t.pair.distance <= |out|
  {
    match t
    case Literal(b) => out + [b]
    case Copy(p) => CopyFrom(out, |out| - p.distance, p.length)
  }

  /** Every pair of `ts` is expressible and refers to bytes already produced. */
  predicate Decodable(out: seq<byte>, ts: seq<Token>)
    decreases |ts|
  {
    ts == [] ||
    ((ts[0].Copy? ==> ValidPair(ts[0].pair) && ts[0].pair.distance <= |out|) &&
     Decodable(Apply(out, ts[0]), ts[1..]))
  }

  /** The output after all of `ts`. */
  function ApplyAll(out: seq<byte>, ts: seq<Token>): seq<byte>
    requires Decodable(out, ts)
    decreases |ts|
  {
    if ts == [] then out else ApplyAll(Apply(out, ts[0]), ts[1..])
  }

  /** Replaying tokens only appends to the output. */
  lemma {:induction false} ApplyAllKeeps(out: seq<byte>, ts: seq<Token>)
    requires Decodable(out, ts)
    ensures |ApplyAll(out, ts)| >= |out| && ApplyAll(out, ts)[..|out|] == out
    decreases |ts|
  {
    if ts != [] {
      var t := ts[0];
      var o := Apply(out, t);
      if t.Copy? {
        CopyFromKeeps(out, |out| - t.pair.distance, t.pair.length);
      } else {
        assert o[..|out|] == out;
      }
      ApplyAllKeeps(o, ts[1..]);
      assert ApplyAll(out, ts)[..|out|] == ApplyAll(out, ts)[..|o|][..|out|];
    }
  }

  /** A token's bytes in address order: a pair stores its low byte below its high byte. */
  function TokenBytes(t: Token): (r: seq<byte>)
    requires t.Copy? ==> ValidPair(t.pair)
    ensures 1 <= |r| <= 2
  {
    match t
    case Literal(b) => [b]
    case Copy(p) => PairToBytes(p)
  }

  /**
   * A pair's bytes in address order as the source's encoder leaves them:
   * it appends the low byte and then the high byte to a buffer that it
   * reverses afterwards, so the high byte ends up below the low one.
   */
  function WrittenPairBytes(p: Pair): (r: seq<byte>)
    requires ValidPair(p)
    ensures |r| == 2
  {
    var e := PairToBytes(p);
    [e[1], e[0]]
  }

  /**
   * The decoder reads the bytes the encoder leaves back as the same pair
   * only when the pair's two bytes happen to be equal.
   */
  lemma {:induction false} WrittenPairMisread(p: Pair)
    requires ValidPair(p)
    ensures PairFromBytes(WrittenPairBytes(p)) == p <==> PairToBytes(p)[0] == PairToBytes(p)[1]
  {
    var e := PairToBytes(p);
    if PairFromBytes(WrittenPairBytes(p)) == p {
      PairBytesRoundTrip(WrittenPairBytes(p));
    } else if e[0] == e[1] {
      assert WrittenPairBytes(p) == e;
      PairRoundTrip(p);
    }
  }

  /** `Pair(3, 4)` is the word 1, stored low byte first as `[1, 0]`; left as `[0, 1]`, it reads back as `Pair(3, 259)`. */
  lemma {:induction false} WrittenPairExample()
    ensures PairToBytes(Pair(3, 4)) == [1, 0] && WrittenPairBytes(Pair(3, 4)) == [0, 1]
    ensures PairFromBytes(WrittenPairBytes(Pair(3, 4))) == Pair(3, 259)
  {
    assert PairWord(Pair(3, 4)) == 1;
    assert ReadU16([0, 1], 0) == 0x100;
  }

  /** Every pair among `ts` fits in a two-byte token. */
  predicate Expressible(ts: seq<Token>) {
    forall i :: 0 <= i < |ts| ==> (ts[i].Copy? ==> ValidPair(ts[i].pair))
  }

  /** A group's tokens in address order: the first token sits at the top. */
  function GroupBody(g: seq<Token>): (r: seq<byte>)
    requires Expressible(g)
    ensures |r| >= |g|
  {
    if g == [] then [] else GroupBody(g[1..]) + TokenBytes(g[0])
  }

  // ---------------------------------------------------------------------
  // Flag bytes

  /** Flag byte of eight kinds, the first in the most significant bit. */
  function FlagByte(bits: seq<bool>): byte
    requires |bits| == 8
  {
    BitsValueBound(bits);
    assert Pow2(8) == 0x100;
    BitsValue(bits)
  }

  /** Whether each token is a pair. */
  function KindList(g: seq<Token>): (r: seq<bool>)
    ensures |r| == |g|
    ensures forall i :: 0 <= i < |g| ==> r[i] == g[i].Copy?
  {
    if g == [] then [] else [g[0].Copy?] + KindList(g[1..])
  }

  /** The kinds of a group of at most eight tokens, padded with literals as the encoder shifts its last flags up. */
  function Kinds(g: seq<Token>): (r: seq<bool>)
    requires |g| <= 8
    ensures |r| == 8
  {
    KindList(g) + seq(8 - |g|, _ => false)
  }

  /** Shifting a flag byte left brings the next kind to the top bit. */
  lemma {:induction false} FlagShift(bits: seq<bool>)
    requires |bits| == 8
    ensures FlagByte(bits) * 2 % 0x100 == FlagByte(bits[1..] + [false])
    ensures (FlagByte(bits) < 0x80) == !bits[0]
  {
    assert Pow2(7) == 0x80;
    BitsValueBound(bits[1..]);
    BitsValueAppendFalse(bits[1..]);
  }

  /** The kinds the decoder reads off `flags`, most significant bit first, are those of `g`. */
  predicate FlagsMatch(flags: byte, g: seq<Token>)
    decreases |g|
  {
    g == [] || ((flags >= 0x80) == g[0].Copy? && FlagsMatch(flags * 2 % 0x100, g[1..]))
  }

  /** The flag byte the encoder writes matches the tokens of its group. */
  lemma {:induction false} FlagByteMatches(bits: seq<bool>, g: seq<Token>)
    requires |bits| == 8 && |g| <= 8 && bits[..|g|] == KindList(g)
    ensures FlagsMatch(FlagByte(bits), g)
    decreases |g|
  {
    if g != [] {
      FlagShift(bits);
      assert bits[0] == bits[..|g|][0] == g[0].Copy?;
      assert KindList(g)[1..] == KindList(g[1..]);
      assert (bits[1..] + [false])[..|g| - 1] == bits[..|g|][1..];
      FlagByteMatches(bits[1..] + [false], g[1..]);
    }
  }

  // ---------------------------------------------------------------------
  // Streams

  /** The number of tokens in the first group: eight, or all that remain. */
  function GroupLength(ts: seq<Token>): (m: nat)
    ensures m <= 8 && m <= |ts| && (ts != [] ==> m >= 1) && (m < 8 ==> m == |ts|)
  {
    if |ts| < 8 then |ts| else 8
  }

  /**
   * The stream of `ts`: the later groups at the lower addresses, then the
   * first group's body, then its flag byte on top.
   */
  function Stream(ts: seq<Token>): (r: seq<byte>)
    requires Expressible(ts)
    ensures ts == [] <==> r == []
    decreases |ts|
  {
    if ts == [] then []
    else
      var m := GroupLength(ts);
      Stream(ts[m..]) + GroupBody(ts[..m]) + [FlagByte(Kinds(ts[..m]))]
  }

  /**
   * `data` is `below` with the bytes of `g` laid on top, the first token
   * of `g` highest.
   */
  predicate Laid(data: seq<byte>, below: seq<byte>, g: seq<Token>)
    decreases |g|
  {
    if g == [] then data == below
    else
      (g[0].Copy? ==> ValidPair(g[0].pair)) &&
      |data| >= |TokenBytes(g[0])| &&
      data[|data| - |TokenBytes(g[0])|..] == TokenBytes(g[0]) &&
      Laid(data[..|data| - |TokenBytes(g[0])|], below, g[1..])
  }

  /** The layout under a group is a prefix, and something lies on it unless the group is empty. */
  lemma {:induction false} LaidPrefix(data: seq<byte>, below: seq<byte>, g: seq<Token>)
    requires Laid(data, below, g)
    ensures |data| >= |below| + |g| && data[..|below|] == below
    decreases |g|
  {
    if g != [] {
      var k := |TokenBytes(g[0])|;
      LaidPrefix(data[..|data| - k], below, g[1..]);
      assert data[..|below|] == data[..|data| - k][..|below|];
    }
  }

  /** A group's body sits on what lies below it. */
  lemma {:induction false} LaidBody(below: seq<byte>, g: seq<Token>)
    requires Expressible(g)
    ensures Laid(below + GroupBody(g), below, g)
    decreases |g|
  {
    if g != [] {
      var t := g[0];
      assert t.Copy? ==> ValidPair(t.pair) by {
        assert g[0] == t;
      }
      assert Expressible(g[1..]) by {
        forall i | 0 <= i < |g| - 1 ensures g[1..][i].Copy? ==> ValidPair(g[1..][i].pair) {
          assert g[1..][i] == g[i + 1];
        }
      }
      var lower := below + GroupBody(g[1..]);
      var data := below + GroupBody(g);
      assert data == lower + TokenBytes(t);
      var k := |TokenBytes(t)|;
      assert data[..|data| - k] == lower;
      assert data[|data| - k..] == TokenBytes(t);
      LaidBody(below, g[1..]);
    }
  }

  /** Decoding the topmost token of `data` replays it. */
  lemma {:induction false} DecodeOne(data: seq<byte>, t: Token, flags: byte, out: seq<byte>)
    requires t.Copy? ==> ValidPair(t.pair) && t.pair.distance <= |out|
    requires |data| >= |TokenBytes(t)| && data[|data| - |TokenBytes(t)|..] == TokenBytes(t)
    requires (flags >= 0x80) == t.Copy?
    ensures TokenStep(data, |data| - 1, flags, out) == Ok(Step(|data| - |TokenBytes(t)| - 1, Apply(out, t)))
  {
    var n := |data|;
    match t
    case Literal(b) =>
      assert data[n - 1] == data[n - 1..][0];
    case Copy(p) =>
      assert data[n - 2..n] == PairToBytes(p);
      PairRoundTrip(p);
  }

  /** What the decoder does once a group is laid on `below`. */
  predicate GroupReady(data: seq<byte>, below: seq<byte>, g: seq<Token>, flags: byte, n: nat, out: seq<byte>) {
    g != [] && |g| <= n && (|g| < n ==> below == []) &&
    Laid(data, below, g) && FlagsMatch(flags, g) && Decodable(out, g)
  }

  /** The first token of a ready group, the layout under it and the output after it. */
  lemma {:induction false} GroupHead(data: seq<byte>, below: seq<byte>, g: seq<Token>, flags: byte, n: nat, out: seq<byte>)
    returns (t: Token, lower: seq<byte>, o: seq<byte>)
    requires GroupReady(data, below, g, flags, n, out)
    ensures t == g[0] && (t.Copy? ==> ValidPair(t.pair) && 1 <= t.pair.distance <= |out|)
    ensures TokenStep(data, |data| - 1, flags, out) == Ok(Step(|lower| - 1, o))
    ensures o == Apply(out, t) && ApplyAll(out, g) == ApplyAll(o, g[1..])
    ensures lower == data[..|lower|] && Laid(lower, below, g[1..]) && |lower| >= |below|
    ensures FlagsMatch(flags * 2 % 0x100, g[1..]) && Decodable(o, g[1..])
  {
    t := g[0];
    var k := |TokenBytes(t)|;
    lower := data[..|data| - k];
    o := Apply(out, t);
    DecodeOne(data, t, flags, out);
    LaidPrefix(lower, below, g[1..]);
  }

  /** One step of the inner loop, whichever way it goes. */
  lemma {:induction false} DecodeAfter(data: seq<byte>, flags: byte, n: nat, out: seq<byte>, read: int, o: seq<byte>)
    requires 1 <= n && |data| >= 1
    requires TokenStep(data, |data| - 1, flags, out) == Ok(Step(read, o))
    ensures -1 <= read < |data| - 1
    ensures DecodeTokens(data, |data| - 1, flags, n, out) ==
            if read < 0 then Ok(o) else DecodeTokens(data, read, flags * 2 % 0x100, n - 1, o)
  {
  }

  /**
   * Decoding a laid group replays its tokens and leaves the decoder at the
   * top of what lies below: the end of the stream, or the next flag byte
   * once all `n` flag bits are used.
   */
  lemma {:induction false} DecodeGroup(data: seq<byte>, below: seq<byte>, g: seq<Token>, flags: byte, n: nat, out: seq<byte>)
    requires GroupReady(data, below, g, flags, n, out)
    ensures |data| >= 1 && DecodeTokens(data, |data| - 1, flags, n, out) == DecompressBytes(below, |below| - 1, ApplyAll(out, g))
    decreases |g|, 0
  {
    var t, lower, o := GroupHead(data, below, g, flags, n, out);
    DecodeAfter(data, flags, n, out, |lower| - 1, o);
    if g[1..] == [] {
      DecodeLast(data, below, lower, flags * 2 % 0x100, n, o);
    } else {
      DecodeRest(data, below, lower, g[1..], flags * 2 % 0x100, n - 1, o);
    }
  }

  /** The rest of a group below its first token, decoded in place. */
  lemma {:induction false} DecodeRest(data: seq<byte>, below: seq<byte>, lower: seq<byte>, g: seq<Token>, flags: byte, n: nat, out: seq<byte>)
    requires GroupReady(lower, below, g, flags, n, out) && |lower| <= |data| && lower == data[..|lower|]
    ensures |lower| >= 1 && DecodeTokens(data, |lower| - 1, flags, n, out) == DecompressBytes(below, |below| - 1, ApplyAll(out, g))
    decreases |g|, 1
  {
    DecodeGroup(lower, below, g, flags, n, out);
    DecodeLocal(data, lower, |lower| - 1, flags, n, out);
  }

  /** The last token of a group: the decoder stops, or moves on to the next flag byte. */
  lemma {:induction false} DecodeLast(data: seq<byte>, below: seq<byte>, lower: seq<byte>, flags: byte, n: nat, o: seq<byte>)
    requires Laid(lower, below, []) && |lower| < |data| && lower == data[..|lower|]
    requires 1 <= n && (1 < n ==> below == [])
    ensures (if |lower| - 1 < 0 then Ok(o) else DecodeTokens(data, |lower| - 1, flags, n - 1, o))
            == DecompressBytes(below, |below| - 1, o)
  {
    if below != [] {
      DecompressLocal(data, below, |below| - 1, o);
    }
  }

  lemma {:induction false} DecodableSplit(out: seq<byte>, a: seq<Token>, b: seq<Token>)
    requires Decodable(out, a + b)
    ensures Decodable(out, a) && Decodable(ApplyAll(out, a), b)
    ensures ApplyAll(out, a + b) == ApplyAll(ApplyAll(out, a), b)
    decreases |a|
  {
    if a == [] {
      assert a + b == b;
    } else {
      assert (a + b)[0] == a[0];
      assert (a + b)[1..] == a[1..] + b;
      DecodableSplit(Apply(out, a[0]), a[1..], b);
    }
  }

  /** The first group of a stream, its flag byte, and the stream of the rest below them. */
  lemma {:induction false} StreamTop(ts: seq<Token>) returns (g: seq<Token>, rest: seq<Token>, below: seq<byte>, body: seq<byte>, flag: byte)
    requires Expressible(ts) && ts != []
    ensures ts == g + rest && g != [] && |g| <= 8 && |rest| < |ts|
    ensures Expressible(g) && Expressible(rest)
    ensures below == Stream(rest) && body == below + GroupBody(g) && Stream(ts) == body + [flag]
    ensures FlagsMatch(flag, g) && (|g| < 8 ==> below == [])
  {
    var m := GroupLength(ts);
    g, rest := ts[..m], ts[m..];
    assert ts == g + rest;
    assert Expressible(g) by {
      forall i | 0 <= i < |g| ensures g[i].Copy? ==> ValidPair(g[i].pair) {
        assert g[i] == ts[i];
      }
    }
    assert Expressible(rest) by {
      forall i | 0 <= i < |rest| ensures rest[i].Copy? ==> ValidPair(rest[i].pair) {
        assert rest[i] == ts[m + i];
      }
    }
    below := Stream(rest);
    body := below + GroupBody(g);
    flag := FlagByte(Kinds(g));
    assert Kinds(g)[..|g|] == KindList(g);
    FlagByteMatches(Kinds(g), g);
  }

  /** The outer loop takes the top byte as the flags of the group below it. */
  lemma {:induction false} FlagOnTop(data: seq<byte>, body: seq<byte>, flag: byte, out: seq<byte>)
    requires data == body + [flag] && |body| >= 1
    ensures DecompressBytes(data, |data| - 1, out) == DecodeTokens(body, |body| - 1, flag, 8, out)
  {
    assert data[..|body|] == body;
    DecodeLocal(data, body, |body| - 1, flag, 8, out);
  }

  /** Decoding the first group of a stream leaves the decoder at the top of the stream of the rest. */
  lemma {:induction false} StreamGroup(ts: seq<Token>, out: seq<byte>) returns (rest: seq<Token>, below: seq<byte>, body: seq<byte>, flag: byte, mid: seq<byte>)
    requires Expressible(ts) && ts != [] && Decodable(out, ts)
    ensures Stream(ts) == body + [flag] && |body| >= 1
    ensures |rest| < |ts| && Expressible(rest) && below == Stream(rest)
    ensures Decodable(mid, rest) && ApplyAll(out, ts) == ApplyAll(mid, rest)
    ensures DecodeTokens(body, |body| - 1, flag, 8, out) == DecompressBytes(Stream(rest), |Stream(rest)| - 1, mid)
  {
    var g;
    g, rest, below, body, flag := StreamTop(ts);
    DecodableSplit(out, g, rest);
    mid := ApplyAll(out, g);
    LaidBody(below, g);
    DecodeGroup(body, below, g, flag, 8, out);
  }

  /**
   * The outer loop decodes the group under the top flag byte, then carries
   * on with the stream of the rest exactly as if that were the whole input.
   */
  lemma {:induction false} StreamSplit(ts: seq<Token>, out: seq<byte>) returns (rest: seq<Token>, mid: seq<byte>)
    requires Expressible(ts) && ts != [] && Decodable(out, ts)
    ensures |rest| < |ts| && Expressible(rest) && Decodable(mid, rest)
    ensures ApplyAll(out, ts) == ApplyAll(mid, rest)
    ensures DecompressBytes(Stream(ts), |Stream(ts)| - 1, out) == DecompressBytes(Stream(rest), |Stream(rest)| - 1, mid)
  {
    var below, body, flag;
    rest, below, body, flag, mid := StreamGroup(ts, out);
    var data := Stream(ts);
    FlagOnTop(data, body, flag, out);
    assert DecompressBytes(data, |data| - 1, out) == DecodeTokens(body, |body| - 1, flag, 8, out);
  }

  /** An empty stream decodes to nothing. */
  lemma {:induction false} EmptyStream(out: seq<byte>)
    ensures Expressible([]) && Decodable(out, []) && Stream([]) == []
    ensures DecompressBytes(Stream([]), |Stream([])| - 1, out) == Ok(ApplyAll(out, []))
  {
  }

  /** The decoder replays every token of a stream, in order. */
  lemma {:induction false} DecodeStream(ts: seq<Token>, out: seq<byte>)
    requires Expressible(ts) && Decodable(out, ts)
    ensures DecompressBytes(Stream(ts), |Stream(ts)| - 1, out) == Ok(ApplyAll(out, ts))
    decreases |ts|
  {
    if ts == [] {
      EmptyStream(out);
    } else {
      var rest, mid := StreamSplit(ts, out);
      DecodeStream(rest, mid);
    }
  }

  // ---------------------------------------------------------------------
  // Whole images

  /** `Decompress` once the footer is read and the token stream decoded. */
  lemma {:induction false} DecompressWith(f: seq<byte>, ni: nat, total: nat, ro: nat, wo: nat, body: seq<byte>, d: seq<byte>)
    requires ReadFooter(f) == Ok(Footer(total, ro, wo)) && ni + total == |f| && ro <= total
    requires body == f[ni..ni + total - ro]
    requires DecompressBytes(body, |body| - 1, []) == Ok(d)
    ensures Decompress(f) == Ok(f[..ni] + Reverse(d))
  {
  }

  /** The frame `Compress` builds around a given body, on a 32-bit host. */
  lemma {:induction false} CompressImage(bytes: seq<byte>, start: nat, s: seq<byte>) returns (compressed: seq<byte>, f: seq<byte>)
    requires Compress(bytes, start, Reverse(s), start, W32).Ok?
    ensures start <= |bytes| && compressed == bytes[..start] + s && |compressed| == start + |s|
    ensures |compressed| - start + PaddingLength(|compressed|) == |s| + PaddingLength(start + |s|)
    ensures f == Compress(bytes, start, Reverse(s), start, W32).value
    ensures WriteFooter(compressed, |bytes|, start, start, W32) == Ok(f)
    ensures |compressed| <= |f| && f[..start] == bytes[..start] && f[start..|compressed|] == s
  {
    ReverseReverse(s);
    compressed := bytes[..start] + s;
    f := WriteFooter(compressed, |bytes|, start, start, W32).value;
    assert f[..start] == f[..|compressed|][..start];
    assert f[start..|compressed|] == f[..|compressed|][start..];
  }

  /** The footer of a frame whose identical bytes are its verbatim prefix reads back on a 32-bit host. */
  lemma {:induction false} FrameFooter(compressed: seq<byte>, n: nat, start: nat, f: seq<byte>) returns (total: nat, ro: nat, wo: nat)
    requires WriteFooter(compressed, n, start, start, W32) == Ok(f)
    requires n < 0x1_0000_0000 && start <= |compressed|
    requires |compressed| - start + PaddingLength(|compressed|) + 8 < 0x100_0000
    ensures ReadFooter(f) == Ok(Footer(total, ro, wo))
    ensures start + total == |f| && ro <= total && start + total - ro == |compressed|
  {
    var pad := PaddingLength(|compressed|);
    FooterRoundTrip(compressed, n, start, start);
    total, ro, wo := |compressed| + pad + 8 - start, pad + 8, n - (|compressed| + pad + 8) - start;
  }

  /** What the reader finds in the frame `Compress` builds around a body, on a 32-bit host. */
  lemma {:induction false} CompressFrame(bytes: seq<byte>, start: nat, s: seq<byte>) returns (f: seq<byte>, total: nat, ro: nat, wo: nat)
    requires Compress(bytes, start, Reverse(s), start, W32).Ok?
    requires |bytes| < 0x1_0000_0000
    requires |s| + PaddingLength(start + |s|) + 8 < 0x100_0000
    ensures f == Compress(bytes, start, Reverse(s), start, W32).value
    ensures ReadFooter(f) == Ok(Footer(total, ro, wo))
    ensures start + total == |f| && ro <= total
    ensures s == f[start..start + total - ro]
    ensures f[..start] == bytes[..start]
  {
    var compressed;
    compressed, f := CompressImage(bytes, start, s);
    total, ro, wo := FrameFooter(compressed, |bytes|, start, f);
  }

  /**
   * A frame `Compress` builds on a 32-bit host around the reversal of a
   * body that decodes to `d`, with the verbatim prefix as its identical
   * bytes, decompresses to that prefix followed by `d` reversed.
   */
  lemma {:induction false} DecompressBody(bytes: seq<byte>, start: nat, s: seq<byte>, d: seq<byte>)
    requires Compress(bytes, start, Reverse(s), start, W32).Ok?
    requires |bytes| < 0x1_0000_0000
    requires |s| + PaddingLength(start + |s|) + 8 < 0x100_0000
    requires DecompressBytes(s, |s| - 1, []) == Ok(d)
    ensures Decompress(Compress(bytes, start, Reverse(s), start, W32).value) == Ok(bytes[..start] + Reverse(d))
  {
    var f, total, ro, wo := CompressFrame(bytes, start, s);
    DecompressWith(f, start, total, ro, wo, s, d);
  }

  /**
   * Compression round trip on a 32-bit host: when the token stream decodes
   * to the input after the verbatim prefix, back to front (as the stream of
   * any tokens that replay it does, by `DecodeStream`), decompressing the
   * frame gives the input back.
   */
  lemma {:induction false} CompressRoundTrip(bytes: seq<byte>, start: nat, s: seq<byte>)
    requires start <= |bytes| && DecompressBytes(s, |s| - 1, []) == Ok(Reverse(bytes[start..]))
    requires Compress(bytes, start, Reverse(s), start, W32).Ok?
    requires |bytes| < 0x1_0000_0000
    requires |s| + PaddingLength(start + |s|) + 8 < 0x100_0000
    ensures Decompress(Compress(bytes, start, Reverse(s), start, W32).value) == Ok(bytes)
  {
    DecompressBody(bytes, start, s, Reverse(bytes[start..]));
    ReverseReverse(bytes[start..]);
    SplitAt(bytes, start);
  }
}
