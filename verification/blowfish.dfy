/**
 * The Blowfish cipher of the DS secure area (lib/src/crypto/blowfish.rs).
 *
 * The cipher state is 18 subkeys and four S-boxes of 256 words, taken
 * verbatim (little-endian) from a 0x1048-byte key and then stirred by a
 * seed-dependent schedule. A block is two 32-bit halves run through a
 * 16-round Feistel network; data is enciphered in independent 8-byte
 * chunks, each read as a little-endian left and right half.
 *
 * Words are the integers below 2^32; `Xor` is the bitwise exclusive or
 * and `Add` the addition modulo 2^32 of Rust's `wrapping_add`.
 */
module Blowfish {
  import opened Common

  const Rounds: nat := 16
  const SubkeyCount: nat := 18
  const SboxCount: nat := 4
  const SboxSize: nat := 0x100
  const BlockSize: nat := 8

  /** The size of the key: the subkeys and the S-boxes, four bytes per word. */
  const KeySize: nat := (SubkeyCount + SboxCount * SboxSize) * 4

  datatype State = State(subkeys: seq<u32>, sbox: seq<seq<u32>>)

  /** A state of the cipher's fixed shape. */
  predicate WellFormed(s: State) {
    |s.subkeys| == SubkeyCount && |s.sbox| == SboxCount &&
    forall i :: 0 <= i < SboxCount ==> |s.sbox[i]| == SboxSize
  }

  type Cipher = s: State | WellFormed(s)
    witness State(seq(18, _ => 0), seq(4, _ => seq(0x100, _ => 0)))

  datatype BlowfishError =
    | OddBlockCount
    | KeySizeMismatch(expected: nat, actual: nat)

  // ---------------------------------------------------------------------
  // Word arithmetic

  /** Bitwise exclusive or of two words (Rust's `^` on `u32`). */
  function Xor(a: u32, b: u32): u32 {
    Pow2Facts();
    XorBits(a, b, 32)
  }

  /** Addition modulo 2^32 (Rust's `wrapping_add`). */
  function Add(a: u32, b: u32): u32 {
    (a + b) % 0x1_0000_0000
  }

  /** The lowest bit of an exclusive or and the bits above it. */
  lemma {:induction false} XorStep(a: nat, b: nat, n: nat)
    requires n > 0
    ensures XorBits(a, b, n) % 2 == if a % 2 == b % 2 then 0 else 1
    ensures XorBits(a, b, n) / 2 == XorBits(a / 2, b / 2, n - 1)
  {
    DivMixed(if a % 2 == b % 2 then 0 else 1, 2, XorBits(a / 2, b / 2, n - 1));
  }

  lemma {:induction false} XorBitsComm(a: nat, b: nat, n: nat)
    ensures XorBits(a, b, n) == XorBits(b, a, n)
  {
    if n > 0 {
      XorBitsComm(a / 2, b / 2, n - 1);
    }
  }

  lemma {:induction false} XorBitsAssoc(a: nat, b: nat, c: nat, n: nat)
    ensures XorBits(XorBits(a, b, n), c, n) == XorBits(a, XorBits(b, c, n), n)
  {
    if n > 0 {
      XorStep(a, b, n);
      XorStep(b, c, n);
      XorBitsAssoc(a / 2, b / 2, c / 2, n - 1);
    }
  }

  /** Xoring twice with the same bits gives the low `n` bits back. */
  lemma {:induction false} XorBitsTwice(a: nat, b: nat, n: nat)
    requires a < Pow2(n)
    ensures XorBits(XorBits(a, b, n), b, n) == a
  {
    if n > 0 {
      XorStep(a, b, n);
      XorBitsTwice(a / 2, b / 2, n - 1);
      DivBelow(a, 2, Pow2(n - 1));
    }
  }

  /** Exclusive or on words is commutative and associative, and undoes itself. */
  lemma {:induction false} XorLaws(a: u32, b: u32, c: u32)
    ensures Xor(a, b) == Xor(b, a)
    ensures Xor(Xor(a, b), c) == Xor(a, Xor(b, c))
    ensures Xor(Xor(a, b), b) == a
  {
    Pow2Facts();
    XorBitsComm(a, b, 32);
    XorBitsAssoc(a, b, c, 32);
    XorBitsTwice(a, b, 32);
  }

  /** The step a Feistel round takes back: masking `y xor f` with `f` and then `p`. */
  lemma {:induction false} XorCancel(f: u32, y: u32, p: u32)
    ensures Xor(f, Xor(Xor(y, f), p)) == Xor(y, p)
  {
    XorLaws(f, Xor(y, f), p);
    XorLaws(y, f, f);
    XorLaws(f, Xor(y, f), 0);
  }

  // ---------------------------------------------------------------------
  // The round function and one block

  /** Byte `k` of a word, counting from the most significant. */
  function ByteOf(x: u32, k: nat): (r: nat)
    requires k < 4
    ensures r < SboxSize
  {
    var v := x;
    if k == 0 then v / 0x100_0000 % 0x100
    else if k == 1 then v / 0x1_0000 % 0x100
    else if k == 2 then v / 0x100 % 0x100
    else v % 0x100
  }

  /** `f`: the four S-box words the bytes of `x` select, added, xored and added. */
  function F(c: Cipher, x: u32): u32 {
    Add(Xor(Add(c.sbox[0][ByteOf(x, 0)], c.sbox[1][ByteOf(x, 1)]), c.sbox[2][ByteOf(x, 2)]), c.sbox[3][ByteOf(x, 3)])
  }

  /** The round function of a cipher state. */
  function RoundFunction(c: Cipher): u32 -> u32 {
    x => F(c, x)
  }

  /**
   * The halves `(x, y)` after the first `k` rounds of `encrypt_block`,
   * for any 18 subkeys and any round function.
   */
  function EncRounds(keys: seq<u32>, f: u32 -> u32, x: u32, y: u32, k: nat): (u32, u32)
    requires |keys| == SubkeyCount && k <= Rounds
  {
    if k == 0 then (x, y)
    else
      var (a, b) := EncRounds(keys, f, x, y, k - 1);
      var tmp := Xor(a, keys[k - 1]);
      (Xor(b, f(tmp)), tmp)
  }

  /** The halves `(x, y)` after the first `k` rounds of `decrypt_block`, which runs the subkeys from 17 down to 2. */
  function DecRounds(keys: seq<u32>, f: u32 -> u32, x: u32, y: u32, k: nat): (u32, u32)
    requires |keys| == SubkeyCount && k <= Rounds
  {
    if k == 0 then (x, y)
    else
      var (a, b) := DecRounds(keys, f, x, y, k - 1);
      var tmp := Xor(a, keys[SubkeyCount - k]);
      (Xor(f(tmp), b), tmp)
  }

  /** `encrypt_block`: the new left and right halves. */
  function EncryptBlock(c: Cipher, left: u32, right: u32): (u32, u32) {
    var (x, y) := EncRounds(c.subkeys, RoundFunction(c), right, left, Rounds);
    (Xor(x, c.subkeys[16]), Xor(y, c.subkeys[17]))
  }

  /** `decrypt_block`: the new left and right halves. */
  function DecryptBlock(c: Cipher, left: u32, right: u32): (u32, u32) {
    var (x, y) := DecRounds(c.subkeys, RoundFunction(c), right, left, Rounds);
    (Xor(x, c.subkeys[1]), Xor(y, c.subkeys[0]))
  }

  /**
   * Decryption undoes encryption round by round: after `k` decryption
   * rounds on an enciphered block, the halves are those of encryption
   * round `16 - k`, each masked with the subkey that round consumed.
   */
  lemma {:induction false} DecUndoesEnc(keys: seq<u32>, f: u32 -> u32, x: u32, y: u32, k: nat)
    requires |keys| == SubkeyCount && k <= Rounds
    ensures var (ex, ey) := EncRounds(keys, f, x, y, Rounds);
            var (ax, ay) := EncRounds(keys, f, x, y, Rounds - k);
            DecRounds(keys, f, Xor(ey, keys[17]), Xor(ex, keys[16]), k) ==
              (Xor(ay, keys[17 - k]), Xor(ax, keys[16 - k]))
  {
    if k > 0 {
      DecUndoesEnc(keys, f, x, y, k - 1);
      var (ax, ay) := EncRounds(keys, f, x, y, Rounds - k);
      var (px, py) := EncRounds(keys, f, x, y, Rounds - k + 1);
      assert py == Xor(ax, keys[Rounds - k]);
      assert px == Xor(ay, f(py));
      XorLaws(py, keys[17 - (k - 1)], 0);
      XorCancel(f(py), ay, keys[16 - (k - 1)]);
    }
  }

  /**
   * Encryption undoes decryption round by round: after `k` encryption
   * rounds on a deciphered block, the halves are those of decryption
   * round `16 - k`, each masked with the subkey that round consumed.
   */
  lemma {:induction false} EncUndoesDec(keys: seq<u32>, f: u32 -> u32, x: u32, y: u32, k: nat)
    requires |keys| == SubkeyCount && k <= Rounds
    ensures var (dx, dy) := DecRounds(keys, f, x, y, Rounds);
            var (ax, ay) := DecRounds(keys, f, x, y, Rounds - k);
            EncRounds(keys, f, Xor(dy, keys[0]), Xor(dx, keys[1]), k) ==
              (Xor(ay, keys[k]), Xor(ax, keys[k + 1]))
  {
    if k > 0 {
      EncUndoesDec(keys, f, x, y, k - 1);
      var (ax, ay) := DecRounds(keys, f, x, y, Rounds - k);
      var (px, py) := DecRounds(keys, f, x, y, Rounds - k + 1);
      assert py == Xor(ax, keys[SubkeyCount - (Rounds - k + 1)]);
      assert px == Xor(f(py), ay);
      XorLaws(py, keys[k - 1], 0);
      XorLaws(f(py), ay, 0);
      XorLaws(Xor(Xor(f(py), ay), keys[k]), f(py), 0);
      XorCancel(f(py), ay, keys[k]);
    }
  }

  /** The Feistel network is a bijection on blocks, whatever the subkeys and S-boxes. */
  lemma {:induction false} BlockRoundTrip(c: Cipher, left: u32, right: u32)
    ensures var (l, r) := EncryptBlock(c, left, right); DecryptBlock(c, l, r) == (left, right)
    ensures var (l, r) := DecryptBlock(c, left, right); EncryptBlock(c, l, r) == (left, right)
  {
    var keys, f := c.subkeys, RoundFunction(c);
    DecUndoesEnc(keys, f, right, left, Rounds);
    var (ex, ey) := EncRounds(keys, f, right, left, Rounds);
    XorLaws(ex, keys[16], 0);
    XorLaws(ey, keys[17], 0);
    XorLaws(left, keys[1], 0);
    XorLaws(right, keys[0], 0);
    EncUndoesDec(keys, f, right, left, Rounds);
    var (dx, dy) := DecRounds(keys, f, right, left, Rounds);
    XorLaws(dx, keys[1], 0);
    XorLaws(dy, keys[0], 0);
    XorLaws(left, keys[16], 0);
    XorLaws(right, keys[17], 0);
  }

  // ---------------------------------------------------------------------
  // Byte strings

  /** A map on blocks, taking and giving the (left, right) halves. */
  type BlockMap = ((u32, u32)) -> (u32, u32)

  function EncryptMap(c: Cipher): BlockMap {
    (b: (u32, u32)) => EncryptBlock(c, b.0, b.1)
  }

  function DecryptMap(c: Cipher): BlockMap {
    (b: (u32, u32)) => DecryptBlock(c, b.0, b.1)
  }

  /** `h` undoes `g` on every block. */
  ghost predicate Undoes(h: BlockMap, g: BlockMap) {
    forall l: u32, r: u32 :: h(g((l, r))) == (l, r)
  }

  /** The block maps of a cipher undo each other. */
  lemma {:induction false} MapsUndo(c: Cipher)
    ensures Undoes(DecryptMap(c), EncryptMap(c))
    ensures Undoes(EncryptMap(c), DecryptMap(c))
  {
    forall l: u32, r: u32
      ensures DecryptMap(c)(EncryptMap(c)((l, r))) == (l, r)
      ensures EncryptMap(c)(DecryptMap(c)((l, r))) == (l, r)
    {
      BlockRoundTrip(c, l, r);
    }
  }

  /** One 8-byte chunk through a block map: left half from bytes 0..4, right half from 4..8, both little-endian. */
  function ChunkThrough(g: BlockMap, chunk: seq<byte>): (r: seq<byte>)
    requires |chunk| == BlockSize
    ensures |r| == BlockSize
  {
    var (l, r) := g((ReadU32(chunk, 0), ReadU32(chunk, 4)));
    U32Bytes(l) + U32Bytes(r)
  }

  /** The halves of two words laid out one after the other. */
  lemma {:induction false} HalvesOf(l: u32, r: u32)
    ensures ReadU32(U32Bytes(l) + U32Bytes(r), 0) == l
    ensures ReadU32(U32Bytes(l) + U32Bytes(r), 4) == r
  {
    var s := U32Bytes(l) + U32Bytes(r);
    U32RoundTrip(l, s, 0);
    U32RoundTrip(r, s, 0);
    Halves(s, U32Bytes(l), U32Bytes(r));
    ReadU32Local(s, 0, U32Bytes(l), 0);
    ReadU32Local(s, 4, U32Bytes(r), 0);
  }

  /** A chunk is the image of its two halves. */
  lemma {:induction false} ChunkOfHalves(chunk: seq<byte>)
    requires |chunk| == BlockSize
    ensures U32Bytes(ReadU32(chunk, 0)) + U32Bytes(ReadU32(chunk, 4)) == chunk
  {
    U32RoundTrip(0, chunk, 0);
    U32RoundTrip(0, chunk, 4);
    Halves(chunk, U32Bytes(ReadU32(chunk, 0)), U32Bytes(ReadU32(chunk, 4)));
  }

  /** Eight bytes are their first four followed by their last four. */
  lemma {:induction false} Halves(chunk: seq<byte>, a: seq<byte>, b: seq<byte>)
    requires |chunk| == BlockSize && |a| == 4 && |b| == 4
    ensures chunk == a + b <==> a == chunk[0..4] && b == chunk[4..8]
  {
    if chunk == a + b {
      assert a == chunk[0..4] && b == chunk[4..8];
    }
  }

  /** A block map that undoes another undoes it on chunks too. */
  lemma {:induction false} ChunkUndo(h: BlockMap, g: BlockMap, chunk: seq<byte>)
    requires |chunk| == BlockSize && Undoes(h, g)
    ensures ChunkThrough(h, ChunkThrough(g, chunk)) == chunk
  {
    var l, r := ReadU32(chunk, 0), ReadU32(chunk, 4);
    var (gl, gr) := g((l, r));
    HalvesOf(gl, gr);
    assert h((gl, gr)) == (l, r);
    ChunkOfHalves(chunk);
  }

  /** A map on chunks: defined on every 8-byte string, with 8-byte results. */
  ghost predicate ChunkMap(f: seq<byte> --> seq<byte>) {
    forall s {:trigger f.requires(s)} :: |s| == BlockSize ==> f.requires(s) && |f(s)| == BlockSize
  }

  /** `ChunkThrough(g, _)` as a chunk map. */
  function ChunkFn(g: BlockMap): (f: seq<byte> --> seq<byte>)
    ensures ChunkMap(f)
    ensures forall s {:trigger f(s)} :: |s| == BlockSize ==> f(s) == ChunkThrough(g, s)
  {
    chunk requires |chunk| == BlockSize => ChunkThrough(g, chunk)
  }

  /** `f` applied to each 8-byte chunk in turn. */
  function MapChunks(f: seq<byte> --> seq<byte>, data: seq<byte>): (r: seq<byte>)
    requires ChunkMap(f) && |data| % BlockSize == 0
    ensures |r| == |data|
  {
    if data == [] then [] else f(data[..BlockSize]) + MapChunks(f, data[BlockSize..])
  }

  /** Chunk `k` of the output is `f` of chunk `k` of the input alone. */
  lemma {:induction false} MapChunksAt(f: seq<byte> --> seq<byte>, data: seq<byte>, k: nat)
    requires ChunkMap(f) && |data| % BlockSize == 0 && BlockSize * k + BlockSize <= |data|
    ensures MapChunks(f, data)[BlockSize * k..BlockSize * k + BlockSize] ==
      f(data[BlockSize * k..BlockSize * k + BlockSize])
    decreases k
  {
    if k > 0 {
      var rest := data[BlockSize..];
      MapChunksAt(f, rest, k - 1);
      var j := BlockSize * (k - 1);
      var lo := BlockSize * k;
      assert lo == j + BlockSize;
      DropSlice(data, BlockSize, j, j + BlockSize);
      DropSlice(MapChunks(f, data), BlockSize, j, j + BlockSize);
      assert MapChunks(f, data)[BlockSize..] == MapChunks(f, rest);
    }
  }

  /** A slice of what follows the first `d` elements is a slice of the whole, `d` further on. */
  lemma {:induction false} DropSlice<T>(s: seq<T>, d: nat, lo: nat, hi: nat)
    requires d + hi <= |s| && lo <= hi
    ensures s[d..][lo..hi] == s[d + lo..d + hi]
  {
  }

  /** Two chunk maps that undo each other chunk by chunk undo each other on whole strings. */
  lemma {:induction false} MapChunksInverse(f: seq<byte> --> seq<byte>, g: seq<byte> --> seq<byte>, data: seq<byte>)
    requires ChunkMap(f) && ChunkMap(g) && |data| % BlockSize == 0
    requires forall s {:trigger g(f(s))} :: |s| == BlockSize ==> g(f(s)) == s
    ensures MapChunks(g, MapChunks(f, data)) == data
  {
    if data != [] {
      var head, rest := data[..BlockSize], data[BlockSize..];
      MapChunksInverse(f, g, rest);
      var m := MapChunks(f, data);
      assert m[..BlockSize] == f(head) && m[BlockSize..] == MapChunks(f, rest);
      assert data == head + rest;
    }
  }

  /** Block-map inverses give chunk-map inverses. */
  lemma {:induction false} ChunkFnsUndo(h: BlockMap, g: BlockMap)
    requires Undoes(h, g)
    ensures forall s {:trigger ChunkFn(h)(ChunkFn(g)(s))} :: |s| == BlockSize ==> ChunkFn(h)(ChunkFn(g)(s)) == s
  {
    forall s | |s| == BlockSize ensures ChunkFn(h)(ChunkFn(g)(s)) == s {
      ChunkUndo(h, g, s);
    }
  }

  /** Every chunk of a string whose length is a multiple of eight, enciphered in order. */
  function EncryptChunks(c: Cipher, data: seq<byte>): (r: seq<byte>)
    requires |data| % BlockSize == 0
    ensures |r| == |data|
  {
    MapChunks(ChunkFn(EncryptMap(c)), data)
  }

  function DecryptChunks(c: Cipher, data: seq<byte>): (r: seq<byte>)
    requires |data| % BlockSize == 0
    ensures |r| == |data|
  {
    MapChunks(ChunkFn(DecryptMap(c)), data)
  }

  /** `Blowfish::encrypt`: the length must be a multiple of eight; the chunks are enciphered in place. */
  function Encrypt(c: Cipher, data: seq<byte>): (r: Result<seq<byte>, BlowfishError>)
    ensures r.Err? <==> |data| % BlockSize != 0
    ensures r.Err? ==> r.error == OddBlockCount
    ensures r.Ok? ==> |r.value| == |data|
  {
    if |data| % BlockSize != 0 then Err(OddBlockCount) else Ok(EncryptChunks(c, data))
  }

  /** `Blowfish::decrypt`: the same length rule; the chunks are deciphered in place. */
  function Decrypt(c: Cipher, data: seq<byte>): (r: Result<seq<byte>, BlowfishError>)
    ensures r.Err? <==> |data| % BlockSize != 0
    ensures r.Err? ==> r.error == OddBlockCount
    ensures r.Ok? ==> |r.value| == |data|
  {
    if |data| % BlockSize != 0 then Err(OddBlockCount) else Ok(DecryptChunks(c, data))
  }

  /**
   * Chunk `k` of the output is `encrypt_block` (or `decrypt_block`) of the
   * two little-endian words of chunk `k` of the input, and of nothing else.
   */
  lemma {:induction false} ChunksIndependent(c: Cipher, data: seq<byte>, k: nat)
    requires |data| % BlockSize == 0 && BlockSize * k + BlockSize <= |data|
    ensures var chunk := data[BlockSize * k..BlockSize * k + BlockSize];
            var (l, r) := EncryptBlock(c, ReadU32(chunk, 0), ReadU32(chunk, 4));
            EncryptChunks(c, data)[BlockSize * k..BlockSize * k + BlockSize] == U32Bytes(l) + U32Bytes(r)
    ensures var chunk := data[BlockSize * k..BlockSize * k + BlockSize];
            var (l, r) := DecryptBlock(c, ReadU32(chunk, 0), ReadU32(chunk, 4));
            DecryptChunks(c, data)[BlockSize * k..BlockSize * k + BlockSize] == U32Bytes(l) + U32Bytes(r)
  {
    MapChunksAt(ChunkFn(EncryptMap(c)), data, k);
    MapChunksAt(ChunkFn(DecryptMap(c)), data, k);
  }

  /** Deciphering enciphered data restores it, and the other way round, for any cipher state. */
  lemma {:induction false} ChunksRoundTrip(c: Cipher, data: seq<byte>)
    requires |data| % BlockSize == 0
    ensures DecryptChunks(c, EncryptChunks(c, data)) == data
    ensures EncryptChunks(c, DecryptChunks(c, data)) == data
  {
    MapsUndo(c);
    ChunkFnsUndo(DecryptMap(c), EncryptMap(c));
    ChunkFnsUndo(EncryptMap(c), DecryptMap(c));
    MapChunksInverse(ChunkFn(EncryptMap(c)), ChunkFn(DecryptMap(c)), data);
    MapChunksInverse(ChunkFn(DecryptMap(c)), ChunkFn(EncryptMap(c)), data);
  }

  /** `decrypt(encrypt(d)) == d` and `encrypt(decrypt(d)) == d`, lengths preserved, for any key. */
  lemma {:induction false} RoundTrip(c: Cipher, data: seq<byte>)
    ensures Encrypt(c, data).Ok? ==> Decrypt(c, Encrypt(c, data).value) == Ok(data)
    ensures Decrypt(c, data).Ok? ==> Encrypt(c, Decrypt(c, data).value) == Ok(data)
  {
    if |data| % BlockSize == 0 {
      ChunksRoundTrip(c, data);
    }
  }

  // ---------------------------------------------------------------------
  // Key schedule

  datatype Level = Level1 | Level2 | Level3

  /** S-box `b` as the key bytes hold it. */
  function SboxOfKey(key: seq<byte>, b: nat): (r: seq<u32>)
    requires |key| == KeySize && b < SboxCount
    ensures |r| == SboxSize
    ensures forall j :: 0 <= j < SboxSize ==> r[j] == ReadU32(key, 4 * SubkeyCount + 4 * (SboxSize * b + j))
  {
    seq(SboxSize, j requires 0 <= j < SboxSize => SboxWord(key, b, j))
  }

  /** Word `j` of S-box `b` in the key bytes. */
  function SboxWord(key: seq<byte>, b: nat, j: nat): u32
    requires |key| == KeySize && b < SboxCount && j < SboxSize
  {
    ReadU32(key, 4 * SubkeyCount + 4 * (SboxSize * b + j))
  }

  /** The cipher state the key bytes hold: 18 subkeys, then the four S-boxes, all little-endian. */
  function FromKey(key: seq<byte>): (c: Cipher)
    requires |key| == KeySize
    ensures forall i :: 0 <= i < SubkeyCount ==> c.subkeys[i] == ReadU32(key, 4 * i)
    ensures forall b, j :: 0 <= b < SboxCount && 0 <= j < SboxSize ==>
      c.sbox[b][j] == ReadU32(key, 4 * SubkeyCount + 4 * (SboxSize * b + j))
  {
    var subkeys: seq<u32> := seq(SubkeyCount, i requires 0 <= i < SubkeyCount => ReadU32(key, 4 * i));
    var sbox: seq<seq<u32>> := seq(SboxCount, b requires 0 <= b < SboxCount => SboxOfKey(key, b));
    State(subkeys, sbox)
  }

  /** Every subkey xored with the swapped `code0` (even places) or `code1` (odd places). */
  function MixSubkeys(c: Cipher, code0: u32, code1: u32): (r: Cipher)
    ensures r.sbox == c.sbox
    ensures forall i :: 0 <= i < SubkeyCount ==>
      r.subkeys[i] == Xor(c.subkeys[i], if i % 2 == 0 then SwapBytes32(code0) else SwapBytes32(code1))
  {
    c.(subkeys := seq(SubkeyCount, i requires 0 <= i < SubkeyCount =>
      Xor(c.subkeys[i], if i % 2 == 0 then SwapBytes32(code0) else SwapBytes32(code1))))
  }

  /** The number of word pairs the refill loops write: nine subkey pairs, then 128 pairs per S-box. */
  const RefillSteps: nat := SubkeyCount / 2 + SboxCount * (SboxSize / 2)

  /** Step `n` of the refill loops stores the pair `(hi, lo)` in its two places. */
  function Store(c: Cipher, n: nat, hi: u32, lo: u32): (r: Cipher)
    requires n < RefillSteps
  {
    if n < 9 then c.(subkeys := c.subkeys[2 * n := hi][2 * n + 1 := lo])
    else
      var i, j := (n - 9) / 0x80, (n - 9) % 0x80;
      var row: seq<u32> := c.sbox[i][2 * j := hi][2 * j + 1 := lo];
      c.(sbox := c.sbox[i := row])
  }

  /**
   * The refill loops of `apply_code` from step `n` on: each step enciphers
   * the scratch pair with the state as it stands, which already holds the
   * words the earlier steps stored.
   */
  function Refill(c: Cipher, n: nat, s0: u32, s1: u32): Cipher
    requires n <= RefillSteps
    decreases RefillSteps - n
  {
    if n == RefillSteps then c
    else
      var (t0, t1) := EncryptBlock(c, s0, s1);
      Refill(Store(c, n, t1, t0), n + 1, t0, t1)
  }

  datatype Codes = Codes(code0: u32, code1: u32, code2: u32)

  /** `apply_code`: the stirred state and the codes it leaves behind. */
  function ApplyCode(c: Cipher, k: Codes): (Cipher, Codes) {
    var (c1, c2) := EncryptBlock(c, k.code1, k.code2);
    var (c0, c1') := EncryptBlock(c, k.code0, c1);
    (Refill(MixSubkeys(c, c0, c1'), 0, 0, 0), Codes(c0, c1', c2))
  }

  /** The codes a seed starts the schedule with. */
  function SeedCodes(seed: u32): Codes {
    Codes(seed, seed / 2, seed * 2 % 0x1_0000_0000)
  }

  /** The codes before the third `apply_code`: `code1` shifted left by one (dropping its top bit), `code2` right by one. */
  function ShiftCodes(k: Codes): Codes {
    k.(code1 := k.code1 * 2 % 0x1_0000_0000, code2 := k.code2 / 2)
  }

  /** The schedule: `apply_code` once, a second time from Level2, a third from Level3 after `ShiftCodes`. */
  function Schedule(c: Cipher, k: Codes, level: Level): (Cipher, Codes) {
    var first := ApplyCode(c, k);
    if level.Level1? then first
    else
      var second := ApplyCode(first.0, first.1);
      if level.Level2? then second
      else ApplyCode(second.0, ShiftCodes(second.1))
  }

  /** `Blowfish::new`: the key must be exactly `KeySize` bytes. */
  function New(key: seq<byte>, seed: u32, level: Level): (r: Result<Cipher, BlowfishError>)
    ensures r.Err? <==> |key| != KeySize
    ensures r.Err? ==> r.error == KeySizeMismatch(KeySize, |key|)
  {
    if |key| != KeySize then Err(KeySizeMismatch(KeySize, |key|))
    else Ok(Schedule(FromKey(key), SeedCodes(seed), level).0)
  }
}
