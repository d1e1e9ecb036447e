/**
 * Shared vocabulary of the ROM model: bytes, fixed-width words, the
 * Option/Result wrappers used for every fallible operation, and the
 * little-endian word codecs that every on-disk table of the ROM uses.
 */
module Common {

  /** Fixed-width unsigned integers, as the integers they stand for. */
  type byte = x: int | 0 <= x < 0x100
  type u16 = x: int | 0 <= x < 0x1_0000
  type u32 = x: int | 0 <= x < 0x1_0000_0000

  /** An optional value. */
  datatype Option<T> = None | Some(value: T)

  /** The outcome of a fallible operation; `:-` propagates the error. */
  datatype Result<T, E> = Ok(value: T) | Err(error: E)
  {
    predicate IsFailure() {
      Err?
    }

    function PropagateFailure<U>(): Result<U, E>
      requires Err?
    {
      Err(error)
    }

    function Extract(): T
      requires Ok?
    {
      value
    }
  }

  /** A sequence of `n` copies of `b`. */
  function Fill(b: byte, n: nat): (r: seq<byte>)
    ensures |r| == n
    ensures forall i :: 0 <= i < n ==> r[i] == b
  {
    seq(n, _ => b)
  }

  /** The sequence `s` in reverse order. */
  function Reverse<T>(s: seq<T>): (r: seq<T>)
    ensures |r| == |s|
    ensures forall i :: 0 <= i < |s| ==> r[i] == s[|s| - 1 - i]
  {
    if s == [] then [] else Reverse(s[1..]) + [s[0]]
  }

  lemma {:induction false} ReverseReverse<T>(s: seq<T>)
    ensures Reverse(Reverse(s)) == s
  {
  }

  lemma {:induction false} ReverseAppend<T>(a: seq<T>, b: seq<T>)
    ensures Reverse(a + b) == Reverse(b) + Reverse(a)
  {
  }

  /** A sequence is its part before `i` followed by its part from `i`. */
  lemma {:induction false} SplitAt<T>(s: seq<T>, i: nat)
    requires i <= |s|
    ensures s[..i] + s[i..] == s
  {
  }

  /** The two parts of a concatenation. */
  lemma {:induction false} Parts<T>(a: seq<T>, b: seq<T>)
    ensures (a + b)[..|a|] == a && (a + b)[|a|..] == b
  {
  }

  /** The three parts of a concatenation. */
  lemma {:induction false} Parts3<T>(a: seq<T>, b: seq<T>, c: seq<T>)
    ensures (a + (b + c))[..|a|] == a
    ensures (a + (b + c))[|a|..|a| + |b|] == b
    ensures (a + (b + c))[|a| + |b|..] == c
  {
  }

  /** The sequence `s` with `part` written over it from index `at`. */
  function Splice<T>(s: seq<T>, at: nat, part: seq<T>): (r: seq<T>)
    requires at + |part| <= |s|
    ensures |r| == |s|
    ensures r[..at] == s[..at] && r[at..at + |part|] == part && r[at + |part|..] == s[at + |part|..]
  {
    s[..at] + part + s[at + |part|..]
  }

  // ---------------------------------------------------------------------
  // Little-endian words

  function U16Of(lo: byte, hi: byte): u16 {
    lo + 0x100 * hi
  }

  function U32Of(b0: byte, b1: byte, b2: byte, b3: byte): u32 {
    b0 + 0x100 * (b1 + 0x100 * (b2 + 0x100 * b3))
  }

  /** The little-endian u16 stored at `s[i..i + 2]`. */
  function ReadU16(s: seq<byte>, i: nat): u16
    requires i + 2 <= |s|
  {
    U16Of(s[i], s[i + 1])
  }

  /** The little-endian u32 stored at `s[i..i + 4]`. */
  function ReadU32(s: seq<byte>, i: nat): u32
    requires i + 4 <= |s|
  {
    U32Of(s[i], s[i + 1], s[i + 2], s[i + 3])
  }

  function U16Bytes(w: u16): (r: seq<byte>)
    ensures |r| == 2
  {
    [w % 0x100, w / 0x100]
  }

  function U32Bytes(w: u32): (r: seq<byte>)
    ensures |r| == 4
  {
    [w % 0x100, w / 0x100 % 0x100, w / 0x100 / 0x100 % 0x100, w / 0x100 / 0x100 / 0x100]
  }

  /** Writing a u16 and reading it back gives the same word, and vice versa. */
  lemma {:induction false} U16RoundTrip(w: u16, s: seq<byte>, i: nat)
    requires i + 2 <= |s|
    ensures ReadU16(U16Bytes(w), 0) == w
    ensures U16Bytes(ReadU16(s, i)) == s[i..i + 2]
  {
  }

  /** Two bytes are the encoding of the word they spell. */
  lemma {:induction false} U16BytesOf(b: seq<byte>)
    requires |b| == 2
    ensures U16Bytes(ReadU16(b, 0)) == b
  {
    var w := ReadU16(b, 0);
    assert w % 0x100 == b[0] && w / 0x100 == b[1];
    assert U16Bytes(w) == [b[0], b[1]];
  }

  /** Writing a u32 and reading it back gives the same word, and vice versa. */
  lemma {:induction false} U32RoundTrip(w: u32, s: seq<byte>, i: nat)
    requires i + 4 <= |s|
    ensures ReadU32(U32Bytes(w), 0) == w
    ensures U32Bytes(ReadU32(s, i)) == s[i..i + 4]
  {
    var q1 := w / 0x100;
    var q2 := q1 / 0x100;
    assert q2 == 0x100 * (q2 / 0x100) + q2 % 0x100;
    assert q1 == 0x100 * q2 + q1 % 0x100;
    var v := ReadU32(s, i);
    assert v / 0x100 == s[i + 1] as int + 0x100 * (s[i + 2] as int + 0x100 * s[i + 3] as int);
    assert v / 0x100 / 0x100 == s[i + 2] as int + 0x100 * s[i + 3] as int;
  }

  /** A read only looks at the four bytes it names. */
  lemma {:induction false} ReadU32Local(s: seq<byte>, i: nat, t: seq<byte>, j: nat)
    requires i + 4 <= |s| && j + 4 <= |t|
    requires s[i..i + 4] == t[j..j + 4]
    ensures ReadU32(s, i) == ReadU32(t, j)
  {
    assert s[i] == t[j] && s[i + 1] == t[j + 1] && s[i + 2] == t[j + 2] && s[i + 3] == t[j + 3] by {
      assert s[i..i + 4][0] == t[j..j + 4][0];
      assert s[i..i + 4][1] == t[j..j + 4][1];
      assert s[i..i + 4][2] == t[j..j + 4][2];
      assert s[i..i + 4][3] == t[j..j + 4][3];
    }
  }

  lemma {:induction false} ReadU16Local(s: seq<byte>, i: nat, t: seq<byte>, j: nat)
    requires i + 2 <= |s| && j + 2 <= |t|
    requires s[i..i + 2] == t[j..j + 2]
    ensures ReadU16(s, i) == ReadU16(t, j)
  {
    assert s[i] == t[j] && s[i + 1] == t[j + 1] by {
      assert s[i..i + 2][0] == t[j..j + 2][0];
      assert s[i..i + 2][1] == t[j..j + 2][1];
    }
  }

  /** A word inside a block reads the same in the block as in the sequence holding it. */
  lemma {:induction false} ReadU32In(s: seq<byte>, at: nat, b: seq<byte>, j: nat)
    requires at + |b| <= |s| && s[at..at + |b|] == b && j + 4 <= |b|
    ensures ReadU32(s, at + j) == ReadU32(b, j)
  {
    assert s[at + j] == b[j] && s[at + j + 1] == b[j + 1] && s[at + j + 2] == b[j + 2] && s[at + j + 3] == b[j + 3];
  }

  lemma {:induction false} ReadU16In(s: seq<byte>, at: nat, b: seq<byte>, j: nat)
    requires at + |b| <= |s| && s[at..at + |b|] == b && j + 2 <= |b|
    ensures ReadU16(s, at + j) == ReadU16(b, j)
  {
    assert s[at + j] == b[j] && s[at + j + 1] == b[j + 1];
  }

  /** Byte order reversal of a u32 (Rust's `u32::swap_bytes`). */
  function SwapBytes32(w: u32): u32 {
    var b := U32Bytes(w);
    U32Of(b[3], b[2], b[1], b[0])
  }

  /** The bytes of the word four bytes spell are those four bytes. */
  lemma {:induction false} BytesOfWord(b0: byte, b1: byte, b2: byte, b3: byte)
    ensures U32Bytes(U32Of(b0, b1, b2, b3)) == [b0, b1, b2, b3]
  {
    U32RoundTrip(0, [b0, b1, b2, b3], 0);
  }

  /** Swapping the bytes of a word reverses its byte string. */
  lemma {:induction false} SwapReverses(b0: byte, b1: byte, b2: byte, b3: byte)
    ensures U32Bytes(SwapBytes32(U32Of(b0, b1, b2, b3))) == [b3, b2, b1, b0]
  {
    BytesOfWord(b0, b1, b2, b3);
    BytesOfWord(b3, b2, b1, b0);
  }

  // ---------------------------------------------------------------------
  // Euclidean division facts

  /** The quotient is the unique `x` with `v == x * q + r` and `r < q`. */
  lemma {:induction false} DivUnique(x: nat, q: nat, r: nat, v: nat)
    requires r < q && v == x * q + r
    ensures x == v / q
  {
    var d, m := v / q, v % q;
    assert v == d * q + m && m < q;
    if d > x {
      MulLe(x + 1, d, q);
    } else if d < x {
      MulLe(d + 1, x, q);
    }
  }

  lemma {:induction false} MulLe(a: nat, b: nat, q: nat)
    requires a <= b
    ensures a * q <= b * q
  {
  }

  /** A natural below the modulus is its own remainder. */
  lemma {:induction false} ModBelow(v: nat, m: nat)
    requires v < m
    ensures v % m == v
  {
  }

  /** Dividing naturals gives naturals, with a remainder below the divisor. */
  lemma {:induction false} DivNat(v: nat, p: nat)
    requires p > 0
    ensures 0 <= v / p && 0 <= v % p < p
  {
  }

  /** Euclidean division of `d + p * h` by `p`, for a digit `d` below `p`. */
  lemma {:induction false} DivMixed(d: nat, p: nat, h: nat)
    requires d < p
    ensures (d + p * h) % p == d && (d + p * h) / p == h
  {
    DivUnique(h, p, d, d + p * h);
  }

  /** Dividing by `a` and then by `b` is dividing by `a * b`. */
  lemma {:induction false} DivDiv(v: nat, a: nat, b: nat)
    requires a > 0 && b > 0
    ensures v / a / b == v / (a * b)
  {
    DivNat(v, a);
    var q1, r1 := v / a, v % a;
    DivNat(q1, b);
    var q2, r2 := q1 / b, q1 % b;
    assert v == a * q1 + r1;
    assert q1 == b * q2 + r2;
    MulLe(r2, b - 1, a);
    assert a * r2 + r1 < a * b;
    assert v == q2 * (a * b) + (a * r2 + r1);
    DivUnique(q2, a * b, a * r2 + r1, v);
  }

  /** A number below `p * q` divided by `p` is below `q`. */
  lemma {:induction false} DivBelow(v: nat, p: nat, q: nat)
    requires p > 0 && v < p * q
    ensures v / p < q
  {
    var d := v / p;
    if d >= q {
      MulLe(q, d, p);
    }
  }

  // ---------------------------------------------------------------------
  // Bit strings, most significant bit first

  function Pow2(k: nat): (r: nat)
    ensures r >= 1
  {
    if k == 0 then 1 else 2 * Pow2(k - 1)
  }

  /** The exclusive or of the low `n` bits of `a` and `b`. */
  function XorBits(a: nat, b: nat, n: nat): (r: nat)
    ensures r < Pow2(n)
  {
    if n == 0 then 0 else (if a % 2 == b % 2 then 0 else 1) + 2 * XorBits(a / 2, b / 2, n - 1)
  }

  lemma {:induction false} Pow2Add(m: nat, n: nat)
    ensures Pow2(m + n) == Pow2(m) * Pow2(n)
    decreases m
  {
    if m > 0 {
      Pow2Add(m - 1, n);
      assert Pow2(m + n) == 2 * Pow2(m - 1 + n);
    }
  }

  /** `Pow2` grows with its exponent. */
  lemma {:induction false} Pow2Monotone(a: nat, b: nat)
    requires a <= b
    ensures Pow2(a) <= Pow2(b)
    decreases b
  {
    if a < b {
      Pow2Monotone(a, b - 1);
    }
  }

  /** Powers of two the byte and word widths need. */
  lemma {:induction false} Pow2Facts()
    ensures Pow2(8) == 0x100 && Pow2(16) == 0x1_0000 && Pow2(17) == 0x2_0000
    ensures Pow2(24) == 0x100_0000 && Pow2(30) == 0x4000_0000 && Pow2(31) == 0x8000_0000
    ensures Pow2(32) == 0x1_0000_0000
  {
    assert Pow2(8) == 0x100 && Pow2(7) == 0x80 && Pow2(6) == 0x40;
    Pow2Add(8, 8);
    Pow2Add(16, 1);
    Pow2Add(16, 8);
    Pow2Add(8, 7);
    Pow2Add(8, 6);
    Pow2Add(16, 14);
    Pow2Add(16, 15);
    Pow2Add(16, 16);
  }

  /** The number whose binary digits, most significant first, are `bits`. */
  function BitsValue(bits: seq<bool>): nat
  {
    if bits == [] then 0 else (if bits[0] then Pow2(|bits| - 1) else 0) + BitsValue(bits[1..])
  }

  lemma {:induction false} BitsValueBound(bits: seq<bool>)
    ensures BitsValue(bits) < Pow2(|bits|)
  {
    if bits != [] {
      BitsValueBound(bits[1..]);
    }
  }

  lemma {:induction false} BitsValueAppendFalse(bits: seq<bool>)
    ensures BitsValue(bits + [false]) == 2 * BitsValue(bits)
  {
    if bits != [] {
      assert (bits + [false])[1..] == bits[1..] + [false];
      BitsValueAppendFalse(bits[1..]);
    }
  }

  /** Appending bits shifts the value up by their number. */
  lemma {:induction false} BitsValueAppend(a: seq<bool>, b: seq<bool>)
    ensures BitsValue(a + b) == BitsValue(a) * Pow2(|b|) + BitsValue(b)
    decreases |a|
  {
    if a != [] {
      var ab := a + b;
      assert ab[0] == a[0] && ab[1..] == a[1..] + b && |ab| - 1 == |a| - 1 + |b|;
      BitsValueAppend(a[1..], b);
      Pow2Add(|a| - 1, |b|);
      ScaledSum(a[0], Pow2(|a| - 1), Pow2(|b|), Pow2(|ab| - 1), BitsValue(a[1..]));
    } else {
      assert a + b == b;
    }
  }

  /** One step of `BitsValueAppend`: the leading bit and the rest, both scaled by `p`. */
  lemma {:induction false} ScaledSum(c: bool, h: nat, p: nat, hp: nat, rest: nat)
    requires hp == h * p
    ensures (if c then hp else 0) + rest * p == ((if c then h else 0) + rest) * p
  {
  }

  /** `n` zero bits. */
  function Zeros(n: nat): (r: seq<bool>)
    ensures |r| == n && forall i :: 0 <= i < n ==> !r[i]
  {
    seq(n, _ => false)
  }

  lemma {:induction false} BitsValueZeros(n: nat)
    ensures BitsValue(Zeros(n)) == 0
  {
    if n > 0 {
      assert Zeros(n)[1..] == Zeros(n - 1);
      BitsValueZeros(n - 1);
    }
  }

  /** The `len`-bit image of `v`, most significant bit first. */
  function NatBits(v: nat, len: nat): (r: seq<bool>)
    requires v < Pow2(len)
    ensures |r| == len
  {
    if len == 0 then []
    else if v >= Pow2(len - 1) then [true] + NatBits(v - Pow2(len - 1), len - 1)
    else [false] + NatBits(v, len - 1)
  }

  /** Reading back the image of a number gives the number. */
  lemma {:induction false} ValueOfNatBits(v: nat, len: nat)
    requires v < Pow2(len)
    ensures BitsValue(NatBits(v, len)) == v
  {
    if len > 0 {
      if v >= Pow2(len - 1) {
        ValueOfNatBits(v - Pow2(len - 1), len - 1);
      } else {
        ValueOfNatBits(v, len - 1);
      }
    }
  }

  /** Every bit string is the image of its value. */
  lemma {:induction false} NatBitsOfValue(bits: seq<bool>)
    ensures BitsValue(bits) < Pow2(|bits|) && NatBits(BitsValue(bits), |bits|) == bits
  {
    BitsValueBound(bits);
    if bits != [] {
      NatBitsOfValue(bits[1..]);
      assert bits == [bits[0]] + bits[1..];
    }
  }

  /** Two bit strings of one length with one value are equal. */
  lemma {:induction false} BitsValueInjective(a: seq<bool>, b: seq<bool>)
    requires |a| == |b| && BitsValue(a) == BitsValue(b)
    ensures a == b
  {
    NatBitsOfValue(a);
    NatBitsOfValue(b);
  }

  // ---------------------------------------------------------------------
  // Words and fixed-size records

  /** The little-endian image of a sequence of u32 words. */
  function WordsBytes(ws: seq<u32>): (r: seq<byte>)
    ensures |r| == 4 * |ws|
  {
    if ws == [] then [] else U32Bytes(ws[0]) + WordsBytes(ws[1..])
  }

  /** The u32 words of a byte string whose length is a multiple of four. */
  function Words(s: seq<byte>): (r: seq<u32>)
    requires |s| % 4 == 0
    ensures |r| == |s| / 4
  {
    if s == [] then [] else [ReadU32(s, 0)] + Words(s[4..])
  }

  lemma {:induction false} WordsBytesIndex(ws: seq<u32>, k: nat)
    requires k < |ws|
    ensures ReadU32(WordsBytes(ws), 4 * k) == ws[k]
  {
    if k == 0 {
      U32RoundTrip(ws[0], WordsBytes(ws), 0);
      ReadU32Local(WordsBytes(ws), 0, U32Bytes(ws[0]), 0);
    } else {
      WordsBytesIndex(ws[1..], k - 1);
      var t := WordsBytes(ws[1..]);
      assert WordsBytes(ws)[4 * k..4 * k + 4] == t[4 * (k - 1)..4 * (k - 1) + 4];
      ReadU32Local(WordsBytes(ws), 4 * k, t, 4 * (k - 1));
    }
  }

  /** Decoding the image of some words gives those words back. */
  lemma {:induction false} WordsOfWordsBytes(ws: seq<u32>)
    ensures Words(WordsBytes(ws)) == ws
  {
    if ws != [] {
      var s := WordsBytes(ws);
      WordsBytesIndex(ws, 0);
      assert s[4..] == WordsBytes(ws[1..]);
      WordsOfWordsBytes(ws[1..]);
    }
  }

  /** Re-encoding the decoded words gives the original bytes. */
  lemma {:induction false} WordsBytesOfWords(s: seq<byte>)
    requires |s| % 4 == 0
    ensures WordsBytes(Words(s)) == s
  {
    if s != [] {
      U32RoundTrip(0, s, 0);
      WordsBytesOfWords(s[4..]);
      assert Words(s)[1..] == Words(s[4..]);
      assert s == s[..4] + s[4..];
    }
  }

  /** Word `k` of a byte string is the u32 stored at `4k`. */
  lemma {:induction false} WordsIndex(s: seq<byte>, k: nat)
    requires |s| % 4 == 0 && 4 * k + 4 <= |s|
    ensures Words(s)[k] == ReadU32(s, 4 * k)
  {
    WordsBytesOfWords(s);
    WordsBytesIndex(Words(s), k);
  }

  /** The little-endian image of a sequence of u16 words. */
  function Words16Bytes(ws: seq<u16>): (r: seq<byte>)
    ensures |r| == 2 * |ws|
  {
    if ws == [] then [] else U16Bytes(ws[0]) + Words16Bytes(ws[1..])
  }

  /** The u16 words of a byte string of even length. */
  function Words16(s: seq<byte>): (r: seq<u16>)
    requires |s| % 2 == 0
    ensures |r| == |s| / 2
  {
    if s == [] then [] else [ReadU16(s, 0)] + Words16(s[2..])
  }

  /** Decoding the image of some words gives those words back. */
  lemma {:induction false} Words16OfBytes(ws: seq<u16>)
    ensures Words16(Words16Bytes(ws)) == ws
  {
    if ws != [] {
      var s := Words16Bytes(ws);
      U16RoundTrip(ws[0], s, 0);
      assert s[..2] == U16Bytes(ws[0]);
      ReadU16Local(s, 0, U16Bytes(ws[0]), 0);
      assert s[2..] == Words16Bytes(ws[1..]);
      Words16OfBytes(ws[1..]);
    }
  }

  /** Re-encoding the decoded words gives the original bytes. */
  lemma {:induction false} BytesOfWords16(s: seq<byte>)
    requires |s| % 2 == 0
    ensures Words16Bytes(Words16(s)) == s
  {
    if s != [] {
      U16RoundTrip(0, s, 0);
      BytesOfWords16(s[2..]);
      assert Words16(s)[1..] == Words16(s[2..]);
      assert s == s[..2] + s[2..];
    }
  }
  /** The first word of a byte string is read from its first two bytes. */
  lemma {:induction false} Words16Head(s: seq<byte>)
    requires |s| % 2 == 0 && |s| >= 2
    ensures Words16(s)[0] == ReadU16(s, 0)
  {
  }

  /** The first two bytes of a word string are those of its first word. */
  lemma {:induction false} Words16BytesHead(ws: seq<u16>)
    requires |ws| >= 1
    ensures Words16Bytes(ws)[..2] == U16Bytes(ws[0])
  {
  }


  /** The concatenation of a sequence of byte blocks. */
  function Concat(blocks: seq<seq<byte>>): seq<byte>
  {
    if blocks == [] then [] else blocks[0] + Concat(blocks[1..])
  }

  /** Taking one more block of size `k` adds `k` to the length. */
  lemma {:induction false} MulSucc(k: nat, n: nat)
    requires n > 0
    ensures k * n == k + k * (n - 1)
  {
  }

  /** All blocks have size `k`. */
  predicate Uniform(blocks: seq<seq<byte>>, k: nat) {
    forall i :: 0 <= i < |blocks| ==> |blocks[i]| == k
  }

  /** The data cut into `n` blocks of size `k`. */
  function Chunks(data: seq<byte>, k: nat, n: nat): (r: seq<seq<byte>>)
    requires |data| == k * n
    ensures |r| == n
    ensures Uniform(r, k)
  {
    if n == 0 then [] else
      MulSucc(k, n);
      [data[..k]] + Chunks(data[k..], k, n - 1)
  }

  /** Cutting data into blocks and concatenating them again is the identity. */
  lemma {:induction false} ConcatChunks(data: seq<byte>, k: nat, n: nat)
    requires |data| == k * n
    ensures Concat(Chunks(data, k, n)) == data
  {
    if n > 0 {
      MulSucc(k, n);
      ConcatChunks(data[k..], k, n - 1);
      var c := Chunks(data, k, n);
      assert c[0] == data[..k];
      assert c[1..] == Chunks(data[k..], k, n - 1);
      assert Concat(c) == c[0] + Concat(c[1..]);
      assert data == data[..k] + data[k..];
    }
  }

  /** Concatenating blocks of size `k` and cutting them again gives the blocks. */
  lemma {:induction false} ChunksConcat(blocks: seq<seq<byte>>, k: nat)
    requires Uniform(blocks, k)
    ensures |Concat(blocks)| == k * |blocks|
    ensures Chunks(Concat(blocks), k, |blocks|) == blocks
  {
    if blocks != [] {
      var n := |blocks|;
      MulSucc(k, n);
      assert Uniform(blocks[1..], k) by {
        forall i | 0 <= i < n - 1 ensures |blocks[1..][i]| == k {
          assert blocks[1..][i] == blocks[i + 1];
        }
      }
      ChunksConcat(blocks[1..], k);
      var c := Concat(blocks);
      assert c == blocks[0] + Concat(blocks[1..]);
      assert |blocks[0]| == k;
      assert c[..k] == blocks[0];
      assert c[k..] == Concat(blocks[1..]);
      assert blocks == [blocks[0]] + blocks[1..];
    }
  }
  /** Block `i` of the cut is the `i`-th run of `k` bytes. */
  lemma {:induction false} ChunksAt(data: seq<byte>, k: nat, n: nat, i: nat)
    requires |data| == k * n && i < n
    ensures k * i + k <= |data|
    ensures Chunks(data, k, n)[i] == data[k * i..k * i + k]
    decreases i
  {
    MulSucc(k, n);
    var rest := data[k..];
    var c := Chunks(data, k, n);
    assert c == [data[..k]] + Chunks(rest, k, n - 1);
    if i > 0 {
      var b := k * (i - 1);
      MulSucc(k, i);
      ChunksAt(rest, k, n - 1, i - 1);
      assert c[i] == rest[b..b + k];
      assert rest[b..b + k] == data[k + b..k + b + k];
    }
  }

  /** Block `i` of a concatenation of `k`-byte blocks sits at `k * i`. */
  lemma {:induction false} ConcatAt(blocks: seq<seq<byte>>, k: nat, i: nat)
    requires Uniform(blocks, k) && i < |blocks|
    ensures |Concat(blocks)| == k * |blocks| && k * i + k <= |Concat(blocks)|
    ensures Concat(blocks)[k * i..k * i + k] == blocks[i]
  {
    ChunksConcat(blocks, k);
    ChunksAt(Concat(blocks), k, |blocks|, i);
  }
}
