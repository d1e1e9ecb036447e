/**
 * The multiboot signature appended for Download Play: a magic word, a
 * 128-byte RSA signature and the RSA key seed, 136 bytes in all.
 */
module MultibootSignature {
  import opened Common

  /** The size of the record. */
  const SignatureSize: nat := 136

  /** The size of the RSA signature. */
  const RsaSize: nat := 128

  /** The magic word that opens a multiboot signature. */
  const Magic: u32 := 0x00016361

  datatype Signature = Signature(magic: u32, rsaSignature: seq<byte>, keySeed: u32)

  /** The record's fields have the sizes of its layout. */
  predicate Valid(s: Signature) {
    |s.rsaSignature| == RsaSize
  }

  datatype MultibootError =
    | DataTooSmall(expectedSize: nat, actualSize: nat)
    | InvalidMagic(expected: u32, actual: u32)

  function SignatureBytes(s: Signature): (r: seq<byte>)
    requires Valid(s)
    ensures |r| == SignatureSize
  {
    U32Bytes(s.magic) + s.rsaSignature + U32Bytes(s.keySeed)
  }

  /** The record at the start of `b`: the magic, the next 128 bytes, then the key seed. */
  function ReadSignature(b: seq<byte>): (r: Signature)
    requires |b| >= SignatureSize
    ensures Valid(r)
  {
    Signature(ReadU32(b, 0), b[4..4 + RsaSize], ReadU32(b, 4 + RsaSize))
  }

  /** A record reads back from its bytes, and 136 bytes are the image of what they read as. */
  lemma {:induction false} SignatureRoundTrip(s: Signature, b: seq<byte>)
    requires Valid(s) && |b| >= SignatureSize
    ensures ReadSignature(SignatureBytes(s)) == s
    ensures SignatureBytes(ReadSignature(b)) == b[..SignatureSize]
  {
    var e := SignatureBytes(s);
    U32RoundTrip(s.magic, b, 0);
    U32RoundTrip(s.keySeed, b, 132);
    ReadU32In(e, 0, U32Bytes(s.magic), 0);
    ReadU32In(e, 132, U32Bytes(s.keySeed), 0);
    assert e[4..132] == s.rsaSignature;
    assert b[..SignatureSize] == b[0..4] + b[4..132] + b[132..136];
  }

  /**
   * `MultibootSignature::borrow_from_slice`: the record at the start of
   * `data`, provided the data holds 136 bytes and opens with the magic word.
   */
  function BorrowFromSlice(data: seq<byte>): (r: Result<Signature, MultibootError>)
    ensures (r.Err? && r.error.DataTooSmall?) <==> |data| < SignatureSize
    ensures |data| < SignatureSize ==> r == Err(DataTooSmall(SignatureSize, |data|))
    ensures (r.Err? && r.error.InvalidMagic?) <==> |data| >= SignatureSize && ReadU32(data, 0) != Magic
    ensures r.Err? && r.error.InvalidMagic? ==> r.error == InvalidMagic(Magic, ReadU32(data, 0))
    ensures r.Ok? ==> Valid(r.value) && MagicOf(r.value) == Magic && SignatureBytes(r.value) == data[..SignatureSize]
  {
    if |data| < SignatureSize then Err(DataTooSmall(SignatureSize, |data|))
    else
      var s := ReadSignature(data[..SignatureSize]);
      SignatureRoundTrip(s, data[..SignatureSize]);
      ReadU32In(data, 0, data[..SignatureSize], 0);
      if s.magic != Magic then Err(InvalidMagic(Magic, s.magic))
      else Ok(s)
  }

  /** A record with the magic word, followed by anything, reads back. */
  lemma {:induction false} BorrowRoundTrip(s: Signature, rest: seq<byte>)
    requires Valid(s) && s.magic == Magic
    ensures BorrowFromSlice(SignatureBytes(s) + rest) == Ok(s)
  {
    var data := SignatureBytes(s) + rest;
    assert data[..SignatureSize] == SignatureBytes(s);
    SignatureRoundTrip(s, data);
  }

  /** `magic()`. */
  function MagicOf(s: Signature): u32 {
    s.magic
  }

  /** `rsa_signature()`. */
  function RsaSignature(s: Signature): seq<byte> {
    s.rsaSignature
  }

  /** `key_seed()`. */
  function KeySeed(s: Signature): u32 {
    s.keySeed
  }
}
