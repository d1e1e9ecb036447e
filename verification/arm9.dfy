/**
 * The ARM9 secure area (lib/src/rom/arm9.rs): the first 0x800 bytes of the
 * ARM9 program, which a retail ROM stores enciphered.
 *
 * Deciphering runs the Level 2 cipher over the first 8-byte block, then the
 * Level 3 cipher over the whole area, and expects the text "encryObj" at
 * its start, which it then overwrites with the secure area id. Enciphering
 * does the opposite, in the opposite order. Nothing past the area changes.
 */
module SecureArea {
  import opened Common
  import Blowfish

  /** The size of the secure area. */
  const AreaSize: nat := 0x800

  /** The marker an unenciphered secure area starts with. */
  const SecureAreaId: seq<byte> := [0xff, 0xde, 0xff, 0xe7, 0xff, 0xde, 0xff, 0xe7]

  /** The text "encryObj", which a correctly deciphered area starts with. */
  const EncryObj: seq<byte> := [0x65, 0x6e, 0x63, 0x72, 0x79, 0x4f, 0x62, 0x6a]

  datatype Arm9Error =
    | DataTooSmall(expected: nat, actual: nat)
    | BlowfishFailed(cause: Blowfish.BlowfishError)
    | NotEncryObj

  /** `is_encrypted`: the program does not start with the secure area id. */
  predicate IsEncrypted(data: seq<byte>) {
    |data| < 8 || data[0..8] != SecureAreaId
  }

  /**
   * The two ciphers the secure area uses: the key schedule at Level 2
   * and at Level 3, both seeded with the game code.
   */
  function Ciphers(key: seq<byte>, gamecode: u32): (r: Result<(Blowfish.Cipher, Blowfish.Cipher), Arm9Error>)
    ensures r.Err? <==> |key| != Blowfish.KeySize
    ensures r.Err? ==> r.error == BlowfishFailed(Blowfish.KeySizeMismatch(Blowfish.KeySize, |key|))
  {
    match Blowfish.New(key, gamecode, Blowfish.Level2)
    case Err(e) => Err(BlowfishFailed(e))
    case Ok(level2) =>
      match Blowfish.New(key, gamecode, Blowfish.Level3)
      case Err(e) => Err(BlowfishFailed(e))
      case Ok(level3) => Ok((level2, level3))
  }

  /**
   * The area deciphered: the Level 2 cipher on the first block, then the
   * Level 3 cipher on everything. Both lengths are multiples of eight, so
   * `Blowfish::decrypt` succeeds on them.
   */
  function OpenArea(level2: Blowfish.Cipher, level3: Blowfish.Cipher, area: seq<byte>): (r: seq<byte>)
    requires |area| == AreaSize
    ensures |r| == AreaSize
  {
    Blowfish.DecryptChunks(level3, Blowfish.DecryptChunks(level2, area[..8]) + area[8..])
  }

  /** The area enciphered: the Level 3 cipher on everything, then the Level 2 cipher on the first block. */
  function SealArea(level2: Blowfish.Cipher, level3: Blowfish.Cipher, area: seq<byte>): (r: seq<byte>)
    requires |area| == AreaSize
    ensures |r| == AreaSize
  {
    var whole := Blowfish.EncryptChunks(level3, area);
    Blowfish.EncryptChunks(level2, whole[..8]) + whole[8..]
  }

  /** Sealing and opening undo each other, whatever the two ciphers. */
  lemma {:induction false} OpenSeal(level2: Blowfish.Cipher, level3: Blowfish.Cipher, area: seq<byte>)
    requires |area| == AreaSize
    ensures OpenArea(level2, level3, SealArea(level2, level3, area)) == area
    ensures SealArea(level2, level3, OpenArea(level2, level3, area)) == area
  {
    var whole := Blowfish.EncryptChunks(level3, area);
    var sealed := SealArea(level2, level3, area);
    Blowfish.ChunksRoundTrip(level2, whole[..8]);
    assert sealed[..8] == Blowfish.EncryptChunks(level2, whole[..8]);
    assert sealed[8..] == whole[8..];
    assert Blowfish.DecryptChunks(level2, sealed[..8]) + sealed[8..] == whole;
    Blowfish.ChunksRoundTrip(level3, area);

    var first := Blowfish.DecryptChunks(level2, area[..8]) + area[8..];
    var plain := OpenArea(level2, level3, area);
    Blowfish.ChunksRoundTrip(level3, first);
    assert Blowfish.EncryptChunks(level3, plain) == first;
    assert first[..8] == Blowfish.DecryptChunks(level2, area[..8]);
    assert first[8..] == area[8..];
    Blowfish.ChunksRoundTrip(level2, area[..8]);
    assert area[..8] + area[8..] == area;
  }

  /**
   * The program's area, deciphered with the key's two ciphers, starts with
   * "encryObj": the key and game code are the ones the area was sealed with.
   */
  predicate OpensToEncryObj(data: seq<byte>, key: seq<byte>, gamecode: u32)
    requires |data| >= AreaSize && |key| == Blowfish.KeySize
  {
    var (level2, level3) := Ciphers(key, gamecode).value;
    OpenArea(level2, level3, data[..AreaSize])[..8] == EncryObj
  }

  /**
   * `Arm9::decrypt`: too short a program is refused, then the key, then an
   * area that does not decipher to "encryObj"; otherwise the deciphered
   * area, its first block replaced by the secure area id, takes the place of
   * the first 0x800 bytes.
   */
  function Decrypt(data: seq<byte>, key: seq<byte>, gamecode: u32): (r: Result<seq<byte>, Arm9Error>)
    ensures |data| < AreaSize ==> r == Err(DataTooSmall(AreaSize, |data|))
    ensures |data| >= AreaSize && |key| != Blowfish.KeySize ==>
      r == Err(BlowfishFailed(Blowfish.KeySizeMismatch(Blowfish.KeySize, |key|)))
    ensures |data| >= AreaSize && |key| == Blowfish.KeySize ==>
      (r == Err(NotEncryObj) <==> !OpensToEncryObj(data, key, gamecode))
    ensures r.Ok? <==> |data| >= AreaSize && |key| == Blowfish.KeySize && OpensToEncryObj(data, key, gamecode)
    ensures r.Ok? ==> |r.value| == |data| && r.value[AreaSize..] == data[AreaSize..]
    ensures r.Ok? ==> r.value[..8] == SecureAreaId && !IsEncrypted(r.value)
  {
    if |data| < AreaSize then Err(DataTooSmall(AreaSize, |data|))
    else
      match Ciphers(key, gamecode)
      case Err(e) => Err(e)
      case Ok((level2, level3)) =>
        var plain := OpenArea(level2, level3, data[..AreaSize]);
        if plain[..8] != EncryObj then Err(NotEncryObj)
        else
          var rest := plain[8..] + data[AreaSize..];
          Parts(SecureAreaId, rest);
          Parts(plain[8..], data[AreaSize..]);
          Ok(SecureAreaId + rest)
  }

  /**
   * `Arm9::encrypt`: too short a program is refused, then one that does
   * not start with the secure area id, then the key; otherwise the area,
   * its first block replaced by "encryObj", is enciphered in place.
   */
  function Encrypt(data: seq<byte>, key: seq<byte>, gamecode: u32): (r: Result<seq<byte>, Arm9Error>)
    ensures |data| < AreaSize ==> r == Err(DataTooSmall(AreaSize, |data|))
    ensures |data| >= AreaSize ==> (r == Err(NotEncryObj) <==> data[..8] != SecureAreaId)
    ensures |data| >= AreaSize && data[..8] == SecureAreaId && |key| != Blowfish.KeySize ==>
      r == Err(BlowfishFailed(Blowfish.KeySizeMismatch(Blowfish.KeySize, |key|)))
    ensures r.Ok? <==> |data| >= AreaSize && data[..8] == SecureAreaId && |key| == Blowfish.KeySize
    ensures r.Ok? ==> |r.value| == |data| && r.value[AreaSize..] == data[AreaSize..]
  {
    if |data| < AreaSize then Err(DataTooSmall(AreaSize, |data|))
    else if data[..8] != SecureAreaId then Err(NotEncryObj)
    else
      match Ciphers(key, gamecode)
      case Err(e) => Err(e)
      case Ok((level2, level3)) => Ok(SealProgram(level2, level3, data))
  }

  /** The program with its area, first block replaced by "encryObj", enciphered; what follows the area is kept. */
  function SealProgram(level2: Blowfish.Cipher, level3: Blowfish.Cipher, data: seq<byte>): (r: seq<byte>)
    requires |data| >= AreaSize
    ensures |r| == |data| && r[AreaSize..] == data[AreaSize..]
  {
    var sealed := SealArea(level2, level3, EncryObj + data[8..AreaSize]);
    Parts(sealed, data[AreaSize..]);
    sealed + data[AreaSize..]
  }

  /** Enciphering a deciphered program gives it back, and so does deciphering an enciphered one. */
  lemma {:induction false} RoundTrip(data: seq<byte>, key: seq<byte>, gamecode: u32)
    ensures Encrypt(data, key, gamecode).Ok? ==>
      Decrypt(Encrypt(data, key, gamecode).value, key, gamecode) == Ok(data)
    ensures Decrypt(data, key, gamecode).Ok? ==>
      Encrypt(Decrypt(data, key, gamecode).value, key, gamecode) == Ok(data)
  {
    if Encrypt(data, key, gamecode).Ok? {
      DecryptEncrypted(data, key, gamecode);
    }
    if Decrypt(data, key, gamecode).Ok? {
      EncryptDecrypted(data, key, gamecode);
    }
  }

  /** A program is its first block, the rest of its area, and what follows the area. */
  lemma {:induction false} ThreeParts(data: seq<byte>)
    requires |data| >= AreaSize
    ensures data[..8] + (data[8..AreaSize] + data[AreaSize..]) == data
  {
    Parts(data[..8], data[8..AreaSize] + data[AreaSize..]);
  }

  lemma {:induction false} DecryptEncrypted(data: seq<byte>, key: seq<byte>, gamecode: u32)
    requires Encrypt(data, key, gamecode).Ok?
    ensures Decrypt(Encrypt(data, key, gamecode).value, key, gamecode) == Ok(data)
  {
    var (level2, level3) := Ciphers(key, gamecode).value;
    var area := EncryObj + data[8..AreaSize];
    var sealed := SealArea(level2, level3, area);
    var e := sealed + data[AreaSize..];
    assert Encrypt(data, key, gamecode).value == e;
    OpenSeal(level2, level3, area);
    Parts(EncryObj, data[8..AreaSize]);
    ThreeParts(data);
  }

  lemma {:induction false} EncryptDecrypted(data: seq<byte>, key: seq<byte>, gamecode: u32)
    requires Decrypt(data, key, gamecode).Ok?
    ensures Encrypt(Decrypt(data, key, gamecode).value, key, gamecode) == Ok(data)
  {
    var (level2, level3) := Ciphers(key, gamecode).value;
    var plain := OpenArea(level2, level3, data[..AreaSize]);
    var rest := plain[8..] + data[AreaSize..];
    var d := SecureAreaId + rest;
    assert Decrypt(data, key, gamecode).value == d;
    Parts3(SecureAreaId, plain[8..], data[AreaSize..]);
    assert d[..8] == SecureAreaId && d[8..AreaSize] == plain[8..] && d[AreaSize..] == data[AreaSize..];
    Parts(EncryObj, plain[8..]);
    assert EncryObj + plain[8..] == plain;
    OpenSeal(level2, level3, data[..AreaSize]);
    SplitAt(data, AreaSize);
    assert Encrypt(d, key, gamecode) == Ok(SealArea(level2, level3, plain) + data[AreaSize..]);
  }
}
