/**
 * The overlay table (lib/src/rom/overlay_table.rs): the parsed overlays,
 * in table order, and the table's optional HMAC-SHA1 signature, which is
 * computed over the raw table `build` produces.
 */
module OverlayTables {
  import opened Common
  import RawOverlay
  import RawOverlayTable
  import Overlays
  import Fat
  import Signature

  type Sig = Signature.Signature
  /** HMAC-SHA1 with a fixed key: a 20-byte signature for every message. */
  type Mac = Signature.Mac

  datatype OverlayTable = OverlayTable(overlays: seq<Overlays.Overlay>, signature: Option<Sig>)

  /** `len`. */
  function Len(t: OverlayTable): nat {
    |t.overlays|
  }

  /** `is_empty`. */
  predicate IsEmpty(t: OverlayTable) {
    |t.overlays| == 0
  }

  /**
   * `collect::<Result<Vec<_>, _>>()` over `parse` applied to each entry:
   * every result in order, or the first error.
   */
  function Collect(raws: seq<RawOverlay.Overlay>, parse: RawOverlay.Overlay -> Result<Overlays.Overlay, Overlays.OverlayError>): (r: Result<seq<Overlays.Overlay>, Overlays.OverlayError>)
    ensures r.Ok? ==> |r.value| == |raws| && forall i :: 0 <= i < |raws| ==> parse(raws[i]) == Ok(r.value[i])
    ensures r.Ok? <==> forall i :: 0 <= i < |raws| ==> parse(raws[i]).Ok?
    ensures r.Err? ==> exists i :: 0 <= i < |raws| && parse(raws[i]) == Err(r.error) &&
                                   forall j :: 0 <= j < i ==> parse(raws[j]).Ok?
    decreases |raws|
  {
    if raws == [] then Ok([])
    else
      match parse(raws[0])
      case Err(e) => Err(e)
      case Ok(o) =>
        match Collect(raws[1..], parse)
        case Err(e) =>
          var i :| 0 <= i < |raws[1..]| && parse(raws[1..][i]) == Err(e) &&
                   forall j :: 0 <= j < i ==> parse(raws[1..][j]).Ok?;
          assert parse(raws[i + 1]) == Err(e);
          Err(e)
        case Ok(os) => Ok([o] + os)
  }

  /** `OverlayTable::parse_arm9`: every entry parsed as an ARM9 overlay; the signature is kept. */
  function ParseArm9(raw: RawOverlayTable.OverlayTable, fat: seq<Fat.FileAlloc>, rom: seq<byte>, signatures: Option<seq<Sig>>): (r: Result<OverlayTable, Overlays.OverlayError>)
    ensures r.Ok? <==> forall i :: 0 <= i < |raw.overlays| ==> Overlays.ParseArm9(raw.overlays[i], fat, rom, signatures).Ok?
    ensures r.Ok? ==> r.value.signature == raw.signature && |r.value.overlays| == |raw.overlays|
    ensures r.Ok? ==> forall i :: 0 <= i < |raw.overlays| ==>
      Overlays.ParseArm9(raw.overlays[i], fat, rom, signatures) == Ok(r.value.overlays[i])
  {
    var os :- Collect(raw.overlays, o => Overlays.ParseArm9(o, fat, rom, signatures));
    Ok(OverlayTable(os, raw.signature))
  }

  /** `OverlayTable::parse_arm7`: every entry parsed as an ARM7 overlay; the signature is kept. */
  function ParseArm7(raw: RawOverlayTable.OverlayTable, fat: seq<Fat.FileAlloc>, rom: seq<byte>): (r: Result<OverlayTable, Overlays.OverlayError>)
    ensures r.Ok? <==> forall i :: 0 <= i < |raw.overlays| ==> Overlays.ParseArm7(raw.overlays[i], fat, rom).Ok?
    ensures r.Ok? ==> r.value.signature == raw.signature && |r.value.overlays| == |raw.overlays|
    ensures r.Ok? ==> forall i :: 0 <= i < |raw.overlays| ==>
      Overlays.ParseArm7(raw.overlays[i], fat, rom) == Ok(r.value.overlays[i])
  {
    var os :- Collect(raw.overlays, o => Overlays.ParseArm7(o, fat, rom));
    Ok(OverlayTable(os, raw.signature))
  }

  /** A parsed table has one overlay per entry, so it is empty exactly when the raw table is. */
  lemma {:induction false} ParsedLength(raw: RawOverlayTable.OverlayTable, fat: seq<Fat.FileAlloc>, rom: seq<byte>, signatures: Option<seq<Sig>>)
    requires ParseArm9(raw, fat, rom, signatures).Ok?
    ensures Len(ParseArm9(raw, fat, rom, signatures).value) == |raw.overlays|
    ensures IsEmpty(ParseArm9(raw, fat, rom, signatures).value) <==> raw.overlays == []
  {
  }

  predicate Buildable(t: OverlayTable) {
    forall i :: 0 <= i < |t.overlays| ==> Overlays.Buildable(t.overlays[i])
  }

  /** `OverlayTable::build`: each overlay's entry, in order, and the table's signature. */
  function Build(t: OverlayTable): (r: RawOverlayTable.OverlayTable)
    requires Buildable(t)
    ensures |r.overlays| == |t.overlays| && r.signature == t.signature
    ensures forall i :: 0 <= i < |t.overlays| ==> r.overlays[i] == Overlays.Build(t.overlays[i])
  {
    var os := t.overlays;
    RawOverlayTable.OverlayTable(seq(|os|, i requires 0 <= i < |os| => Overlays.Build(os[i])), t.signature)
  }

  /**
   * A table whose entries are all in the form `build` writes is rebuilt
   * from its parse exactly, entries and signature.
   */
  lemma {:induction false} BuildParsed(raw: RawOverlayTable.OverlayTable, fat: seq<Fat.FileAlloc>, rom: seq<byte>, signatures: Option<seq<Sig>>)
    requires ParseArm9(raw, fat, rom, signatures).Ok?
    requires forall i :: 0 <= i < |raw.overlays| ==>
      Overlays.InBuildForm(raw.overlays[i], ParseArm9(raw, fat, rom, signatures).value.overlays[i].data)
    ensures Buildable(ParseArm9(raw, fat, rom, signatures).value)
    ensures Build(ParseArm9(raw, fat, rom, signatures).value) == raw
  {
    var t := ParseArm9(raw, fat, rom, signatures).value;
    forall i | 0 <= i < |raw.overlays|
      ensures Overlays.Buildable(t.overlays[i]) && Overlays.Build(t.overlays[i]) == raw.overlays[i]
    {
      Overlays.BuildParsed(raw.overlays[i], fat, rom, signatures);
    }
    assert Build(t).overlays == raw.overlays;
  }

  /** `compute_signature`: the raw table's signature computation on the built table. */
  function ComputeSignature(t: OverlayTable, mac: Mac): Sig
    requires Buildable(t)
  {
    RawOverlayTable.ComputeSignature(Build(t), mac)
  }

  /** `verify_signature`: the raw table's check on the built table. */
  function VerifySignature(t: OverlayTable, mac: Mac): (r: bool)
    requires Buildable(t)
    ensures t.signature.None? ==> r
    ensures r <==> t.signature.None? || t.signature.value == ComputeSignature(t, mac)
  {
    RawOverlayTable.VerifySignature(Build(t), mac)
  }

  /** `sign`: the computed signature replaces the old one; the overlays stay. */
  function Sign(t: OverlayTable, mac: Mac): (r: OverlayTable)
    requires Buildable(t)
    ensures r.overlays == t.overlays && IsSigned(r)
    ensures VerifySignature(r, mac)
  {
    t.(signature := Some(ComputeSignature(t, mac)))
  }

  /** `is_signed`. */
  predicate IsSigned(t: OverlayTable) {
    t.signature.Some?
  }

  /** `set_signature`: the given signature replaces the old one; the overlays stay. */
  function SetSignature(t: OverlayTable, s: Sig): (r: OverlayTable)
    ensures r.overlays == t.overlays && IsSigned(r) && r.signature.value == s
  {
    t.(signature := Some(s))
  }

  /** A set signature verifies exactly when it is the one `sign` would compute. */
  lemma {:induction false} SetSignatureVerifies(t: OverlayTable, s: Sig, mac: Mac)
    requires Buildable(t)
    ensures VerifySignature(SetSignature(t, s), mac) <==> s == ComputeSignature(t, mac)
    ensures SetSignature(t, ComputeSignature(t, mac)) == Sign(t, mac)
  {
    assert Build(SetSignature(t, s)).overlays == Build(t).overlays;
  }

  /**
   * On a table read from the ROM in the form `build` writes, the plain
   * check agrees with the raw table's.
   */
  lemma {:induction false} VerifyParsed(raw: RawOverlayTable.OverlayTable, fat: seq<Fat.FileAlloc>, rom: seq<byte>, signatures: Option<seq<Sig>>, mac: Mac)
    requires ParseArm9(raw, fat, rom, signatures).Ok?
    requires forall i :: 0 <= i < |raw.overlays| ==>
      Overlays.InBuildForm(raw.overlays[i], ParseArm9(raw, fat, rom, signatures).value.overlays[i].data)
    ensures Buildable(ParseArm9(raw, fat, rom, signatures).value)
    ensures VerifySignature(ParseArm9(raw, fat, rom, signatures).value, mac) == RawOverlayTable.VerifySignature(raw, mac)
  {
    BuildParsed(raw, fat, rom, signatures);
  }
}
