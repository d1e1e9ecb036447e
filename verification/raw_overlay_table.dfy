/**
 * The raw overlay table (lib/src/rom/raw/overlay_table.rs): the entries as
 * the ROM stores them and an optional HMAC-SHA1 signature, which covers
 * the bytes of all the entries one after another.
 */
module RawOverlayTable {
  import opened Common
  import RawOverlay
  import Signature

  type Sig = Signature.Signature

  /** HMAC-SHA1 with a fixed key: a 20-byte signature for every message. */
  type Mac = Signature.Mac

  datatype OverlayTable = OverlayTable(overlays: seq<RawOverlay.Overlay>, signature: Option<Sig>)

  /** `as_bytes`: the entries' 32-byte records, in table order. */
  function AsBytes(t: OverlayTable): (r: seq<byte>)
    ensures |r| == RawOverlay.RecordSize * |t.overlays|
    ensures RawOverlay.BorrowFromSlice(r) == Ok(t.overlays)
  {
    RawOverlay.TableRoundTrip(t.overlays);
    RawOverlay.TableBytes(t.overlays)
  }

  /** `compute_signature`: the MAC of the table's bytes. */
  function ComputeSignature(t: OverlayTable, mac: Mac): Sig {
    mac(AsBytes(t))
  }

  /** `verify_signature`: an unsigned table passes; a signed one passes when its signature is the computed one. */
  function VerifySignature(t: OverlayTable, mac: Mac): (r: bool)
    ensures t.signature.None? ==> r
    ensures r <==> t.signature.None? || t.signature.value == ComputeSignature(t, mac)
  {
    match t.signature
    case None => true
    case Some(s) => ComputeSignature(t, mac) == s
  }

  /** `is_signed`. */
  predicate IsSigned(t: OverlayTable) {
    t.signature.Some?
  }

  /** `compute_signature` gives a 20-byte hash. */
  lemma {:induction false} SignatureWidth(t: OverlayTable, mac: Mac)
    ensures Signature.Valid(ComputeSignature(t, mac))
  {
  }

  /**
   * A signature that verifies two tables with different entries is a MAC
   * collision: the tables' bytes differ, as the bytes determine every
   * entry, yet the MAC maps both to the same hash.
   */
  lemma {:induction false} SharedSignatureCollides(t: OverlayTable, u: OverlayTable, mac: Mac)
    requires t.signature.Some? && u.signature == t.signature
    requires VerifySignature(t, mac) && VerifySignature(u, mac)
    requires t.overlays != u.overlays
    ensures AsBytes(t) != AsBytes(u)
    ensures mac(AsBytes(t)) == mac(AsBytes(u))
  {
    var a, b := AsBytes(t), AsBytes(u);
    assert RawOverlay.BorrowFromSlice(a) != RawOverlay.BorrowFromSlice(b);
    assert mac(a) == t.signature.value == mac(b);
  }
}
