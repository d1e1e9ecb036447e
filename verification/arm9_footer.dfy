/**
 * The footer that follows the ARM9 program: the nitrocode, the offset of
 * the build info block, and a reserved word, 12 bytes in all.
 */
module Arm9Footer {
  import opened Common
  import BuildInfo

  /** The size of the footer. */
  const FooterSize: nat := 12

  datatype Footer = Footer(nitrocode: u32, buildInfoOffset: u32, reserved: u32)

  datatype FooterError =
    | WrongSize(expectedSize: nat, actualSize: nat)
    | NoNitrocode(expected: u32, actual: u32)

  function FooterBytes(f: Footer): (r: seq<byte>)
    ensures |r| == FooterSize
  {
    U32Bytes(f.nitrocode) + U32Bytes(f.buildInfoOffset) + U32Bytes(f.reserved)
  }

  function ReadFooter(b: seq<byte>): Footer
    requires |b| == FooterSize
  {
    Footer(ReadU32(b, 0), ReadU32(b, 4), ReadU32(b, 8))
  }

  /** A footer reads back from its bytes, and 12 bytes are the image of what they read as. */
  lemma {:induction false} FooterRoundTrip(f: Footer, b: seq<byte>)
    requires |b| == FooterSize
    ensures ReadFooter(FooterBytes(f)) == f
    ensures FooterBytes(ReadFooter(b)) == b
  {
    var e := FooterBytes(f);
    U32RoundTrip(f.nitrocode, b, 0);
    U32RoundTrip(f.buildInfoOffset, b, 4);
    U32RoundTrip(f.reserved, b, 8);
    ReadU32In(e, 0, U32Bytes(f.nitrocode), 0);
    ReadU32In(e, 4, U32Bytes(f.buildInfoOffset), 0);
    ReadU32In(e, 8, U32Bytes(f.reserved), 0);
    assert b == b[0..4] + b[4..8] + b[8..12];
  }

  /** `check_nitrocode`: the footer must open with the nitrocode. */
  function CheckNitrocode(f: Footer): (r: Result<(), FooterError>)
    ensures r.Ok? <==> f.nitrocode == BuildInfo.Nitrocode
    ensures r.Err? ==> r.error.NoNitrocode? && r.error.actual == f.nitrocode && r.error.expected != r.error.actual
  {
    if f.nitrocode != BuildInfo.Nitrocode then Err(NoNitrocode(BuildInfo.Nitrocode, f.nitrocode)) else Ok(())
  }

  /** `Arm9Footer::new`: a footer pointing at the given build info offset. */
  function New(buildInfoOffset: u32): (r: Footer)
    ensures CheckNitrocode(r).Ok?
    ensures r.buildInfoOffset == buildInfoOffset && r.reserved == 0
  {
    Footer(BuildInfo.Nitrocode, buildInfoOffset, 0)
  }

  /**
   * `Arm9Footer::borrow_from_slice` (and `borrow_from_slice_mut`, which makes
   * the same checks): the data must be exactly one footer, and its first four
   * bytes must be 21 06 c0 de.
   */
  function BorrowFromSlice(data: seq<byte>): (r: Result<Footer, FooterError>)
    ensures (r.Err? && r.error.WrongSize?) <==> |data| != FooterSize
    ensures |data| != FooterSize ==> r == Err(WrongSize(FooterSize, |data|))
    ensures r.Ok? <==> |data| == FooterSize && data[..4] == BuildInfo.NitrocodeTrailer[..4]
    ensures r.Ok? ==> FooterBytes(r.value) == data
  {
    if |data| != FooterSize then Err(WrongSize(FooterSize, |data|))
    else
      var footer := ReadFooter(data);
      FooterRoundTrip(footer, data);
      BuildInfo.NitrocodeWords();
      U32RoundTrip(BuildInfo.Nitrocode, data, 0);
      var _ :- CheckNitrocode(footer);
      Ok(footer)
  }

  /** A footer made by `new` reads back from its bytes. */
  lemma {:induction false} NewRoundTrip(buildInfoOffset: u32)
    ensures BorrowFromSlice(FooterBytes(New(buildInfoOffset))) == Ok(New(buildInfoOffset))
  {
    var f := New(buildInfoOffset);
    FooterRoundTrip(f, FooterBytes(f));
  }
}
