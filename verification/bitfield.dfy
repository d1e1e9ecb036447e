/**
 * Bit-field words as the `bitfield` attribute lays them out: the declared
 * fields, each of a fixed width, packed one after another from the least
 * significant bit up. A layout is the list of field widths.
 */
module Bitfield {
  import opened Common

  /** The number of bits a layout spans. */
  function Total(widths: seq<nat>): nat {
    if widths == [] then 0 else widths[0] + Total(widths[1..])
  }

  /** Every field value fits its width. */
  predicate Fits(fields: seq<nat>, widths: seq<nat>) {
    |fields| == |widths| && forall i :: 0 <= i < |fields| ==> fields[i] < Pow2(widths[i])
  }

  /** The fields of the word `v`, the first from the least significant bits. */
  function Unpack(v: nat, widths: seq<nat>): (r: seq<nat>)
    ensures Fits(r, widths)
  {
    if widths == [] then []
    else
      var p := Pow2(widths[0]);
      DivNat(v, p);
      var rest := Unpack(v / p, widths[1..]);
      FitsCons(v % p, rest, widths);
      [v % p] + rest
  }

  /** Fields that fit a layout's tail, behind one that fits its head, fit the layout. */
  lemma {:induction false} FitsCons(x: nat, rest: seq<nat>, widths: seq<nat>)
    requires widths != [] && x < Pow2(widths[0]) && Fits(rest, widths[1..])
    ensures Fits([x] + rest, widths)
  {
    var r := [x] + rest;
    forall i | 0 <= i < |r| ensures r[i] < Pow2(widths[i]) {
      if i > 0 {
        assert r[i] == rest[i - 1] && widths[i] == widths[1..][i - 1];
      }
    }
  }

  /** A digit below `p` plus `p` times a number below `q` is below `p * q`. */
  lemma {:induction false} MixedRadix(d: nat, p: nat, h: nat, q: nat)
    requires d < p && h < q
    ensures d + p * h < p * q
  {
    assert p * h <= p * (q - 1);
  }

  /** The word holding the given fields. */
  function Pack(fields: seq<nat>, widths: seq<nat>): (r: nat)
    requires Fits(fields, widths)
    ensures r < Pow2(Total(widths))
  {
    if widths == [] then 0
    else
      FitsTail(fields, widths);
      var high := Pack(fields[1..], widths[1..]);
      PackBound(fields[0], high, widths);
      fields[0] + Pow2(widths[0]) * high
  }

  /** The fields after the first fit the layout after the first. */
  lemma {:induction false} FitsTail(fields: seq<nat>, widths: seq<nat>)
    requires Fits(fields, widths) && widths != []
    ensures Fits(fields[1..], widths[1..])
  {
    forall i | 0 <= i < |fields| - 1 ensures fields[1..][i] < Pow2(widths[1..][i]) {
      assert fields[1..][i] == fields[i + 1] && widths[1..][i] == widths[i + 1];
    }
  }

  /** A first field below its width, with the rest below theirs, packs below the layout's width. */
  lemma {:induction false} PackBound(d: nat, high: nat, widths: seq<nat>)
    requires widths != [] && d < Pow2(widths[0]) && high < Pow2(Total(widths[1..]))
    ensures d + Pow2(widths[0]) * high < Pow2(Total(widths))
  {
    MixedRadix(d, Pow2(widths[0]), high, Pow2(Total(widths[1..])));
    Pow2Add(widths[0], Total(widths[1..]));
  }

  /** Splitting a packed word gives back the fields packed into it. */
  lemma {:induction false} UnpackPack(fields: seq<nat>, widths: seq<nat>)
    requires Fits(fields, widths)
    ensures Unpack(Pack(fields, widths), widths) == fields
  {
    if widths != [] {
      var p := Pow2(widths[0]);
      var high := Pack(fields[1..], widths[1..]);
      var v := Pack(fields, widths);
      assert v == fields[0] + p * high;
      assert v % p == fields[0] && v / p == high by {
        DivMixed(fields[0], p, high);
      }
      UnpackPack(fields[1..], widths[1..]);
      assert fields == [fields[0]] + fields[1..];
    }
  }

  /** Packing the fields of a word that fits the layout gives the word back. */
  lemma {:induction false} PackUnpack(v: nat, widths: seq<nat>)
    requires v < Pow2(Total(widths))
    ensures Pack(Unpack(v, widths), widths) == v
  {
    if widths == [] {
      assert Pow2(Total(widths)) == 1;
    } else {
      ShiftBelow(v, widths);
      PackUnpack(v / Pow2(widths[0]), widths[1..]);
      PackUnpackStep(v, widths);
    }
  }

  /** One step of `PackUnpack`: the first field and the packed rest give the word back. */
  lemma {:induction false} PackUnpackStep(v: nat, widths: seq<nat>)
    requires widths != []
    requires 0 <= v / Pow2(widths[0])
    requires Pack(Unpack(v / Pow2(widths[0]), widths[1..]), widths[1..]) == v / Pow2(widths[0])
    ensures Pack(Unpack(v, widths), widths) == v
  {
    var ws := widths[1..];
    var p := Pow2(widths[0]);
    UnpackHead(v, widths);
    var q := v / p;
    var tail := Unpack(q, ws);
    PackCons(v % p, tail, widths);
    Recombine(v, p, v % p, Pack(tail, ws));
  }

  /** Unpacking takes the first field from the low bits and unpacks the rest from the word shifted past it. */
  lemma {:induction false} UnpackHead(v: nat, widths: seq<nat>)
    requires widths != []
    ensures 0 <= v / Pow2(widths[0])
    ensures Unpack(v, widths) == [v % Pow2(widths[0])] + Unpack(v / Pow2(widths[0]), widths[1..])
  {
    DivNat(v, Pow2(widths[0]));
  }

  /** A word that fits a layout, shifted past the first field, fits the rest of the layout. */
  lemma {:induction false} ShiftBelow(v: nat, widths: seq<nat>)
    requires widths != [] && v < Pow2(Total(widths))
    ensures 0 <= v / Pow2(widths[0]) < Pow2(Total(widths[1..]))
  {
    DivNat(v, Pow2(widths[0]));
    Pow2Add(widths[0], Total(widths[1..]));
    DivBelow(v, Pow2(widths[0]), Pow2(Total(widths[1..])));
  }

  /** A packed word is its first field plus the rest packed, shifted past the first field. */
  lemma {:induction false} PackCons(d: nat, rest: seq<nat>, widths: seq<nat>)
    requires widths != [] && d < Pow2(widths[0]) && Fits(rest, widths[1..])
    ensures Fits([d] + rest, widths)
    ensures Pack([d] + rest, widths) == d + Pow2(widths[0]) * Pack(rest, widths[1..])
  {
    FitsCons(d, rest, widths);
    assert ([d] + rest)[1..] == rest;
  }

  /** A remainder and a quotient put back together give the number. */
  lemma {:induction false} Recombine(v: nat, p: nat, d: nat, h: nat)
    requires p > 0 && d == v % p && h == v / p
    ensures d + p * h == v
  {
  }

  /**
   * Replacing one field of a word and packing again changes that field
   * alone: every other field reads as before.
   */
  lemma {:induction false} SetField(v: nat, widths: seq<nat>, i: nat, x: nat)
    requires i < |widths| && x < Pow2(widths[i])
    ensures var fields := Unpack(v, widths);
      Fits(fields[i := x], widths) &&
      Unpack(Pack(fields[i := x], widths), widths) == fields[i := x]
  {
    UnpackPack(Unpack(v, widths)[i := x], widths);
  }

  /** Field `i` of a word is the run of `widths[i]` bits starting after the fields before it. */
  lemma {:induction false} FieldAt(v: nat, widths: seq<nat>, i: nat)
    requires i < |widths|
    ensures Unpack(v, widths)[i] == v / Pow2(Total(widths[..i])) % Pow2(widths[i])
    decreases i
  {
    if i > 0 {
      var tail := widths[1..];
      UnpackHead(v, widths);
      var q := v / Pow2(widths[0]);
      FieldAt(q, tail, i - 1);
      assert Unpack(v, widths)[i] == Unpack(q, tail)[i - 1];
      ShiftTwice(v, widths, i);
    }
  }

  /** Shifting past the first field and then past the next `i - 1` shifts past the first `i`. */
  lemma {:induction false} ShiftTwice(v: nat, widths: seq<nat>, i: nat)
    requires 0 < i < |widths|
    ensures 0 <= v / Pow2(widths[0])
    ensures v / Pow2(widths[0]) / Pow2(Total(widths[1..][..i - 1])) == v / Pow2(Total(widths[..i]))
  {
    var p := Pow2(widths[0]);
    var tail := widths[1..];
    DivNat(v, p);
    assert widths[..i] == [widths[0]] + tail[..i - 1];
    assert Total(widths[..i]) == widths[0] + Total(tail[..i - 1]);
    Pow2Add(widths[0], Total(tail[..i - 1]));
    DivDiv(v, p, Pow2(Total(tail[..i - 1])));
  }
}
