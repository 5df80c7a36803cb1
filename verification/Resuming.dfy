/** Random access in terms of the bytes that the reader reads. */
module Resuming {
  import opened Prelude
  import opened BitPacking
  import opened Deflate
  import opened GzipFile
  import opened FilePlan
  import opened Layout
  import opened RawZlib

  /** A window that recalls the text of member i before its boundary j. */
  ghost predicate CanResume(pl: Plan, i: nat, j: nat, window: seq<byte>) {
    && pl.Valid() && i < |pl.outs| && j + 1 < |pl.outs[i]| && pl.MemberOk(i)
    && pl.Base(i) <= pl.outs[i][j] <= |pl.text|
    && Recalls(window, pl.text[pl.Base(i)..pl.outs[i][j]])
  }

  /** The bits that are handed to the decoder before the bytes from `co` on. */
  function Primed(s: seq<byte>, co: nat, bo: nat): seq<bool>
    requires bo < 8 && co <= |s| && (bo > 0 ==> co > 0)
  {
    if bo == 0 then [] else LowBits(ShiftRight(s[co - 1], 8 - bo), bo)
  }

  /** Decoding from there with the window yields the rest of the member, and leaves its trailer. */
  ghost predicate ResumesAt(c: Codec, s: seq<byte>, pl: Plan, i: nat, j: nat, window: seq<byte>, width: nat)
    requires CanResume(pl, i, j, window)
  {
    var co := BytesFor(pl.bits[i][j]);
    var bo := 8 * co - pl.bits[i][j];
    && co <= |s| && (bo > 0 ==> co > 0)
    && pl.outs[i][j] <= pl.Base(i + 1) <= |pl.text|
    && RawDecode(c, Primed(s, co, bo) + Bits(s[co..]), window) == Some(Raw(pl.text[pl.outs[i][j]..pl.Base(i + 1)], width))
    && co + BytesBeyond(width, bo) < pl.begins[i + 1] <= |s|
  }

  /** This holds at every checkpoint with every such window. */
  ghost predicate Decodes(c: Codec, s: seq<byte>, pl: Plan) {
    forall i, j, window :: CanResume(pl, i, j, window) ==> exists width :: ResumesAt(c, s, pl, i, j, window, width)
  }

  lemma {:induction false} PlanDecodes(c: Codec, s: seq<byte>)
    ensures Decodes(c, s, PlanOf(c, s))
  {
    var pl := PlanOf(c, s);
    forall i, j, window | CanResume(pl, i, j, window)
      ensures exists width :: ResumesAt(c, s, pl, i, j, window, width)
    {
      var width := Resume(c, s, pl, i, j, window);
      FromBytes(c, s, pl, i, j, window, width);
    }
  }

  lemma {:induction false} FromBytes(c: Codec, s: seq<byte>, pl: Plan, i: nat, j: nat, window: seq<byte>, width: nat)
    requires CanResume(pl, i, j, window)
    requires pl.outs[i][j] <= pl.Base(i + 1) <= |pl.text| && pl.bits[i][j] <= 8 * |s|
    requires RawDecode(c, Bits(s)[pl.bits[i][j]..], window) == Some(Raw(pl.text[pl.outs[i][j]..pl.Base(i + 1)], width))
    requires BytesFor(pl.bits[i][j] + width) < pl.begins[i + 1] <= |s|
    ensures ResumesAt(c, s, pl, i, j, window, width)
  {
    var co := BytesFor(pl.bits[i][j]);
    var bo := 8 * co - pl.bits[i][j];
    PrimedBits(s, co, bo);
  }

  lemma {:induction false} PrimedBits(s: seq<byte>, co: nat, bo: nat)
    requires bo < 8 && co <= |s| && (bo > 0 ==> co > 0)
    ensures Primed(s, co, bo) + Bits(s[co..]) == Bits(s)[8 * co - bo..]
  {
    ResumeBits(s, co, bo);
    if bo == 0 {
      assert [] + Bits(s[co..]) == Bits(s[co..]);
    }
  }
}
