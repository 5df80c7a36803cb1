/** zlib's inflate in raw mode, as the reader uses it: primed with a few bits and a dictionary, called
    with Z_NO_FLUSH. */
module RawZlib {
  import opened Prelude
  import opened BitPacking
  import opened Deflate
  import opened GzipFile
  import opened Zlib

  class RawStream {
    const source: seq<byte>  // the bytes from where the file stands on
    const good: bool         // they decode
    const plain: seq<byte>   // to this
    const size: nat          // and this many of them are needed
    var consumed: nat
    var produced: nat
    var ended: bool

    constructor (codec: Codec, primed: seq<bool>, source: seq<byte>, dictionary: seq<byte>)
      ensures Valid() && this.source == source && consumed == produced == 0 && !ended
      ensures var r := RawDecode(codec, primed + Bits(source), dictionary);
              && (good <==> r.Some?)
              && (good ==> plain == r.value.plain && size == BytesBeyond(r.value.width, |primed|))
    {
      var r := RawDecode(codec, primed + Bits(source), dictionary);
      this.source, good := source, r.Some?;
      plain := if r.Some? then r.value.plain else [];
      size := if r.Some? then BytesBeyond(r.value.width, |primed|) else 0;
      consumed, produced, ended := 0, 0, false;
    }

    ghost predicate Valid()
      reads this
    {
      && consumed <= size <= |source| && produced <= |plain|
      && (ended ==> good && consumed == size && produced == |plain|)
    }

    ghost predicate Offered(input: seq<byte>, nextIn: nat)
      reads this
    {
      nextIn <= |input| && nextIn <= consumed && IsPart(input, source, consumed - nextIn)
    }

    function Left(): int
      reads this
    {
      size - consumed + |plain| - produced + if ended then 0 else 1
    }

    method Inflate(input: seq<byte>, nextIn: nat, out: array<byte>, at: nat, avail: nat)
      returns (status: Status, used: nat, made: nat)
      requires Valid() && !ended && Offered(input, nextIn) && nextIn < |input|
      requires 0 < avail && at + avail <= out.Length
      modifies this, out
      ensures Valid() && used <= |input| - nextIn && made <= avail
      ensures consumed == old(consumed) + used && produced == old(produced) + made
      ensures Wrote(old(out[..]), out[..], at, plain, old(produced), made)
      ensures good ==> !status.Failed? && Left() < old(Left()) && (status.StreamEnd? <==> ended)
      ensures !good ==> status.Failed?
      ensures !status.AtBoundary?
    {
      if !good {
        return Failed, 0, 0;
      }
      var room, left := Min(avail, |plain| - produced), Min(|input| - nextIn, size - consumed);
      used, made :| 0 <= used <= left && 0 <= made <= room && (used + made > 0 || left == room == 0);
      Copy(out, at, made);
      consumed, produced := consumed + used, produced + made;
      status := Running;
      if consumed == size && produced == |plain| {
        var late: bool := *;
        if used + made == 0 || !late {
          status, ended := StreamEnd, true;
        }
      }
    }

    method Copy(out: array<byte>, at: nat, made: nat)
      requires produced + made <= |plain| && at + made <= out.Length
      modifies out
      ensures Wrote(old(out[..]), out[..], at, plain, produced, made)
    {
      forall k | 0 <= k < made {
        out[at + k] := plain[produced + k];
      }
    }
  }

  /** The bytes that hold the bits after the primed ones. */
  function BytesBeyond(width: nat, primed: nat): nat {
    if width <= primed then 0 else BytesFor(width - primed)
  }
}
