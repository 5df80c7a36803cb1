/** RFC 1951 section 3.1.1: bits are packed into bytes starting with the least significant one. */
module BitPacking {
  import opened Prelude

  const POWERS: seq<nat> := [1, 2, 4, 8, 16, 32, 64, 128, 256]

  function ShiftRight(b: byte, k: nat): (r: byte)
    requires k <= 8
  {
    b / POWERS[k]
  }

  predicate BitAt(b: byte, k: nat)
    requires k < 8
  {
    ShiftRight(b, k) % 2 == 1
  }

  /** The bit sequence of a byte sequence. */
  function Bits(s: seq<byte>): (r: seq<bool>)
    ensures |r| == 8 * |s|
  {
    seq(8 * |s|, i requires 0 <= i < 8 * |s| => BitAt(s[i / 8], i % 8))
  }

  /** The low n bits of a byte, as inflatePrime inserts them in front of the input. */
  function LowBits(b: byte, n: nat): (r: seq<bool>)
    requires n <= 8
  {
    seq(n, i requires 0 <= i < n => BitAt(b, i))
  }

  /** The number of bytes that hold the first n bits. */
  function BytesFor(n: nat): (r: nat)
    ensures 8 * r - 7 <= n <= 8 * r
  {
    (n + 7) / 8
  }

  lemma BitsOfDrop(s: seq<byte>, k: nat)
    requires k <= |s|
    ensures Bits(s[k..]) == Bits(s)[8 * k..]
  {
    var a, b := Bits(s[k..]), Bits(s)[8 * k..];
    forall i | 0 <= i < |a|
      ensures a[i] == b[i]
    {
      assert b[i] == Bits(s)[8 * k + i];
      assert (8 * k + i) / 8 == k + i / 8 && (8 * k + i) % 8 == i % 8;
    }
  }

  /** Shifting once more, and so by any number of places. */
  lemma {:induction false} ShiftOnce(b: byte, k: nat)
    requires k < 8
    ensures ShiftRight(b, k) / 2 == ShiftRight(b, k + 1)
  {
    match k
    case 0 => case 1 => case 2 => case 3 => case 4 => case 5 => case 6 => case _ =>
  }

  lemma {:induction false} ShiftTwice(b: byte, k: nat, j: nat)
    requires k + j <= 8
    ensures ShiftRight(ShiftRight(b, k), j) == ShiftRight(b, k + j)
    decreases j
  {
    hide ShiftRight;
    if j == 0 {
      ShiftNone(ShiftRight(b, k));
    } else {
      ShiftTwice(b, k, j - 1);
      ShiftOnce(ShiftRight(b, k), j - 1);
      ShiftOnce(b, k + j - 1);
    }
  }

  lemma {:induction false} ShiftNone(b: byte)
    ensures ShiftRight(b, 0) == b
  {
  }

  lemma ShiftThenBit(b: byte, k: nat, j: nat)
    requires k + j < 8
    ensures BitAt(ShiftRight(b, k), j) == BitAt(b, k + j)
  {
    ShiftTwice(b, k, j);
  }

  /** Bit-exact resume: priming with the top bits of the byte before the compressed offset and then
      reading from that offset presents exactly the file's bits from the checkpoint's bit position. */
  lemma ResumeBits(s: seq<byte>, compressedOffset: nat, bitOffset: nat)
    requires compressedOffset <= |s| && bitOffset < 8
    requires bitOffset > 0 ==> compressedOffset > 0
    ensures bitOffset == 0 ==> Bits(s[compressedOffset..]) == Bits(s)[8 * compressedOffset..]
    ensures bitOffset > 0 ==>
              LowBits(ShiftRight(s[compressedOffset - 1], 8 - bitOffset), bitOffset) + Bits(s[compressedOffset..])
              == Bits(s)[8 * compressedOffset - bitOffset..]
  {
    hide BitAt, ShiftRight;
    BitsOfDrop(s, compressedOffset);
    if bitOffset > 0 {
      var c := s[compressedOffset - 1];
      var primed := LowBits(ShiftRight(c, 8 - bitOffset), bitOffset);
      var b := Bits(s)[8 * compressedOffset - bitOffset..];
      forall i | 0 <= i < bitOffset
        ensures primed[i] == b[i]
      {
        ShiftThenBit(c, 8 - bitOffset, i);
        var at := 8 * compressedOffset - bitOffset + i;
        assert at / 8 == compressedOffset - 1 && at % 8 == 8 - bitOffset + i;
      }
      assert b == b[..bitOffset] + b[bitOffset..];
      assert b[bitOffset..] == Bits(s)[8 * compressedOffset..];
    }
  }
}
