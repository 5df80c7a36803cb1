/** Blocks of literals in fixed Huffman codes, and gzip files of two members made of such blocks. */
module FixedCodes {
  import opened Prelude
  import opened BitPacking
  import opened Deflate
  import opened GzipFile
  import opened Layout

  // ----- reading

  /** RFC 1952 section 2.3: a member header without optional fields. */
  const HEADER: seq<byte> := [0x1f, 0x8b, 8, 0, 0, 0, 0, 0, 0, 3]

  predicate HasMagic(s: seq<byte>) {
    |s| >= 10 && s[0] == 0x1f && s[1] == 0x8b && s[2] == 8 && s[3] == 0
  }

  /** RFC 1951 section 3.1.1: the value of a code of n bits, which starts with its most significant one. */
  function Code(bits: seq<bool>, n: nat): nat
    requires n <= |bits|
  {
    if n == 0 then 0 else 2 * Code(bits, n - 1) + (if bits[n - 1] then 1 else 0)
  }

  datatype Symbols = Symbols(tokens: seq<Token>, width: nat)

  /** RFC 1951 section 3.2.6: literals 0 to 143 have the codes 48 to 191 of eight bits, and the end of the
      block has the code 0 of seven. Other symbols are not read here. */
  function Literals(bits: seq<bool>): (r: Option<Symbols>)
    ensures r.Some? ==> r.value.width <= |bits|
  {
    if |bits| >= 7 && Code(bits, 7) == 0 then Some(Symbols([], 7))
    else if |bits| >= 8 && 48 <= Code(bits, 8) < 192 then
      match Literals(bits[8..])
      case None => None
      case Some(rest) => Some(Symbols([Literal(Code(bits, 8) - 48)] + rest.tokens, 8 + rest.width))
    else None
  }

  /** RFC 1951 section 3.2.3: the bit that marks the final block, and two bits for its type. */
  function LiteralBlock(bits: seq<bool>): (r: Option<Block>) {
    if |bits| < 3 || !bits[1] || bits[2] then None
    else
      match Literals(bits[3..])
      case None => None
      case Some(symbols) => Some(Block(symbols.tokens, 3 + symbols.width, bits[0]))
  }

  /** The codec reads at least this much of the two formats. */
  ghost predicate Reads(c: Codec) {
    && (forall s :: HasMagic(s) ==> c.header(s) == Complete(10, 8))
    && (forall s :: |s| == 0 ==> c.header(s) == Partial)
    && (forall bits :: LiteralBlock(bits).Some? ==> c.block(bits) == LiteralBlock(bits))
  }

  /** The least codec that does. */
  function Literally(): (c: Codec)
    ensures Reads(c)
  {
    Codec(s => if HasMagic(s) then Complete(10, 8) else if |s| == 0 then Partial else Bad, bits => LiteralBlock(bits))
  }

  // ----- a run of newlines

  const CODE: seq<bool> := [false, false, true, true, true, false, true, false]

  function Newlines(n: nat): (r: seq<Token>) {
    if n == 0 then [] else [Literal(NEWLINE)] + Newlines(n - 1)
  }

  lemma {:induction false} NewlinesFit(k: nat, n: nat)
    ensures Fits(k, Newlines(n)) && OutLength(Newlines(n)) == n
    decreases n
  {
    if n > 0 {
      NewlinesFit(k + 1, n - 1);
    }
  }

  const END: seq<bool> := [false, false, false, false, false, false, false]

  /** From position `at` on: the codes of n newlines and of the end of the block. */
  ghost predicate Spells(bits: seq<bool>, at: nat, n: nat)
    decreases n
  {
    at <= |bits| && if n == 0 then END <= bits[at..] else CODE <= bits[at..] && Spells(bits, at + 8, n - 1)
  }

  lemma {:induction false} NewlineCode(bits: seq<bool>)
    requires CODE <= bits
    ensures Code(bits, 7) == 29 && Code(bits, 8) == 48 + NEWLINE
  {
    assert Code(bits, 1) == 0 && Code(bits, 2) == 0 && Code(bits, 3) == 1;
    assert Code(bits, 4) == 3 && Code(bits, 5) == 7 && Code(bits, 6) == 14;
  }

  lemma {:induction false} EndCode(bits: seq<bool>, n: nat)
    requires END <= bits && n <= 7
    ensures Code(bits, n) == 0
  {
    if n > 0 {
      EndCode(bits, n - 1);
    }
  }

  lemma {:induction false} NewlinesRead(bits: seq<bool>, at: nat, n: nat)
    requires Spells(bits, at, n)
    ensures Literals(bits[at..]) == Some(Symbols(Newlines(n), 8 * n + 7))
    decreases n
  {
    if n == 0 {
      EndCode(bits[at..], 7);
    } else {
      NewlineCode(bits[at..]);
      NewlinesRead(bits, at + 8, n - 1);
      assert bits[at..][8..] == bits[at + 8..];
    }
  }

  // ----- two members

  function Repeat(b: byte, n: nat): (r: seq<byte>)
    ensures |r| == n && forall i :: 0 <= i < n ==> r[i] == b
  {
    seq(n, i requires 0 <= i < n => b)
  }

  /** One block of n newlines, and a final block of none. */
  function NewlinesThenEmpty(n: nat): (r: seq<byte>)
    requires n > 0
  {
    Repeat(226, n) + [2, 12, 0]
  }

  /** One final block of n newlines. */
  function NewlinesOnly(n: nat): (r: seq<byte>)
    requires n > 0
  {
    [227] + Repeat(226, n - 1) + [2, 0]
  }

  /** Two members of n newlines each; their checks and lengths are not looked at. */
  function TwoMembers(n: nat, trailer0: seq<byte>, trailer1: seq<byte>): (r: seq<byte>)
    requires n > 0
  {
    HEADER + NewlinesThenEmpty(n) + trailer0 + HEADER + NewlinesOnly(n) + trailer1
  }

  function First(n: nat): Member {
    Member(10, 8, [Block(Newlines(n), 10 + 8 * n, false), Block([], 10, true)])
  }

  function Second(n: nat): Member {
    Member(10, 8, [Block(Newlines(n), 10 + 8 * n, true)])
  }

  /** The bytes from here on start a block of n newlines; `lead` holds its first three bits. */
  ghost predicate Leads(s: seq<byte>, lead: byte, n: nat) {
    && n > 0 && |s| >= n + 2 && lead in {226, 227} && s[0] == lead && s[n] == 2 && s[n + 1] % 4 == 0
    && forall j :: 0 < j < n ==> s[j] == 226
  }

  lemma {:induction false} BitOfByte(s: seq<byte>, j: nat, t: nat)
    requires j < |s| && t < 8
    ensures Bits(s)[8 * j + t] == BitAt(s[j], t)
  {
    assert (8 * j + t) / 8 == j && (8 * j + t) % 8 == t;
  }

  lemma {:induction false} LeadSpells(s: seq<byte>, lead: byte, n: nat, j: nat)
    requires Leads(s, lead, n) && j <= n
    ensures Spells(Bits(s), 3 + 8 * j, n - j)
    decreases n - j
  {
    hide Bits, BitAt;
    var bits := Bits(s);
    if j == n {
      forall t | 0 <= t < 7
        ensures bits[3 + 8 * n..][t] == END[t]
      {
        if t < 5 {
          BitOfByte(s, n, 3 + t);
          EndBits(3 + t);
        } else {
          BitOfByte(s, n + 1, t - 5);
          LowZero(s[n + 1], t - 5);
        }
      }
      assert END == bits[3 + 8 * n..][..7];
    } else {
      forall t | 0 <= t < 8
        ensures bits[3 + 8 * j..][t] == CODE[t]
      {
        if t < 5 {
          BitOfByte(s, j, 3 + t);
          LeadBits(s[j], t);
        } else {
          BitOfByte(s, j + 1, t - 5);
          NextBits(s[j + 1], t - 5);
        }
      }
      assert CODE == bits[3 + 8 * j..][..8];
      LeadSpells(s, lead, n, j + 1);
    }
  }

  lemma {:induction false} LeadHeader(s: seq<byte>, lead: byte, n: nat)
    requires Leads(s, lead, n)
    ensures Bits(s)[0] == (lead == 227) && Bits(s)[1] && !Bits(s)[2]
  {
    BitOfByte(s, 0, 0);
    BitOfByte(s, 0, 1);
    BitOfByte(s, 0, 2);
  }

  lemma {:induction false} LeadBits(b: byte, t: nat)
    requires b in {226, 227} && t < 5
    ensures BitAt(b, 3 + t) == CODE[t]
  {
    match t
    case 0 => case 1 => case 2 => case 3 => case _ =>
  }

  lemma {:induction false} NextBits(b: byte, t: nat)
    requires b in {2, 226} && t < 3
    ensures BitAt(b, t) == CODE[5 + t]
  {
    match t
    case 0 => case 1 => case _ =>
  }

  lemma {:induction false} EndBits(t: nat)
    requires 3 <= t < 8
    ensures !BitAt(2, t)
  {
    match t
    case 3 => case 4 => case 5 => case 6 => case _ =>
  }

  lemma {:induction false} LowZero(b: byte, t: nat)
    requires b % 4 == 0 && t < 2
    ensures !BitAt(b, t)
  {
    match t
    case 0 => case _ =>
  }

  lemma {:induction false} LeadBlock(c: Codec, s: seq<byte>, lead: byte, n: nat)
    requires Reads(c) && Leads(s, lead, n)
    ensures c.block(Bits(s)) == Some(Block(Newlines(n), 10 + 8 * n, lead == 227))
  {
    hide Bits, Spells, Literals, Newlines, BitAt;
    LeadSpells(s, lead, n, 0);
    LeadHeader(s, lead, n);
    NewlinesRead(Bits(s), 3, n);
  }

  /** The empty final block behind n newlines. */
  lemma {:induction false} EmptyBlock(c: Codec, s: seq<byte>, n: nat)
    requires Reads(c) && |s| >= n + 3 && s[n + 1] == 12 && s[n + 2] == 0
    ensures c.block(Bits(s)[10 + 8 * n..]) == Some(Block([], 10, true))
  {
    var bits := Bits(s)[10 + 8 * n..];
    TwelveThenZero(s, n, bits);
    assert END <= bits[3..];
    NewlinesRead(bits, 3, 0);
  }

  lemma {:induction false} TwelveThenZero(s: seq<byte>, n: nat, bits: seq<bool>)
    requires |s| >= n + 3 && s[n + 1] == 12 && s[n + 2] == 0 && bits == Bits(s)[10 + 8 * n..]
    ensures forall t :: 0 <= t < 10 ==> bits[t] == (t < 2)
  {
    hide Bits, BitAt;
    forall t | 0 <= t < 10
      ensures bits[t] == (t < 2)
    {
      if t < 6 {
        BitOfByte(s, n + 1, 2 + t);
        TwelveBits(2 + t);
      } else {
        BitOfByte(s, n + 2, t - 6);
        LowZeros(t - 6);
      }
    }
  }

  lemma {:induction false} TwelveBits(t: nat)
    requires 2 <= t < 8
    ensures BitAt(12, t) == (t < 4)
  {
    match t
    case 2 => case 3 => case 4 => case 5 => case 6 => case _ =>
  }

  lemma {:induction false} LowZeros(t: nat)
    requires t < 8
    ensures !BitAt(0, t)
  {
    match t
    case 0 => case 1 => case 2 => case 3 => case 4 => case 5 => case 6 => case _ =>
  }

  lemma {:induction false} OneBlock(b: Block)
    ensures Tokens([b]) == b.tokens && Width([b]) == b.width
  {
    assert [b][1..] == [];
    assert b.tokens + [] == b.tokens;
  }

  lemma {:induction false} TwoBlocks(a: Block, b: Block)
    requires b.tokens == []
    ensures Tokens([a, b]) == a.tokens && Width([a, b]) == a.width + b.width
  {
    assert [a, b][1..] == [b];
    OneBlock(b);
    assert a.tokens + [] == a.tokens;
  }

  lemma {:induction false} ParseTwo(c: Codec, bits: seq<bool>, a: Block, b: Block)
    requires 0 < a.width && 0 < b.width && a.width + b.width <= |bits| && !a.final && b.final
    requires c.block(bits) == Some(a) && c.block(bits[a.width..]) == Some(b)
    ensures ParseBlocks(c, bits) == Some([a, b])
  {
    assert ParseBlocks(c, bits[a.width..]) == Some([b]);
    assert [a] + [b] == [a, b];
  }

  lemma {:induction false} FirstParses(c: Codec, s: seq<byte>, at: nat, n: nat)
    requires Reads(c) && at + n + 21 <= |s| && HasMagic(s[at..])
    requires Leads(s[at + 10..], 226, n) && s[at + 10..][n + 1] == 12 && s[at + 10..][n + 2] == 0
    ensures ParseMember(c, s, at) == Some(First(n)) && Size(First(n)) == n + 21
  {
    var rest := s[at + 10..];
    var bs := First(n).blocks;
    LeadBlock(c, rest, 226, n);
    EmptyBlock(c, rest, n);
    ParseTwo(c, Bits(rest), bs[0], bs[1]);
    TwoBlocks(bs[0], bs[1]);
    NewlinesFit(0, n);
  }

  lemma {:induction false} SecondParses(c: Codec, s: seq<byte>, at: nat, n: nat)
    requires Reads(c) && at + n + 20 <= |s| && HasMagic(s[at..])
    requires Leads(s[at + 10..], 227, n)
    ensures ParseMember(c, s, at) == Some(Second(n)) && Size(Second(n)) == n + 20
  {
    var rest := s[at + 10..];
    LeadBlock(c, rest, 227, n);
    assert ParseBlocks(c, Bits(rest)) == Some(Second(n).blocks);
    OneBlock(Second(n).blocks[0]);
    NewlinesFit(0, n);
  }

  lemma {:induction false} Behind(s: seq<byte>, a: seq<byte>, b: seq<byte>, n: nat)
    requires s == a + b && n >= |a|
    ensures n <= |s| ==> s[n..] == b[n - |a|..]
  {
  }

  /** Where the parts of the file lie. */
  lemma {:induction false} Parts(n: nat, trailer0: seq<byte>, trailer1: seq<byte>)
    requires n > 0 && |trailer0| == |trailer1| == 8
    ensures var s := TwoMembers(n, trailer0, trailer1);
            && |s| == 2 * n + 41
            && HasMagic(s[0..]) && Leads(s[10..], 226, n) && s[10..][n + 1] == 12 && s[10..][n + 2] == 0
            && HasMagic(s[n + 21..]) && Leads(s[n + 31..], 227, n)
  {
    var s := TwoMembers(n, trailer0, trailer1);
    hide Leads;
    var first, second := HEADER + NewlinesThenEmpty(n) + trailer0, NewlinesOnly(n) + trailer1;
    Behind(s, HEADER, NewlinesThenEmpty(n) + (trailer0 + HEADER + second), 10);
    Behind(s, first, HEADER + second, n + 21);
    Behind(s, first + HEADER, second, n + 31);
    FirstLeads(s[10..], n, trailer0 + HEADER + second);
    SecondLeads(s[n + 31..], n, trailer1);
  }

  lemma {:induction false} FirstLeads(s: seq<byte>, n: nat, more: seq<byte>)
    requires n > 0 && s == NewlinesThenEmpty(n) + more
    ensures Leads(s, 226, n) && s[n + 1] == 12 && s[n + 2] == 0
  {
  }

  lemma {:induction false} SecondLeads(s: seq<byte>, n: nat, more: seq<byte>)
    requires n > 0 && s == NewlinesOnly(n) + more
    ensures Leads(s, 227, n)
  {
  }

  lemma {:induction false} BothParse(c: Codec, s: seq<byte>, a: Member, b: Member)
    requires Size(a) + Size(b) == |s|
    requires ParseMember(c, s, 0) == Some(a) && ParseMember(c, s, Size(a)) == Some(b)
    ensures ParseFile(c, s) == [a, b] && Accepted(c, s)
  {
    hide ParseMember, ParseFile, ParseFrom, Accepted, Size;
    var ms := [a, b];
    assert Begin(ms, 1) == Size(a);
    assert Begin(ms, 2) == |s|;
    assert MemberAt(c, s, ms, 0) && MemberAt(c, s, ms, 1);
    ParseComplete(c, s, ms);
  }

  lemma {:induction false} TwoMembersParse(c: Codec, n: nat, trailer0: seq<byte>, trailer1: seq<byte>)
    requires Reads(c) && n > 0 && |trailer0| == |trailer1| == 8
    ensures var s := TwoMembers(n, trailer0, trailer1);
            ParseFile(c, s) == [First(n), Second(n)] && Accepted(c, s)
  {
    hide ParseMember, ParseFile, TwoMembers, Leads, HasMagic, Reads, First, Second, Size, Accepted;
    var s := TwoMembers(n, trailer0, trailer1);
    Parts(n, trailer0, trailer1);
    FirstParses(c, s, 0, n);
    SecondParses(c, s, n + 21, n);
    BothParse(c, s, First(n), Second(n));
  }

  lemma {:induction false} Offsets(n: nat)
    requires n > 0
    ensures MembersPlan([First(n), Second(n)]).outs == [[0, n, n], [n, 2 * n]]
    ensures |MembersPlan([First(n), Second(n)]).text| == 2 * n
  {
    var ms := [First(n), Second(n)];
    FirstOffsets(n);
    SecondOffsets(n);
    hide First, Second, MemberText, Produced;
    assert Base(ms, 1) == n;
    assert Base(ms, 2) == 2 * n;
    assert MemberOuts(ms, 0) == [0, n, n];
    assert MemberOuts(ms, 1) == [n, 2 * n];
  }

  lemma {:induction false} FirstOffsets(n: nat)
    requires n > 0
    ensures var m := First(n);
            && |m.blocks| == 2 && |MemberText(m)| == n
            && Produced(m, 0) == 0 && Produced(m, 1) == n && Produced(m, 2) == n
  {
    var m := First(n);
    NewlinesFit(0, n);
    TwoBlocks(m.blocks[0], m.blocks[1]);
    ProducedNone(m);
    ProducedNext(m, 0);
    ProducedNext(m, 1);
  }

  lemma {:induction false} SecondOffsets(n: nat)
    requires n > 0
    ensures var m := Second(n);
            && |m.blocks| == 1 && |MemberText(m)| == n && Produced(m, 0) == 0 && Produced(m, 1) == n
  {
    var m := Second(n);
    NewlinesFit(0, n);
    OneBlock(m.blocks[0]);
    ProducedNone(m);
    ProducedNext(m, 0);
  }

  lemma {:induction false} NewlinesExpand(hist: seq<byte>, n: nat)
    requires Fits(|hist|, Newlines(n))
    ensures Expand(hist, Newlines(n)) == hist + Repeat(NEWLINE, n)
    decreases n
  {
    if n == 0 {
      assert hist + Repeat(NEWLINE, 0) == hist;
    } else {
      NewlinesExpand(hist + [NEWLINE], n - 1);
      assert [NEWLINE] + Repeat(NEWLINE, n - 1) == Repeat(NEWLINE, n);
      assert hist + [NEWLINE] + Repeat(NEWLINE, n - 1) == hist + ([NEWLINE] + Repeat(NEWLINE, n - 1));
    }
  }

  lemma {:induction false} TextOf(n: nat)
    requires n > 0
    ensures MembersPlan([First(n), Second(n)]).text == Repeat(NEWLINE, 2 * n)
  {
    var ms := [First(n), Second(n)];
    NewlinesText(n);
    hide First, Second, MemberText;
    assert TextUpTo(ms, 1) == [] + MemberText(ms[0]);
    assert Text(ms) == TextUpTo(ms, 1) + MemberText(ms[1]);
    assert Repeat(NEWLINE, n) + Repeat(NEWLINE, n) == Repeat(NEWLINE, 2 * n);
  }

  lemma {:induction false} NewlinesText(n: nat)
    requires n > 0
    ensures MemberText(First(n)) == MemberText(Second(n)) == Repeat(NEWLINE, n)
  {
    NewlinesFit(0, n);
    NewlinesExpand([], n);
    TwoBlocks(First(n).blocks[0], First(n).blocks[1]);
    OneBlock(Second(n).blocks[0]);
    assert [] + Repeat(NEWLINE, n) == Repeat(NEWLINE, n);
  }
}
