/** A file of concatenated members (RFC 1952 section 2.2): its layout in bytes and bits, its text, and
    what raw decoding from a block boundary yields. */
module GzipFile {
  import opened Prelude
  import opened BitPacking
  import opened Deflate

  // ----- blocks

  function Width(bs: seq<Block>): nat {
    if bs == [] then 0 else bs[0].width + Width(bs[1..])
  }

  function Tokens(bs: seq<Block>): seq<Token> {
    if bs == [] then [] else bs[0].tokens + Tokens(bs[1..])
  }

  /** The blocks from the first bit up to and including the final one. */
  function ParseBlocks(c: Codec, bits: seq<bool>): (r: Option<seq<Block>>)
    ensures r.Some? ==> r.value != [] && Width(r.value) <= |bits|
    decreases |bits|
  {
    match c.block(bits)
    case None => None
    case Some(b) =>
      if !(0 < b.width <= |bits|) then None
      else if b.final then Some([b])
      else
        match ParseBlocks(c, bits[b.width..])
        case None => None
        case Some(rest) => Some([b] + rest)
  }

  datatype Raw = Raw(plain: seq<byte>, width: nat)

  /** Raw inflation (windowBits -15) of a bit sequence, primed with a dictionary. */
  function RawDecode(c: Codec, bits: seq<bool>, dictionary: seq<byte>): (r: Option<Raw>)
    ensures r.Some? ==> r.value.width <= |bits|
  {
    match ParseBlocks(c, bits)
    case None => None
    case Some(bs) =>
      if Fits(|dictionary|, Tokens(bs)) then Some(Raw(Output(dictionary, Tokens(bs)), Width(bs))) else None
  }

  lemma {:induction false} ParseSuffix(c: Codec, bits: seq<bool>, j: nat)
    requires ParseBlocks(c, bits).Some? && j < |ParseBlocks(c, bits).value|
    ensures var bs := ParseBlocks(c, bits).value;
            && Width(bs[..j]) + Width(bs[j..]) == Width(bs) <= |bits|
            && ParseBlocks(c, bits[Width(bs[..j])..]) == Some(bs[j..])
    decreases j
  {
    var bs := ParseBlocks(c, bits).value;
    SplitBlocks(bs, j);
    if j == 0 {
      assert bits[0..] == bits;
    } else {
      var b := bs[0];
      ParseSuffix(c, bits[b.width..], j - 1);
      assert bs[1..][..j - 1] == bs[..j][1..];
      assert bits[b.width..][Width(bs[1..][..j - 1])..] == bits[Width(bs[..j])..];
    }
  }

  lemma {:induction false} SplitBlocks(bs: seq<Block>, j: nat)
    requires j <= |bs|
    ensures Width(bs) == Width(bs[..j]) + Width(bs[j..])
    ensures Tokens(bs) == Tokens(bs[..j]) + Tokens(bs[j..])
    decreases j
  {
    if j > 0 {
      SplitBlocks(bs[1..], j - 1);
      assert bs[1..][..j - 1] == bs[..j][1..];
      assert bs[1..][j - 1..] == bs[j..];
    } else {
      assert bs[0..] == bs;
    }
  }

  // ----- members

  datatype Member = Member(header: nat, trailer: Positive, blocks: seq<Block>)

  /** Every distance is valid, as zlib checks. */
  ghost predicate Sound(m: Member) {
    m.blocks != [] && Fits(0, Tokens(m.blocks))
  }

  function Size(m: Member): (r: nat)
    ensures r > 0
  {
    m.header + BytesFor(Width(m.blocks)) + m.trailer
  }

  function MemberText(m: Member): seq<byte> {
    if Fits(0, Tokens(m.blocks)) then Output([], Tokens(m.blocks)) else []
  }

  /** The member that starts at byte `at`. */
  function ParseMember(c: Codec, s: seq<byte>, at: nat): (r: Option<Member>)
    requires at <= |s|
    ensures r.Some? ==>
              && Sound(r.value) && at + Size(r.value) <= |s| && c.header(s[at..]).Complete?
              && ParseBlocks(c, Bits(s[at + r.value.header..])) == Some(r.value.blocks)
  {
    match c.header(s[at..])
    case Partial => None
    case Bad => None
    case Complete(size, trailer) =>
      if at + size > |s| then None
      else
        match ParseBlocks(c, Bits(s[at + size..]))
        case None => None
        case Some(bs) =>
          if Fits(0, Tokens(bs)) && at + size + BytesFor(Width(bs)) + trailer <= |s|
          then Some(Member(size, trailer, bs))
          else None
  }

  // ----- positions

  /** The byte at which member i starts. */
  function Begin(ms: seq<Member>, i: nat): nat
    requires i <= |ms|
  {
    if i == 0 then 0 else Begin(ms, i - 1) + Size(ms[i - 1])
  }

  /** The text offset at which member i starts. */
  function Base(ms: seq<Member>, i: nat): nat
    requires i <= |ms|
  {
    if i == 0 then 0 else Base(ms, i - 1) + |MemberText(ms[i - 1])|
  }

  function TextUpTo(ms: seq<Member>, i: nat): (r: seq<byte>)
    requires i <= |ms|
    ensures |r| == Base(ms, i)
  {
    if i == 0 then [] else TextUpTo(ms, i - 1) + MemberText(ms[i - 1])
  }

  /** The text of the whole file. */
  function Text(ms: seq<Member>): seq<byte> {
    TextUpTo(ms, |ms|)
  }

  /** Boundary j of member i lies before its block j; boundary 0 follows the header, and the last one,
      j == |blocks|, follows the final block. Its bit position in the file: */
  function BitOf(ms: seq<Member>, i: nat, j: nat): nat
    requires i < |ms| && j <= |ms[i].blocks|
  {
    8 * (Begin(ms, i) + ms[i].header) + Width(ms[i].blocks[..j])
  }

  /** How much of a member's text its first j blocks produce. */
  function Produced(m: Member, j: nat): nat
    requires j <= |m.blocks|
  {
    OutLength(Tokens(m.blocks[..j]))
  }

  /** The text offset of boundary j of member i. */
  function OutOf(ms: seq<Member>, i: nat, j: nat): nat
    requires i < |ms| && j <= |ms[i].blocks|
  {
    Base(ms, i) + Produced(ms[i], j)
  }

  // ----- the file

  /** The file starts with these members, one after another. */
  ghost predicate StartsWith(c: Codec, s: seq<byte>, ms: seq<Member>) {
    && Begin(ms, |ms|) <= |s|
    && forall i :: 0 <= i < |ms| ==> MemberAt(c, s, ms, i)
  }

  ghost predicate MemberAt(c: Codec, s: seq<byte>, ms: seq<Member>, i: nat)
    requires i < |ms|
  {
    Begin(ms, i) <= |s| && ParseMember(c, s, Begin(ms, i)) == Some(ms[i])
  }

  /** Nothing follows, or no more than the beginning of a header. */
  predicate EndsAt(c: Codec, s: seq<byte>, at: nat) {
    at <= |s| && (at == |s| || c.header(s[at..]).Partial?)
  }

  /** The file is these members, one after another, perhaps with a part of a header after them. */
  ghost predicate Is(c: Codec, s: seq<byte>, ms: seq<Member>) {
    StartsWith(c, s, ms) && EndsAt(c, s, Begin(ms, |ms|))
  }

  /** The members of a file that starts with the given ones, as far as they can be decoded. */
  function ParseFrom(c: Codec, s: seq<byte>, ms: seq<Member>): (r: seq<Member>)
    requires StartsWith(c, s, ms)
    ensures StartsWith(c, s, r)
    decreases |s| - Begin(ms, |ms|)
  {
    var at := Begin(ms, |ms|);
    match ParseMember(c, s, at)
    case None => ms
    case Some(m) =>
      StartsWithMore(c, s, ms, m);
      ParseFrom(c, s, ms + [m])
  }

  function ParseFile(c: Codec, s: seq<byte>): (r: seq<Member>)
    ensures StartsWith(c, s, r)
  {
    ParseFrom(c, s, [])
  }

  /** zlib accepts the file: what follows its members is no more than the beginning of a header. */
  predicate Accepted(c: Codec, s: seq<byte>) {
    var ms := ParseFile(c, s);
    EndsAt(c, s, Begin(ms, |ms|))
  }

  lemma {:induction false} StartsWithMore(c: Codec, s: seq<byte>, ms: seq<Member>, m: Member)
    requires StartsWith(c, s, ms)
    requires ParseMember(c, s, Begin(ms, |ms|)) == Some(m)
    ensures StartsWith(c, s, ms + [m])
    ensures Begin(ms + [m], |ms| + 1) == Begin(ms, |ms|) + Size(m)
  {
    var ms' := ms + [m];
    BeginPrefix(ms, [m], |ms|);
    forall i | 0 <= i < |ms'|
      ensures MemberAt(c, s, ms', i)
    {
      MemberStays(c, s, ms, m, i);
    }
  }

  lemma {:induction false} MemberStays(c: Codec, s: seq<byte>, ms: seq<Member>, m: Member, i: nat)
    requires StartsWith(c, s, ms) && i <= |ms|
    requires ParseMember(c, s, Begin(ms, |ms|)) == Some(m)
    ensures MemberAt(c, s, ms + [m], i)
  {
    BeginPrefix(ms, [m], i);
    if i < |ms| {
      assert MemberAt(c, s, ms, i);
    }
  }

  lemma {:induction false} BeginPrefix(ms: seq<Member>, more: seq<Member>, i: nat)
    requires i <= |ms|
    ensures Begin(ms + more, i) == Begin(ms, i)
  {
    if i > 0 {
      BeginPrefix(ms, more, i - 1);
    }
  }

  /** A file that consists of these members is accepted, and they are what is found. */
  lemma {:induction false} ParseComplete(c: Codec, s: seq<byte>, ms: seq<Member>)
    requires Is(c, s, ms)
    ensures ParseFile(c, s) == ms && Accepted(c, s)
  {
    assert ms[..0] == [];
    ParseFromComplete(c, s, ms, 0);
  }

  lemma {:induction false} ParseFromComplete(c: Codec, s: seq<byte>, ms: seq<Member>, n: nat)
    requires Is(c, s, ms) && n <= |ms| && StartsWith(c, s, ms[..n])
    ensures ParseFrom(c, s, ms[..n]) == ms
    decreases |ms| - n
  {
    hide ParseMember, StartsWith, EndsAt;
    BeginOfPrefix(ms, n);
    if n == |ms| {
      assert ms[..n] == ms;
      NothingAt(c, s, Begin(ms, n));
    } else {
      MemberParses(c, s, ms, n);
      StartsWithMore(c, s, ms[..n], ms[n]);
      assert ms[..n] + [ms[n]] == ms[..n + 1];
      ParseFromComplete(c, s, ms, n + 1);
    }
  }

  lemma {:induction false} NothingAt(c: Codec, s: seq<byte>, at: nat)
    requires EndsAt(c, s, at)
    ensures ParseMember(c, s, at) == None
  {
  }

  lemma {:induction false} BeginOfPrefix(ms: seq<Member>, n: nat)
    requires n <= |ms|
    ensures Begin(ms[..n], n) == Begin(ms, n)
  {
    assert ms == ms[..n] + ms[n..];
    BeginPrefix(ms[..n], ms[n..], n);
  }

  lemma {:induction false} MemberParses(c: Codec, s: seq<byte>, ms: seq<Member>, n: nat)
    requires StartsWith(c, s, ms) && n < |ms|
    ensures Begin(ms, n) < |s| && ParseMember(c, s, Begin(ms, n)) == Some(ms[n])
  {
    assert MemberAt(c, s, ms, n);
  }

  // ----- facts about positions

  lemma {:induction false} BeginMonotone(ms: seq<Member>, i: nat, k: nat)
    requires i <= k <= |ms|
    ensures Begin(ms, i) + (k - i) <= Begin(ms, k)
    ensures Base(ms, i) <= Base(ms, k)
    ensures TextUpTo(ms, i) <= TextUpTo(ms, k)
    decreases k
  {
    hide Size, MemberText;
    if i < k {
      BeginMonotone(ms, i, k - 1);
    }
  }

  /** The text of member i is the slice of the whole text between its two ends. */
  lemma MemberSlice(ms: seq<Member>, i: nat)
    requires i < |ms|
    ensures Base(ms, i) <= Base(ms, i + 1) <= |Text(ms)|
    ensures Text(ms)[Base(ms, i)..Base(ms, i + 1)] == MemberText(ms[i])
  {
    BeginMonotone(ms, i + 1, |ms|);
    assert TextUpTo(ms, i + 1) == TextUpTo(ms, i) + MemberText(ms[i]);
    assert Text(ms)[..Base(ms, i + 1)] == TextUpTo(ms, i + 1);
  }

  lemma BoundaryOrder(m: Member, j: nat, k: nat)
    requires Sound(m) && j <= k <= |m.blocks|
    ensures Width(m.blocks[..j]) <= Width(m.blocks[..k]) <= Width(m.blocks)
    ensures Produced(m, j) <= Produced(m, k) <= |MemberText(m)|
    ensures k == |m.blocks| ==> Produced(m, k) == |MemberText(m)|
  {
    var bs := m.blocks[..k];
    assert bs[..j] == m.blocks[..j];
    SplitBlocks(bs, j);
    FitsConcat(0, Tokens(bs[..j]), Tokens(bs[j..]));
    SplitBlocks(m.blocks, k);
    FitsConcat(0, Tokens(bs), Tokens(m.blocks[k..]));
    if k == |m.blocks| {
      assert bs == m.blocks;
    }
  }

  /** One block's share of the text. */
  lemma ProducedNext(m: Member, j: nat)
    requires j < |m.blocks|
    ensures Produced(m, j + 1) == Produced(m, j) + OutLength(m.blocks[j].tokens)
  {
    var bs := m.blocks[..j + 1];
    SplitBlocks(bs, j);
    assert bs[..j] == m.blocks[..j] && bs[j..] == [m.blocks[j]];
    assert [m.blocks[j]][1..] == [];
    assert Tokens(bs[j..]) == m.blocks[j].tokens + [] == m.blocks[j].tokens;
    FitsConcat(0, Tokens(bs[..j]), Tokens(bs[j..]));
  }

  // ----- random access

  lemma OutputRest(before: seq<Token>, after: seq<Token>, window: seq<byte>)
    requires Fits(0, before + after) && Fits(0, before)
    requires Recalls(window, Output([], before))
    ensures Fits(|window|, after)
    ensures Output([], before + after) == Output([], before) + Output(window, after)
  {
    hide Recalls, Fits, OutLength, Expand, Output;
    ExpandConcat([], before, after);
    ExpandOutput([], before + after);
    ExpandOutput([], before);
    ExpandOutput(Expand([], before), after);
    WindowSuffices(window, Output([], before), after);
    assert [] + Output([], before) == Output([], before);
    assert [] + Output([], before + after) == Output([], before + after);
  }

  lemma ExpandOutput(hist: seq<byte>, ts: seq<Token>)
    requires Fits(|hist|, ts)
    ensures Expand(hist, ts) == hist + Output(hist, ts)
  {
    hide Fits, OutLength;
  }

  /** Decoding the remaining blocks with a window that recalls the history gives the rest of the member. */
  lemma DecodeRest(c: Codec, bits: seq<bool>, m: Member, j: nat, window: seq<byte>)
    requires Sound(m) && j < |m.blocks|
    requires ParseBlocks(c, bits) == Some(m.blocks)
    requires Produced(m, j) <= |MemberText(m)|
    requires Recalls(window, MemberText(m)[..Produced(m, j)])
    ensures Width(m.blocks[..j]) <= |bits|
    ensures RawDecode(c, bits[Width(m.blocks[..j])..], window)
         == Some(Raw(MemberText(m)[Produced(m, j)..], Width(m.blocks[j..])))
  {
    ParseSuffix(c, bits, j);
    SplitBlocks(m.blocks, j);
    var before, after := Tokens(m.blocks[..j]), Tokens(m.blocks[j..]);
    FitsConcat(0, before, after);
    PrefixOutput(before, after);
    OutputRest(before, after, window);
  }

  lemma PrefixOutput(before: seq<Token>, after: seq<Token>)
    requires Fits(0, before + after) && Fits(0, before)
    ensures OutLength(before) <= |Output([], before + after)|
    ensures Output([], before + after)[..OutLength(before)] == Output([], before)
  {
    ExpandConcat([], before, after);
  }

  /** The part of the file that holds member i's blocks. */
  lemma BlocksOf(c: Codec, s: seq<byte>, ms: seq<Member>, i: nat)
    requires StartsWith(c, s, ms) && i < |ms|
    ensures Sound(ms[i]) && Begin(ms, i + 1) <= |s|
    ensures Begin(ms, i) + ms[i].header <= |s|
    ensures ParseBlocks(c, Bits(s[Begin(ms, i) + ms[i].header..])) == Some(ms[i].blocks)
  {
    hide StartsWith, ParseMember, ParseBlocks, Bits, Size, Sound;
    MemberParses(c, s, ms, i);
    HeaderInside(ms[i]);
    assert Begin(ms, i + 1) == Begin(ms, i) + Size(ms[i]);
  }

  lemma HeaderInside(m: Member)
    ensures m.header <= Size(m)
  {
  }

  /** A boundary cuts the member's text, and so the file's, in two. */
  lemma BoundaryCut(ms: seq<Member>, i: nat, j: nat)
    requires i < |ms| && Sound(ms[i]) && j <= |ms[i].blocks|
    ensures Base(ms, i) <= OutOf(ms, i, j) <= Base(ms, i + 1) <= |Text(ms)|
    ensures Produced(ms[i], j) <= |MemberText(ms[i])|
    ensures MemberText(ms[i])[..Produced(ms[i], j)] == Text(ms)[Base(ms, i)..OutOf(ms, i, j)]
    ensures MemberText(ms[i])[Produced(ms[i], j)..] == Text(ms)[OutOf(ms, i, j)..Base(ms, i + 1)]
  {
    MemberSlice(ms, i);
    BoundaryOrder(ms[i], j, |ms[i].blocks|);
    SplitSlice(Text(ms), Base(ms, i), OutOf(ms, i, j), Base(ms, i + 1));
  }

  lemma SplitSlice(s: seq<byte>, a: nat, b: nat, c: nat)
    requires a <= b <= c <= |s|
    ensures s[a..c][..b - a] == s[a..b]
    ensures s[a..c][b - a..] == s[b..c]
  {
  }

  /** The file's bits from a boundary are the bits of its block area after the earlier blocks. */
  lemma BitsFrom(s: seq<byte>, ms: seq<Member>, i: nat, j: nat)
    requires i < |ms| && j <= |ms[i].blocks|
    requires Begin(ms, i) + ms[i].header <= |s|
    requires Width(ms[i].blocks[..j]) <= |Bits(s[Begin(ms, i) + ms[i].header..])|
    ensures BitOf(ms, i, j) <= 8 * |s|
    ensures Bits(s)[BitOf(ms, i, j)..] == Bits(s[Begin(ms, i) + ms[i].header..])[Width(ms[i].blocks[..j])..]
  {
    var from := Begin(ms, i) + ms[i].header;
    BitsOfDrop(s, from);
    assert Bits(s)[8 * from..][Width(ms[i].blocks[..j])..] == Bits(s)[BitOf(ms, i, j)..];
  }

  lemma {:induction false} LastBit(ms: seq<Member>, i: nat)
    requires i < |ms|
    ensures BytesFor(BitOf(ms, i, |ms[i].blocks|)) + ms[i].trailer == Begin(ms, i + 1)
  {
    var m := ms[i];
    assert m.blocks[..|m.blocks|] == m.blocks;
    assert BytesFor(8 * (Begin(ms, i) + m.header) + Width(m.blocks)) == Begin(ms, i) + m.header + BytesFor(Width(m.blocks));
  }

  lemma {:induction false} LastBlock(ms: seq<Member>, i: nat, j: nat)
    requires i < |ms| && j <= |ms[i].blocks|
    ensures BytesFor(BitOf(ms, i, j) + Width(ms[i].blocks[j..])) < Begin(ms, i + 1)
  {
    LastBit(ms, i);
    SplitBlocks(ms[i].blocks, j);
    assert ms[i].blocks[..|ms[i].blocks|] == ms[i].blocks;
  }

  /** Random access equals sequential decoding: at every checkpoint boundary of every member, raw
      decoding of the file's bits from there, primed with a window that recalls what came before in
      that member, yields the file's text from the boundary to the end of the member. */
  lemma RandomAccess(c: Codec, s: seq<byte>, ms: seq<Member>, i: nat, j: nat, window: seq<byte>) returns (width: nat)
    requires StartsWith(c, s, ms)
    requires i < |ms| && j < |ms[i].blocks|
    requires Base(ms, i) <= OutOf(ms, i, j) <= |Text(ms)|
    requires Recalls(window, Text(ms)[Base(ms, i)..OutOf(ms, i, j)])
    ensures BitOf(ms, i, j) <= 8 * |s|
    ensures OutOf(ms, i, j) <= Base(ms, i + 1) <= |Text(ms)|
    ensures RawDecode(c, Bits(s)[BitOf(ms, i, j)..], window)
         == Some(Raw(Text(ms)[OutOf(ms, i, j)..Base(ms, i + 1)], width))
    ensures BytesFor(BitOf(ms, i, j) + width) < Begin(ms, i + 1) <= |s|
  {
    hide StartsWith, Sound, RawDecode, Recalls, Text, MemberText, Bits, ParseBlocks, Tokens, Width, Begin, Base;
    BlocksOf(c, s, ms, i);
    BoundaryCut(ms, i, j);
    DecodeRest(c, Bits(s[Begin(ms, i) + ms[i].header..]), ms[i], j, window);
    BitsFrom(s, ms, i, j);
    width := Width(ms[i].blocks[j..]);
    LastBlock(ms, i, j);
  }
}
