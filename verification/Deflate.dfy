/** DEFLATE output at token level: RFC 1951 sections 2, 3.2.3 and 3.2.5. */
module Deflate {
  import opened Prelude

  const WINDOW_SIZE: nat := 32768

  datatype Token = Literal(b: byte) | Match(len: nat, dist: nat)

  datatype Block = Block(tokens: seq<Token>, width: nat, final: bool)

  /** A trailer holds at least one byte (8 in gzip, 4 in zlib). */
  type Positive = n: nat | n > 0 witness 1

  /** What zlib finds where a member should start: a header and the size of the trailer to come, the
      beginning of a header that the input ends in, or something else. */
  datatype Header = Complete(size: nat, trailer: Positive) | Partial | Bad

  /** How zlib reads compressed data, left arbitrary: `header` reads the bytes from the start of a
      member, `block` the block that starts at the first of the given bits. */
  datatype Codec = Codec(header: seq<byte> -> Header, block: seq<bool> -> Option<Block>)

  function TokenLength(t: Token): nat {
    match t
    case Literal(_) => 1
    case Match(len, _) => len
  }

  function OutLength(ts: seq<Token>): nat {
    if ts == [] then 0 else TokenLength(ts[0]) + OutLength(ts[1..])
  }

  predicate TokenFits(n: nat, t: Token) {
    t.Match? ==> 3 <= t.len <= 258 && 1 <= t.dist <= WINDOW_SIZE && t.dist <= n
  }

  /** Every distance reaches back into the n bytes that came before, or into the output itself. */
  predicate Fits(n: nat, ts: seq<Token>)
    decreases |ts|
  {
    ts == [] || (TokenFits(n, ts[0]) && Fits(n + TokenLength(ts[0]), ts[1..]))
  }

  function CopyBack(hist: seq<byte>, len: nat, dist: nat): (r: seq<byte>)
    requires 1 <= dist <= |hist|
    ensures |r| == |hist| + len && hist <= r
    decreases len
  {
    if len == 0 then hist else CopyBack(hist + [hist[|hist| - dist]], len - 1, dist)
  }

  /** RFC 1951 section 3.2.3: every byte of a match is the one `dist` bytes before it, which may itself be part of the match. */
  lemma {:induction false} MatchCopies(hist: seq<byte>, len: nat, dist: nat, i: nat)
    requires 1 <= dist <= |hist| && |hist| <= i < |hist| + len
    ensures CopyBack(hist, len, dist)[i] == CopyBack(hist, len, dist)[i - dist]
    decreases len
  {
    var next := hist + [hist[|hist| - dist]];
    assert next <= CopyBack(next, len - 1, dist);
    if i > |hist| {
      MatchCopies(next, len - 1, dist, i);
    } else {
      assert CopyBack(hist, len, dist)[i] == next[i];
    }
  }

  function Emit(hist: seq<byte>, t: Token): (r: seq<byte>)
    requires TokenFits(|hist|, t)
    ensures |r| == |hist| + TokenLength(t) && hist <= r
  {
    match t
    case Literal(b) => hist + [b]
    case Match(len, dist) => CopyBack(hist, len, dist)
  }

  /** The history followed by everything the tokens produce. */
  function Expand(hist: seq<byte>, ts: seq<Token>): (r: seq<byte>)
    requires Fits(|hist|, ts)
    ensures |r| == |hist| + OutLength(ts) && hist <= r
    decreases |ts|
  {
    if ts == [] then hist else Expand(Emit(hist, ts[0]), ts[1..])
  }

  /** What the tokens produce. */
  function Output(hist: seq<byte>, ts: seq<Token>): (r: seq<byte>)
    requires Fits(|hist|, ts)
    ensures |r| == OutLength(ts)
  {
    Expand(hist, ts)[|hist|..]
  }

  // ----- concatenation

  lemma {:induction false} FitsConcat(n: nat, a: seq<Token>, b: seq<Token>)
    ensures OutLength(a + b) == OutLength(a) + OutLength(b)
    ensures Fits(n, a + b) <==> Fits(n, a) && Fits(n + OutLength(a), b)
    decreases |a|
  {
    if a == [] {
      assert a + b == b;
    } else {
      assert (a + b)[1..] == a[1..] + b;
      FitsConcat(n + TokenLength(a[0]), a[1..], b);
    }
  }

  lemma {:induction false} ExpandConcat(hist: seq<byte>, a: seq<Token>, b: seq<Token>)
    requires Fits(|hist|, a + b)
    ensures Fits(|hist|, a) && Fits(|hist| + OutLength(a), b)
    ensures Expand(hist, a + b) == Expand(Expand(hist, a), b)
    decreases |a|
  {
    hide TokenFits, Emit, OutLength;
    FitsConcat(|hist|, a, b);
    if a == [] {
      assert a + b == b;
    } else {
      assert (a + b)[1..] == a[1..] + b;
      ExpandConcat(Emit(hist, a[0]), a[1..], b);
    }
  }

  // ----- the window

  /** The k-th byte back from the end, as a distance counts. */
  function Back(s: seq<byte>, k: nat): byte
    requires 1 <= k <= |s|
  {
    s[|s| - k]
  }

  /** w holds, at its end, the last bytes of hist that a distance can reach. */
  ghost predicate Recalls(w: seq<byte>, hist: seq<byte>) {
    && |w| >= WINDOW_SIZE
    && forall k :: 1 <= k <= |hist| && k <= WINDOW_SIZE ==> Back(w, k) == Back(hist, k)
  }

  lemma RecallsExtend(w: seq<byte>, hist: seq<byte>, more: seq<byte>)
    requires Recalls(w, hist)
    ensures Recalls(w + more, hist + more)
  {
    var w', h' := w + more, hist + more;
    forall k | 1 <= k <= |h'| && k <= WINDOW_SIZE
      ensures Back(w', k) == Back(h', k)
    {
      if k > |more| {
        assert Back(w', k) == Back(w, k - |more|);
        assert Back(h', k) == Back(hist, k - |more|);
      }
    }
  }

  lemma RecallsAt(w: seq<byte>, hist: seq<byte>, k: nat)
    requires Recalls(w, hist) && 1 <= k <= |hist| && k <= WINDOW_SIZE
    ensures |w| >= k && w[|w| - k] == hist[|hist| - k]
  {
    assert Back(w, k) == Back(hist, k);
  }

  lemma {:induction false} CopyRecalls(w: seq<byte>, hist: seq<byte>, len: nat, dist: nat)
    requires Recalls(w, hist) && 1 <= dist <= |hist| && dist <= WINDOW_SIZE
    ensures CopyBack(w, len, dist) == w + CopyBack(hist, len, dist)[|hist|..]
    decreases len
  {
    hide Recalls;
    if len == 0 {
      assert w + hist[|hist|..] == w;
    } else {
      var b := hist[|hist| - dist];
      RecallsAt(w, hist, dist);
      RecallsExtend(w, hist, [b]);
      CopyRecalls(w + [b], hist + [b], len - 1, dist);
      CutOne(w, hist, b, CopyBack(hist + [b], len - 1, dist));
    }
  }

  lemma CutOne(w: seq<byte>, hist: seq<byte>, b: byte, full: seq<byte>)
    requires hist + [b] <= full
    ensures w + [b] + full[|hist + [b]|..] == w + full[|hist|..]
  {
    assert full[|hist|] == (hist + [b])[|hist|];
    assert full[|hist|..] == [b] + full[|hist| + 1..];
  }

  lemma EmitRecalls(w: seq<byte>, hist: seq<byte>, t: Token)
    requires Recalls(w, hist) && TokenFits(|hist|, t)
    ensures TokenFits(|w|, t)
    ensures Emit(w, t) == w + Emit(hist, t)[|hist|..]
    ensures Recalls(Emit(w, t), Emit(hist, t))
  {
    if t.Match? {
      CopyRecalls(w, hist, t.len, t.dist);
    }
    var more := Emit(hist, t)[|hist|..];
    assert Emit(hist, t) == hist + more;
    RecallsExtend(w, hist, more);
  }

  /** Window sufficiency: with any window that recalls the history, the same tokens are valid and
      produce the same bytes; what lies further back, or before the first byte, never matters. */
  lemma {:induction false} WindowSuffices(w: seq<byte>, hist: seq<byte>, ts: seq<Token>)
    requires Recalls(w, hist) && Fits(|hist|, ts)
    ensures Fits(|w|, ts)
    ensures Output(w, ts) == Output(hist, ts)
    decreases |ts|
  {
    if ts != [] {
      var w', hist' := EmitBoth(w, hist, ts[0]);
      WindowSuffices(w', hist', ts[1..]);
      OutputCons(w, ts);
      OutputCons(hist, ts);
    }
  }

  lemma EmitBoth(w: seq<byte>, hist: seq<byte>, t: Token) returns (w': seq<byte>, hist': seq<byte>)
    requires Recalls(w, hist) && TokenFits(|hist|, t)
    ensures TokenFits(|w|, t) && w' == Emit(w, t) && hist' == Emit(hist, t)
    ensures Recalls(w', hist') && w'[|w|..] == hist'[|hist|..]
  {
    EmitRecalls(w, hist, t);
    w', hist' := Emit(w, t), Emit(hist, t);
  }

  lemma OutputCons(hist: seq<byte>, ts: seq<Token>)
    requires ts != [] && Fits(|hist|, ts)
    ensures Output(hist, ts) == Emit(hist, ts[0])[|hist|..] + Output(Emit(hist, ts[0]), ts[1..])
  {
    hide Emit, TokenFits, OutLength;
    var e := Emit(hist, ts[0]);
    assert Expand(hist, ts) == Expand(e, ts[1..]);
    DropPrefix(Expand(e, ts[1..]), e, |hist|);
  }

  lemma DropPrefix(s: seq<byte>, prefix: seq<byte>, k: nat)
    requires prefix <= s && k <= |prefix|
    ensures s[k..] == prefix[k..] + s[|prefix|..]
  {
    assert s == prefix + s[|prefix|..];
  }
}
