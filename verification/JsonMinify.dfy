/** cJSON_Minify (ext/cJSON/cJSON.c:1217-1243), which rewrites its argument in place. */
module JsonMinify {
  import opened Prelude
  import opened JsonText
  import opened JsonStrings
  import opened JsonTokens
  import opened JsonRoundTrip
  import JsonBuffer

  const SLASH: byte := 47
  const STAR: byte := 42

  /** The end of a line comment: a newline or the end of the text. */
  function LineEnd(s: seq<byte>, p: nat): (r: nat)
    requires p <= |s|
    ensures p <= r <= |s|
    decreases |s| - p
  {
    if Peek(s, p) == 0 || Peek(s, p) == NEWLINE then p else LineEnd(s, p + 1)
  }

  /** Where the star and slash are that end a comment, or the end of the text. */
  function CommentEnd(s: seq<byte>, p: nat): (r: nat)
    requires p <= |s|
    ensures p <= r <= |s|
    ensures Peek(s, r) == 0 || (Peek(s, r) == STAR && Peek(s, r + 1) == SLASH)
    decreases |s| - p
  {
    if Peek(s, p) == 0 || (Peek(s, p) == STAR && Peek(s, p + 1) == SLASH) then p else CommentEnd(s, p + 1)
  }

  /** What is kept of a text from p on. None for a string or a comment that is not closed. */
  function Minified(s: seq<byte>, p: nat): (r: Option<seq<byte>>)
    requires p <= |s|
    ensures r.Some? ==> |r.value| <= |s| - p
    decreases |s| - p
  {
    var c := Peek(s, p);
    if c == 0 then Some([])
    else if IsBlank(c) then Minified(s, p + 1)
    else if c == SLASH && Peek(s, p + 1) == SLASH then
      LineCommentMoves(s, p);
      Minified(s, LineEnd(s, p))
    else if c == SLASH && Peek(s, p + 1) == STAR then
      var end := CommentEnd(s, p);
      if Peek(s, end) == 0 then None else Minified(s, end + 2)
    else if c == QUOTE then
      var end := StringEnd(s, p + 1);
      if end > |s| || Peek(s, end) != QUOTE then None else Prepend(s[p..end + 1], Minified(s, end + 1))
    else Prepend([c], Minified(s, p + 1))
  }

  lemma {:induction false} LineCommentMoves(s: seq<byte>, p: nat)
    requires p <= |s| && Peek(s, p) == SLASH
    ensures LineEnd(s, p) > p
  {
  }

  // ----- lexemes

  /** The pieces of a text, as minifying sees them. */
  datatype Lexeme =
    | Blank(c: byte)
    | LineComment(body: seq<byte>)
    | BlockComment(inner: seq<byte>)   // from its first star to its last
    | Literal(body: seq<byte>)         // between the quotes
    | Other(c: byte)

  function Source(x: Lexeme): (r: seq<byte>)
    ensures r != []
  {
    match x
    case Blank(c) => [c]
    case LineComment(body) => [47, 47] + body
    case BlockComment(inner) => [47] + inner + [47]
    case Literal(body) => [34] + body + [34]
    case Other(c) => [c]
  }

  /** What is left of it. */
  function Kept(x: Lexeme): seq<byte> {
    match x
    case Literal(body) => Source(x)
    case Other(c) => [c]
    case _ => []
  }

  /** Characters without quotes, or with a backslash before them. */
  predicate LiteralBody(b: seq<byte>) {
    || b == []
    || (b[0] != 34 && b[0] != 92 && LiteralBody(b[1..]))
    || (|b| >= 2 && b[0] == 92 && LiteralBody(b[2..]))
  }

  /** A comment ends at its first star and slash; both may be those of its beginning, so that the star that opens it
      counts. */
  ghost predicate Proper(x: Lexeme) {
    match x
    case Blank(c) => c == 32 || c == 9 || c == 13 || c == 10
    case LineComment(body) => 10 !in body
    case BlockComment(inner) =>
      && inner != [] && inner[0] == 42 && inner[|inner| - 1] == 42
      && forall i :: 0 < i < |inner| ==> !(inner[i - 1] == 42 && inner[i] == 47)
    case Literal(body) => LiteralBody(body)
    case Other(c) => c != 32 && c != 9 && c != 13 && c != 10 && c != 34
  }

  /** A line comment goes on to the end of the line, and a slash that starts no comment is followed by neither a
      slash nor a star. */
  predicate Follows(x: Lexeme, rest: seq<Lexeme>) {
    rest != [] ==>
      && (x.LineComment? ==> rest[0] == Blank(10))
      && (x == Other(47) ==> Source(rest[0])[0] != 47 && Source(rest[0])[0] != 42)
  }

  ghost predicate Lexemes(xs: seq<Lexeme>) {
    xs == [] || (Proper(xs[0]) && Follows(xs[0], xs[1..]) && Lexemes(xs[1..]))
  }

  function SourceOf(xs: seq<Lexeme>): seq<byte> {
    if xs == [] then [] else Source(xs[0]) + SourceOf(xs[1..])
  }

  function KeptOf(xs: seq<Lexeme>): seq<byte> {
    if xs == [] then [] else Kept(xs[0]) + KeptOf(xs[1..])
  }

  lemma {:induction false} PrependPrepend(a: seq<byte>, b: seq<byte>, rest: Option<seq<byte>>)
    ensures Prepend(a, Prepend(b, rest)) == Prepend(a + b, rest)
  {
    if rest.Some? {
      assert a + (b + rest.value) == a + b + rest.value;
    }
  }

  lemma {:induction false} LineEnds(s: seq<byte>, p: nat, q: nat)
    requires 0 !in s && p <= q <= |s| && (q == |s| || s[q] == 10) && forall k :: p <= k < q ==> s[k] != 10
    ensures LineEnd(s, p) == q
    decreases q - p
  {
    if p < q {
      LineEnds(s, p + 1, q);
    }
  }

  lemma {:induction false} CommentEnds(s: seq<byte>, p: nat, q: nat)
    requires 0 !in s && p <= q && q + 1 < |s| && s[q] == 42 && s[q + 1] == 47
    requires forall k :: p < k <= q ==> !(s[k - 1] == 42 && s[k] == 47)
    ensures CommentEnd(s, p) == q
    decreases q - p
  {
    if p < q {
      assert !(s[p + 1 - 1] == 42 && s[p + 1] == 47);
      CommentEnds(s, p + 1, q);
    }
  }

  lemma {:induction false} LiteralEnds(s: seq<byte>, p: nat, body: seq<byte>)
    requires 0 !in s && LiteralBody(body) && p + |body| < |s| && s[p..p + |body|] == body && s[p + |body|] == 34
    ensures StringEnd(s, p) == p + |body|
    decreases |body|
  {
    if body != [] {
      assert s[p] == body[0];
      if body[0] == 92 {
        assert s[p + 2..p + |body|] == body[2..];
        LiteralEnds(s, p + 2, body[2..]);
      } else {
        assert s[p + 1..p + |body|] == body[1..];
        LiteralEnds(s, p + 1, body[1..]);
      }
    }
  }

  // ----- what is kept of them

  /** What stands at p is this lexeme, and then the others. */
  ghost predicate Stands(s: seq<byte>, p: nat, x: Lexeme, rest: seq<Lexeme>) {
    0 !in s && p <= |s| && s[p..] == Source(x) + SourceOf(rest) && Proper(x) && Follows(x, rest)
  }

  lemma {:induction false} StandsAt(s: seq<byte>, p: nat, x: Lexeme, rest: seq<Lexeme>)
    requires Stands(s, p, x, rest)
    ensures var e := Source(x);
            && p + |e| <= |s| && s[p..p + |e|] == e && s[p + |e|..] == SourceOf(rest)
            && (if rest == [] then p + |e| == |s| else p + |e| < |s| && s[p + |e|] == Source(rest[0])[0])
            && forall k :: 0 <= k < |e| ==> s[p + k] == e[k]
  {
    hide Source, Proper, Follows;
    var e := Source(x);
    assert s[p..][..|e|] == e && s[p..][|e|..] == SourceOf(rest);
    forall k | 0 <= k < |e|
      ensures s[p + k] == e[k]
    {
      assert s[p..][k] == e[k];
    }
    if rest != [] {
      assert s[p..][|e|] == SourceOf(rest)[0];
    }
  }

  lemma {:induction false} LineCommentKept(s: seq<byte>, p: nat, body: seq<byte>, rest: seq<Lexeme>)
    requires Stands(s, p, LineComment(body), rest)
    ensures Minified(s, p) == Minified(s, p + 2 + |body|)
  {
    hide Minified;
    StandsAt(s, p, LineComment(body), rest);
    var e := Source(LineComment(body));
    forall k | p <= k < p + |e|
      ensures s[k] != 10
    {
      assert s[p + (k - p)] == e[k - p];
    }
    LineEnds(s, p, p + |e|);
    LineCommentStep(s, p);
  }

  lemma {:induction false} LineCommentStep(s: seq<byte>, p: nat)
    requires p + 1 < |s| && s[p] == s[p + 1] == 47
    ensures Minified(s, p) == Minified(s, LineEnd(s, p))
  {
  }

  lemma {:induction false} BlockCommentKept(s: seq<byte>, p: nat, inner: seq<byte>, rest: seq<Lexeme>)
    requires Stands(s, p, BlockComment(inner), rest)
    ensures p + 2 + |inner| <= |s| && Minified(s, p) == Minified(s, p + 2 + |inner|)
  {
    hide Minified;
    StandsAt(s, p, BlockComment(inner), rest);
    var e := Source(BlockComment(inner));
    var q := p + |inner|;
    assert e[0] == 47 && e[|inner| + 1] == 47 && forall i :: 0 <= i < |inner| ==> e[i + 1] == inner[i];
    assert s[q] == inner[|inner| - 1] && s[q + 1] == 47 && s[p + 1] == inner[0];
    forall k | p < k <= q
      ensures !(s[k - 1] == 42 && s[k] == 47)
    {
      if k > p + 1 {
        assert s[p + (k - p)] == e[k - p] == inner[k - p - 1];
        assert s[p + (k - p - 1)] == e[k - p - 1] == inner[k - p - 2];
        assert !(inner[k - p - 1 - 1] == 42 && inner[k - p - 1] == 47);
      } else {
        assert s[p + 0] == e[0];
      }
    }
    CommentEnds(s, p, q);
    BlockCommentStep(s, p);
  }

  lemma {:induction false} BlockCommentStep(s: seq<byte>, p: nat)
    requires p + 1 < |s| && s[p] == 47 && s[p + 1] == 42 && CommentEnd(s, p) + 1 < |s| && s[CommentEnd(s, p)] == 42
    ensures Minified(s, p) == Minified(s, CommentEnd(s, p) + 2)
  {
  }

  lemma {:induction false} LiteralKept(s: seq<byte>, p: nat, body: seq<byte>, rest: seq<Lexeme>)
    requires Stands(s, p, Literal(body), rest)
    ensures p + 2 + |body| <= |s| && Minified(s, p) == Prepend([34] + body + [34], Minified(s, p + 2 + |body|))
  {
    hide Minified;
    StandsAt(s, p, Literal(body), rest);
    Inside(s, p, body);
    LiteralEnds(s, p + 1, body);
    LiteralStep(s, p);
  }

  lemma {:induction false} Inside(s: seq<byte>, p: nat, body: seq<byte>)
    requires p + |body| + 2 <= |s| && s[p..p + |body| + 2] == [34] + body + [34]
    ensures s[p] == 34 && s[p + 1..p + 1 + |body|] == body && s[p + 1 + |body|] == 34
  {
    var e := s[p..p + |body| + 2];
    assert s[p] == e[0] && s[p + 1 + |body|] == e[|body| + 1];
    forall k | 0 <= k < |body|
      ensures s[p + 1 + k] == body[k]
    {
      assert s[p + 1 + k] == e[k + 1];
    }
  }

  lemma {:induction false} LiteralStep(s: seq<byte>, p: nat)
    requires p < |s| && s[p] == 34 && StringEnd(s, p + 1) < |s| && s[StringEnd(s, p + 1)] == 34
    ensures var end := StringEnd(s, p + 1) + 1; Minified(s, p) == Prepend(s[p..end], Minified(s, end))
  {
  }

  /** One lexeme. */
  lemma {:induction false} LexemeKept(s: seq<byte>, p: nat, x: Lexeme, rest: seq<Lexeme>)
    requires Stands(s, p, x, rest)
    ensures p + |Source(x)| <= |s| && Minified(s, p) == Prepend(Kept(x), Minified(s, p + |Source(x)|))
  {
    hide StringEnd, Minified;
    StandsAt(s, p, x, rest);
    var e := Source(x);
    assert s[p + 0] == e[0];
    PrependNothing([], Minified(s, p + |e|));
    match x
    case Blank(c) => ByteStep(s, p);
    case LineComment(body) => LineCommentKept(s, p, body, rest);
    case BlockComment(inner) => BlockCommentKept(s, p, inner, rest);
    case Literal(body) => LiteralKept(s, p, body, rest);
    case Other(c) => ByteStep(s, p);
  }

  lemma {:induction false} ByteStep(s: seq<byte>, p: nat)
    requires 0 !in s && p < |s| && s[p] != 34
    requires s[p] == 47 ==> p + 1 == |s| || (s[p + 1] != 47 && s[p + 1] != 42)
    ensures Minified(s, p) == if s[p] == 32 || s[p] == 9 || s[p] == 13 || s[p] == 10 then Minified(s, p + 1) else Prepend([s[p]], Minified(s, p + 1))
  {
  }

  /** Literals and other characters are kept, and blanks and comments are not. */
  lemma {:induction false} LexemesKept(s: seq<byte>, p: nat, xs: seq<Lexeme>)
    requires 0 !in s && p <= |s| && s[p..] == SourceOf(xs) && Lexemes(xs)
    ensures Minified(s, p) == Some(KeptOf(xs))
    decreases |xs|
  {
    hide Minified, Proper, Follows, Source, Kept;
    if xs == [] {
      NothingLeft(s);
    } else {
      LexemeKept(s, p, xs[0], xs[1..]);
      StandsAt(s, p, xs[0], xs[1..]);
      LexemesKept(s, p + |Source(xs[0])|, xs[1..]);
    }
  }

  lemma {:induction false} NothingLeft(s: seq<byte>)
    ensures Minified(s, |s|) == Some([])
  {
  }

  // ----- every closed text is made of them

  lemma {:induction false} BodyAt(s: seq<byte>, p: nat, end: nat)
    requires p <= end <= |s| && StringEnd(s, p) == end
    ensures LiteralBody(s[p..end])
    decreases end - p
  {
    if p < end {
      if s[p] == BACKSLASH {
        BodyAt(s, p + 2, end);
        assert s[p..end][2..] == s[p + 2..end];
      } else {
        BodyAt(s, p + 1, end);
        assert s[p..end][1..] == s[p + 1..end];
      }
    }
  }

  lemma {:induction false} LineAt(s: seq<byte>, p: nat)
    requires 0 !in s && p <= |s|
    ensures 10 !in s[p..LineEnd(s, p)] && (LineEnd(s, p) == |s| || s[LineEnd(s, p)] == 10)
    decreases |s| - p
  {
    if p < |s| && s[p] != NEWLINE {
      LineAt(s, p + 1);
      assert s[p..LineEnd(s, p)] == [s[p]] + s[p + 1..LineEnd(s, p)];
    }
  }

  lemma {:induction false} CommentAt(s: seq<byte>, p: nat)
    requires 0 !in s && p <= |s|
    ensures forall k :: p < k <= CommentEnd(s, p) && k < |s| ==> !(s[k - 1] == 42 && s[k] == 47)
    decreases |s| - p
  {
    if p < |s| && !(s[p] == STAR && Peek(s, p + 1) == SLASH) {
      CommentAt(s, p + 1);
    }
  }

  /** This lexeme stands at p, and the next one at its end. */
  ghost predicate Found(s: seq<byte>, p: nat, x: Lexeme)
    requires p <= |s|
  {
    var next := p + |Source(x)|;
    && Proper(x) && next <= |s| && s[p..next] == Source(x)
    && Minified(s, p) == Prepend(Kept(x), Minified(s, next))
    && (x.LineComment? && next < |s| ==> s[next] == 10)
    && (x == Other(47) && next < |s| ==> s[next] != 47 && s[next] != 42)
  }

  lemma {:induction false} LexemeAt(s: seq<byte>, p: nat) returns (x: Lexeme)
    requires 0 !in s && p < |s| && Minified(s, p).Some?
    ensures Found(s, p, x)
  {
    hide Found, StringEnd, Minified, CommentEnd, LineEnd;
    ClosedAt(s, p);
    var c := s[p];
    if c == SLASH && Peek(s, p + 1) == SLASH {
      x := LineCommentAt(s, p);
    } else if c == SLASH && Peek(s, p + 1) == STAR {
      x := BlockCommentAt(s, p);
    } else if c == QUOTE {
      x := LiteralAt(s, p);
    } else {
      x := ByteAt(s, p);
    }
  }

  lemma {:induction false} ClosedAt(s: seq<byte>, p: nat)
    requires 0 !in s && p < |s| && Minified(s, p).Some?
    ensures s[p] == 47 && Peek(s, p + 1) == 42 ==> Peek(s, CommentEnd(s, p)) != 0
    ensures s[p] == 34 ==> StringEnd(s, p + 1) <= |s| && Peek(s, StringEnd(s, p + 1)) == 34
  {
    hide StringEnd, CommentEnd;
  }

  lemma {:induction false} ByteAt(s: seq<byte>, p: nat) returns (x: Lexeme)
    requires 0 !in s && p < |s| && s[p] != 34
    requires s[p] == 47 ==> p + 1 == |s| || (s[p + 1] != 47 && s[p + 1] != 42)
    ensures Found(s, p, x)
  {
    hide Minified;
    x := if IsBlank(s[p]) then Blank(s[p]) else Other(s[p]);
    ByteStep(s, p);
    PrependNothing([], Minified(s, p + 1));
  }

  lemma {:induction false} LineCommentAt(s: seq<byte>, p: nat) returns (x: Lexeme)
    requires 0 !in s && p + 1 < |s| && s[p] == s[p + 1] == 47
    ensures Found(s, p, x)
  {
    hide Minified;
    var q := LineEnd(s, p);
    LineAt(s, p);
    assert q >= p + 2;
    x := LineComment(s[p + 2..q]);
    assert s[p..q] == [47, 47] + s[p + 2..q];
    LineCommentStep(s, p);
    PrependNothing([], Minified(s, q));
  }

  lemma {:induction false} BlockCommentAt(s: seq<byte>, p: nat) returns (x: Lexeme)
    requires 0 !in s && p + 1 < |s| && s[p] == 47 && s[p + 1] == 42 && Peek(s, CommentEnd(s, p)) != 0
    ensures Found(s, p, x)
  {
    hide Minified;
    var q := CommentEnd(s, p);
    var inner := InnerAt(s, p);
    x := BlockComment(inner);
    assert s[p..q + 2] == [47] + inner + [47];
    BlockCommentStep(s, p);
    PrependNothing([], Minified(s, q + 2));
  }

  lemma {:induction false} InnerAt(s: seq<byte>, p: nat) returns (inner: seq<byte>)
    requires 0 !in s && p + 1 < |s| && s[p] == 47 && s[p + 1] == 42 && Peek(s, CommentEnd(s, p)) != 0
    ensures var q := CommentEnd(s, p); p < q && q + 1 < |s| && s[q] == 42 && s[q + 1] == 47 && inner == s[p + 1..q + 1]
    ensures Proper(BlockComment(inner))
  {
    var q := CommentEnd(s, p);
    CommentAt(s, p);
    inner := s[p + 1..q + 1];
    forall i | 0 < i < |inner|
      ensures !(inner[i - 1] == 42 && inner[i] == 47)
    {
      assert inner[i] == s[p + 1 + i] && inner[i - 1] == s[p + 1 + i - 1];
    }
  }

  lemma {:induction false} LiteralAt(s: seq<byte>, p: nat) returns (x: Lexeme)
    requires 0 !in s && p < |s| && s[p] == 34 && StringEnd(s, p + 1) <= |s| && Peek(s, StringEnd(s, p + 1)) == 34
    ensures Found(s, p, x)
  {
    hide Minified, StringEnd;
    var end := StringEnd(s, p + 1);
    BodyAt(s, p + 1, end);
    x := Literal(s[p + 1..end]);
    assert s[p..end + 1] == [34] + s[p + 1..end] + [34];
    LiteralStep(s, p);
  }

  lemma {:induction false} LexemesAt(s: seq<byte>, p: nat) returns (xs: seq<Lexeme>)
    requires 0 !in s && p <= |s| && Minified(s, p).Some?
    ensures Lexemes(xs) && s[p..] == SourceOf(xs) && Minified(s, p) == Some(KeptOf(xs))
    decreases |s| - p
  {
    hide Minified, Proper, Source, Kept;
    if p == |s| {
      xs := [];
      NothingLeft(s);
    } else {
      var x := LexemeAt(s, p);
      var next := p + |Source(x)|;
      var rest := LexemesAt(s, next);
      xs := [x] + rest;
      assert xs[1..] == rest;
      assert s[p..] == s[p..next] + s[next..];
      FollowsHere(s, next, x, rest);
    }
  }

  lemma {:induction false} FollowsHere(s: seq<byte>, next: nat, x: Lexeme, rest: seq<Lexeme>)
    requires next <= |s| && s[next..] == SourceOf(rest) && Lexemes(rest)
    requires x.LineComment? && next < |s| ==> s[next] == 10
    requires x == Other(47) && next < |s| ==> s[next] != 47 && s[next] != 42
    ensures Follows(x, rest)
  {
    if rest != [] {
      assert s[next..][0] == Source(rest[0])[0];
    }
  }

  /** Exactly the texts made of lexemes are minified, each to what is kept of them. */
  lemma {:induction false} MinifiedWhen(s: seq<byte>, m: seq<byte>)
    requires 0 !in s
    ensures Minified(s, 0) == Some(m) <==> exists xs :: Lexemes(xs) && s == SourceOf(xs) && m == KeptOf(xs)
  {
    hide Minified, Lexemes, SourceOf, KeptOf;
    assert s[0..] == s;
    if Minified(s, 0) == Some(m) {
      var xs := LexemesAt(s, 0);
    }
    if xs :| Lexemes(xs) && s == SourceOf(xs) && m == KeptOf(xs) {
      LexemesKept(s, 0, xs);
    }
  }

  // ----- the tokens of a value

  /** Blanks and closed comments. */
  ghost predicate IsGap(g: seq<Lexeme>) {
    g != [] ==>
      && !g[0].Literal? && !g[0].Other? && Proper(g[0]) && (g[0].LineComment? ==> |g| > 1 && g[1] == Blank(10))
      && IsGap(g[1..])
  }

  ghost predicate AreGaps(gaps: seq<seq<Lexeme>>) {
    forall i :: 0 <= i < |gaps| ==> IsGap(gaps[i])
  }

  /** The tokens, with a gap before each and one behind the last. */
  function Commented(gaps: seq<seq<Lexeme>>, ts: seq<Token>): seq<byte>
    requires |gaps| == |ts| + 1
  {
    if ts == [] then SourceOf(gaps[0]) else SourceOf(gaps[0]) + ts[0] + Commented(gaps[1..], ts[1..])
  }

  function Others(t: Token): (r: seq<Lexeme>)
    ensures |r| == |t|
  {
    seq(|t|, i requires 0 <= i < |t| => Other(t[i]))
  }

  function Lexed(t: Token): seq<Lexeme> {
    if |t| >= 2 && t[0] == 34 then [Literal(t[1..|t| - 1])] else Others(t)
  }

  /** A literal, or characters that mean nothing to minifying. */
  ghost predicate Atom(t: Token) {
    || (forall k :: 0 <= k < |t| ==> t[k] > 32 && t[k] != 34 && t[k] != 47)
    || (|t| >= 2 && t[0] == 34 && t[|t| - 1] == 34 && LiteralBody(t[1..|t| - 1]))
  }

  ghost predicate Atoms(ts: seq<Token>) {
    forall i :: 0 <= i < |ts| ==> Atom(ts[i])
  }

  /** Anything may follow. */
  predicate Finished(xs: seq<Lexeme>) {
    xs != [] ==> !xs[|xs| - 1].LineComment? && xs[|xs| - 1] != Other(47)
  }

  lemma {:induction false} Concat(a: seq<Lexeme>, b: seq<Lexeme>)
    ensures SourceOf(a + b) == SourceOf(a) + SourceOf(b) && KeptOf(a + b) == KeptOf(a) + KeptOf(b)
    ensures Lexemes(a) && Finished(a) && Lexemes(b) ==> Lexemes(a + b)
    decreases |a|
  {
    hide Source, Kept, Proper, Lexemes, Finished, Follows;
    if a == [] {
      assert a + b == b;
    } else {
      assert (a + b)[1..] == a[1..] + b;
      Concat(a[1..], b);
      assert Source(a[0]) + (SourceOf(a[1..]) + SourceOf(b)) == SourceOf(a) + SourceOf(b);
      assert Kept(a[0]) + (KeptOf(a[1..]) + KeptOf(b)) == KeptOf(a) + KeptOf(b);
    }
    if Lexemes(a) && Finished(a) && Lexemes(b) {
      LexemesConcat(a, b);
    }
  }

  lemma {:induction false} LexemesConcat(a: seq<Lexeme>, b: seq<Lexeme>)
    requires Lexemes(a) && Finished(a) && Lexemes(b)
    ensures Lexemes(a + b)
    decreases |a|
  {
    hide Source, Proper;
    if a == [] {
      assert a + b == b;
    } else {
      assert (a + b)[1..] == a[1..] + b;
      LexemesConcat(a[1..], b);
    }
  }

  lemma {:induction false} GapLexemes(g: seq<Lexeme>)
    requires IsGap(g)
    ensures Lexemes(g) && Finished(g) && KeptOf(g) == []
  {
    if g != [] {
      GapLexemes(g[1..]);
    }
  }

  lemma {:induction false} OthersLexed(t: Token)
    requires forall k :: 0 <= k < |t| ==> t[k] > 32 && t[k] != 34 && t[k] != 47
    ensures Lexemes(Others(t)) && Finished(Others(t)) && SourceOf(Others(t)) == KeptOf(Others(t)) == t
  {
    if t != [] {
      OthersLexed(t[1..]);
      assert Others(t)[1..] == Others(t[1..]);
      assert [t[0]] + t[1..] == t;
    }
  }

  lemma {:induction false} AtomLexed(t: Token)
    requires Atom(t)
    ensures Lexemes(Lexed(t)) && Finished(Lexed(t)) && SourceOf(Lexed(t)) == KeptOf(Lexed(t)) == t
  {
    if |t| >= 2 && t[0] == 34 {
      assert [34] + t[1..|t| - 1] + [34] == t;
      assert t + [] == t;
    } else {
      OthersLexed(t);
    }
  }

  lemma {:induction false} CommentedLexed(gaps: seq<seq<Lexeme>>, ts: seq<Token>) returns (xs: seq<Lexeme>)
    requires |gaps| == |ts| + 1 && AreGaps(gaps) && Atoms(ts)
    ensures Lexemes(xs) && SourceOf(xs) == Commented(gaps, ts) && KeptOf(xs) == Flat(ts)
    decreases |ts|
  {
    hide IsGap, Atom, Lexemes, SourceOf, KeptOf, Lexed, Finished;
    GapLexemes(gaps[0]);
    if ts == [] {
      xs := gaps[0];
    } else {
      var rest := CommentedLexed(gaps[1..], ts[1..]);
      AtomLexed(ts[0]);
      Concat(Lexed(ts[0]), rest);
      Concat(gaps[0], Lexed(ts[0]) + rest);
      xs := gaps[0] + (Lexed(ts[0]) + rest);
      assert SourceOf(gaps[0]) + (ts[0] + SourceOf(rest)) == SourceOf(gaps[0]) + ts[0] + SourceOf(rest);
      assert [] + (ts[0] + KeptOf(rest)) == ts[0] + KeptOf(rest);
    }
  }

  // ----- which are atoms

  lemma {:induction false} LiteralConcat(a: seq<byte>, b: seq<byte>)
    requires LiteralBody(a) && LiteralBody(b)
    ensures LiteralBody(a + b)
    decreases |a|
  {
    if a == [] {
      assert a + b == b;
    } else if a[0] == 92 {
      assert (a + b)[2..] == a[2..] + b;
      LiteralConcat(a[2..], b);
    } else {
      assert (a + b)[1..] == a[1..] + b;
      LiteralConcat(a[1..], b);
    }
  }

  lemma {:induction false} EscapeByteBody(c: byte)
    ensures LiteralBody(EscapeByte(c))
  {
    var e := EscapeByte(c);
    if |e| == 2 {
      assert e[2..] == [];
    } else if |e| == 6 {
      OrdinaryBody(e[2..]);
    } else {
      assert e[1..] == [];
    }
  }

  lemma {:induction false} OrdinaryBody(b: seq<byte>)
    requires forall k :: 0 <= k < |b| ==> b[k] != 34 && b[k] != 92
    ensures LiteralBody(b)
  {
    if b != [] {
      OrdinaryBody(b[1..]);
    }
  }

  lemma {:induction false} EscapeBody(x: seq<byte>)
    ensures LiteralBody(Escape(x))
  {
    hide LiteralBody, EscapeByte;
    if x == [] {
      OrdinaryBody([]);
    } else {
      EscapeByteBody(x[0]);
      EscapeBody(x[1..]);
      LiteralConcat(EscapeByte(x[0]), Escape(x[1..]));
    }
  }

  lemma {:induction false} QuotedAtom(x: seq<byte>)
    ensures Atom(Quoted(x))
  {
    EscapeBody(x);
    assert Quoted(x)[1..|Quoted(x)| - 1] == Escape(x);
  }

  lemma {:induction false} DigitsOnly(n: nat)
    ensures forall k :: 0 <= k < |Digits(n)| ==> 48 <= Digits(n)[k] <= 57
  {
    if n >= 10 {
      DigitsOnly(n / 10);
    }
  }

  lemma {:induction false} PlainAtoms(n: int)
    ensures Atom(NumberText(n)) && Atom(NULL_TEXT) && Atom(FALSE_TEXT) && Atom(TRUE_TEXT)
    ensures Atom([OPEN_BRACKET]) && Atom([CLOSE_BRACKET]) && Atom([OPEN_BRACE]) && Atom([CLOSE_BRACE]) && Atom([COMMA]) && Atom([COLON])
  {
    DigitsOnly(if n < 0 then -n else n);
  }

  lemma {:induction false} TokensAtoms(t: Json)
    ensures Atoms(Tokens(t))
    decreases t, 1
  {
    hide Atom, Quoted, NumberText;
    match t
    case Array(child) => ItemsAtoms(child); PlainAtoms(0);
    case Object(child) => MembersAtoms(child); PlainAtoms(0);
    case Number(n) => PlainAtoms(n);
    case String(x) => QuotedAtom(x);
    case _ => PlainAtoms(0);
  }

  lemma {:induction false} ItemsAtoms(c: Chain)
    ensures Atoms(ItemTokens(c))
    decreases c, 0
  {
    hide Atom, Tokens;
    PlainAtoms(0);
    if c.Link? {
      TokensAtoms(c.value);
      ItemsAtoms(c.next);
    }
  }

  lemma {:induction false} MembersAtoms(c: Chain)
    ensures Atoms(MemberTokens(c))
    decreases c, 0
  {
    hide Atom, Tokens, Quoted;
    PlainAtoms(0);
    if c.Link? {
      QuotedAtom(c.name);
      TokensAtoms(c.value);
      MembersAtoms(c.next);
    }
  }

  /** Any blanks and closed comments before, between and behind the tokens of a value minify to nothing: what is left
      is the value's unformatted text. */
  lemma {:induction false} CommentsDropped(t: Json, gaps: seq<seq<Lexeme>>)
    requires |gaps| == |Tokens(t)| + 1 && AreGaps(gaps) && 0 !in Commented(gaps, Tokens(t))
    ensures Minified(Commented(gaps, Tokens(t)), 0) == Some(Text(t, 0, false))
  {
    hide Tokens, Text, Commented, Lexemes, SourceOf, KeptOf, Minified, IsGap;
    TokensAtoms(t);
    var xs := CommentedLexed(gaps, Tokens(t));
    TextLaid(t);
    var s := Commented(gaps, Tokens(t));
    assert s[0..] == s;
    LexemesKept(s, 0, xs);
  }

  // ----- printed texts

  predicate FourBlanks(gap: seq<byte>) {
    forall k :: 0 <= k < |gap| ==> gap[k] == 32 || gap[k] == 9 || gap[k] == 13 || gap[k] == 10
  }

  ghost predicate AllFourBlanks(gaps: seq<seq<byte>>) {
    forall i :: 0 <= i < |gaps| ==> FourBlanks(gaps[i])
  }

  function Blanked(gap: seq<byte>): (r: seq<Lexeme>)
    ensures |r| == |gap|
  {
    seq(|gap|, i requires 0 <= i < |gap| => Blank(gap[i]))
  }

  lemma {:induction false} BlankedGap(gap: seq<byte>)
    requires FourBlanks(gap)
    ensures IsGap(Blanked(gap)) && SourceOf(Blanked(gap)) == gap
  {
    if gap != [] {
      BlankedGap(gap[1..]);
      assert Blanked(gap)[1..] == Blanked(gap[1..]);
      assert [gap[0]] + gap[1..] == gap;
    }
  }

  lemma {:induction false} WovenCommented(gaps: seq<seq<byte>>, ts: seq<Token>) returns (gs: seq<seq<Lexeme>>)
    requires |gaps| == |ts| && AllFourBlanks(gaps)
    ensures |gs| == |ts| + 1 && AreGaps(gs) && Commented(gs, ts) == Weave(gaps, ts)
    decreases |ts|
  {
    hide IsGap, SourceOf, FourBlanks;
    if ts == [] {
      BlankedNothing();
      gs := [[]];
    } else {
      var rest := WovenCommented(gaps[1..], ts[1..]);
      assert FourBlanks(gaps[0]);
      BlankedGap(gaps[0]);
      gs := [Blanked(gaps[0])] + rest;
      assert gs[1..] == rest;
    }
  }

  lemma {:induction false} BlankedNothing()
    ensures IsGap([]) && SourceOf([]) == []
  {
  }

  lemma {:induction false} GapsFour(ts: seq<Token>, open: seq<bool>, prev: Token)
    ensures AllFourBlanks(Gaps(ts, open, prev))
    decreases |ts|
  {
    if ts != [] {
      GapsFour(ts[1..], Opened(open, ts[0]), ts[0]);
    }
  }

  /** Minifying a printed text gives the unformatted text: of a formatted one, and of an unformatted one,
      which is already as short as that. */
  lemma {:induction false} MinifiesToUnformatted(t: Json, fmt: bool)
    requires Holdable(t)
    ensures Minified(Text(t, 0, fmt), 0) == Some(Text(t, 0, false))
  {
    hide Text, Tokens, Minified, Holdable, Weave, Commented, IsGap, FourBlanks, Gaps;
    var gaps := TextWoven(t, fmt);
    GapsFour(Tokens(t), [], []);
    NoneFour(|Tokens(t)|);
    var gs := WovenCommented(gaps, Tokens(t));
    NulFree(t, 0, fmt);
    CommentsDropped(t, gs);
  }

  lemma {:induction false} NoneFour(n: nat)
    ensures AllFourBlanks(NoGaps(n))
  {
  }

  // ----- the code

  /** What has been written is done, and what is to be read is as it was: the write position never passes the
      read position. */
  ghost predicate Rewriting(json: array<byte>, s: seq<byte>, into: nat, p: nat, done: seq<byte>)
    reads json
  {
    && |s| < json.Length && into <= p <= |s| && |done| == into
    && (forall k :: 0 <= k < into ==> json[k] == done[k])
    && (forall k :: p <= k < |s| ==> json[k] == s[k]) && json[|s|] == 0
  }

  /** Copy one byte down, and move on in both places. */
  method Copy(json: array<byte>, ghost s: seq<byte>, into: nat, p: nat, ghost done: seq<byte>)
    requires Rewriting(json, s, into, p, done) && p < |s|
    modifies json
    ensures Rewriting(json, s, into + 1, p + 1, done + [s[p]])
  {
    json[into] := json[p];
  }

  /** To the end of the line. */
  method SkipLine(json: array<byte>, ghost s: seq<byte>, ghost into: nat, p: nat, ghost done: seq<byte>) returns (r: nat)
    requires Rewriting(json, s, into, p, done) && 0 !in s
    ensures r == LineEnd(s, p)
  {
    r := p;
    while json[r] != 0 && json[r] != NEWLINE
      invariant p <= r <= |s| && LineEnd(s, r) == LineEnd(s, p)
      decreases |s| - r
    {
      r := r + 1;
    }
  }

  /** Behind the end of the comment. */
  method SkipComment(json: array<byte>, ghost s: seq<byte>, ghost into: nat, p: nat, ghost done: seq<byte>) returns (r: nat)
    requires Rewriting(json, s, into, p, done) && 0 !in s && Peek(s, CommentEnd(s, p)) != 0
    ensures r == CommentEnd(s, p) + 2
  {
    r := p;
    while json[r] != 0 && !(json[r] == STAR && json[r + 1] == SLASH)
      invariant p <= r < |s| && CommentEnd(s, r) == CommentEnd(s, p)
      decreases |s| - r
    {
      r := r + 1;
    }
    r := r + 2;
  }

  /** A string literal, with every escaped character. */
  method CopyString(json: array<byte>, ghost s: seq<byte>, into: nat, p: nat, ghost done: seq<byte>)
    returns (into': nat, p': nat, ghost done': seq<byte>)
    requires Rewriting(json, s, into, p, done) && 0 !in s && p < |s|
    requires StringEnd(s, p + 1) < |s| && s[StringEnd(s, p + 1)] == QUOTE
    modifies json
    ensures p' == StringEnd(s, p + 1) + 1 && done' == done + s[p..p'] && Rewriting(json, s, into', p', done')
  {
    ghost var end := StringEnd(s, p + 1);
    assert done == done + s[p..p];
    into', p', done' := CopyNext(json, s, into, p, done, p, done);
    while json[p'] != 0 && json[p'] != QUOTE
      invariant p < p' <= end && StringEnd(s, p') == end
      invariant Rewriting(json, s, into', p', done') && done' == done + s[p..p']
      decreases end - p'
    {
      into', p', done' := CopyCharacter(json, s, into', p', done', p, done);
    }
    into', p', done' := CopyNext(json, s, into', p', done', p, done);
  }

  /** One turn of the inner loop: a character, or a backslash and what it escapes. */
  method CopyCharacter(json: array<byte>, ghost s: seq<byte>, into: nat, p: nat, ghost done: seq<byte>, ghost start: nat, ghost before: seq<byte>)
    returns (into': nat, p': nat, ghost done': seq<byte>)
    requires Rewriting(json, s, into, p, done) && p < |s| && s[p] != QUOTE && s[p] != 0 && StringEnd(s, p) <= |s|
    requires start <= p && done == before + s[start..p]
    modifies json
    ensures p < p' <= StringEnd(s, p) && StringEnd(s, p') == StringEnd(s, p)
    ensures Rewriting(json, s, into', p', done') && done' == before + s[start..p']
  {
    into', p', done' := into, p, done;
    if json[p'] == BACKSLASH {
      into', p', done' := CopyNext(json, s, into', p', done', start, before);
    }
    into', p', done' := CopyNext(json, s, into', p', done', start, before);
  }

  /** One character of a literal that starts at `start`. */
  method CopyNext(json: array<byte>, ghost s: seq<byte>, into: nat, p: nat, ghost done: seq<byte>, ghost start: nat, ghost before: seq<byte>)
    returns (into': nat, p': nat, ghost done': seq<byte>)
    requires Rewriting(json, s, into, p, done) && p < |s| && start <= p && done == before + s[start..p]
    modifies json
    ensures into' == into + 1 && p' == p + 1 && done' == before + s[start..p'] && Rewriting(json, s, into', p', done')
  {
    Copy(json, s, into, p, done);
    into', p', done' := into + 1, p + 1, done + [s[p]];
    assert before + s[start..p] + [s[p]] == before + s[start..p + 1];
  }

  /** cJSON_Minify: the text in the array is replaced by what is kept of it. */
  method Minify(json: array<byte>, ghost s: seq<byte>)
    requires |s| < json.Length && json[..|s|] == s && json[|s|] == 0 && 0 !in s && Minified(s, 0).Some?
    modifies json
    ensures var m := Minified(s, 0).value;
            |m| <= |s| && json[..|m|] == m && json[|m|] == 0
  {
    var into: nat, p: nat := 0, 0;
    ghost var done := [];
    PrependNothing(done, Minified(s, 0));
    forall k | 0 <= k < |s|
      ensures json[k] == s[k]
    {
      assert json[..|s|][k] == s[k];
    }
    while json[p] != 0
      invariant Rewriting(json, s, into, p, done)
      invariant Minified(s, 0) == Prepend(done, Minified(s, p))
      decreases |s| - p
    {
      into, p, done := Turn(json, s, into, p, done);
    }
    json[into] := 0;
    Finish(json, s, into, done);
  }

  lemma {:induction false} Finish(json: array<byte>, s: seq<byte>, into: nat, done: seq<byte>)
    requires |done| == into < json.Length && forall k :: 0 <= k < into ==> json[k] == done[k]
    requires Minified(s, 0) == Prepend(done, Minified(s, |s|))
    ensures Minified(s, 0) == Some(json[..into])
  {
    assert done + [] == done == json[..into];
  }

  /** One turn of the loop. */
  method Turn(json: array<byte>, ghost s: seq<byte>, into: nat, p: nat, ghost done: seq<byte>)
    returns (into': nat, p': nat, ghost done': seq<byte>)
    requires Rewriting(json, s, into, p, done) && 0 !in s && p < |s|
    requires Prepend(done, Minified(s, p)).Some?
    modifies json
    ensures p < p' && Rewriting(json, s, into', p', done')
    ensures Prepend(done, Minified(s, p)) == Prepend(done', Minified(s, p'))
  {
    assert json[p] == Peek(s, p) && json[p + 1] == Peek(s, p + 1);
    into', p', done' := into, p, done;
    if IsBlank(json[p]) {
      p' := p + 1;
    } else if json[p] == SLASH && json[p + 1] == SLASH {
      LineCommentMoves(s, p);
      p' := SkipLine(json, s, into, p, done);
    } else if json[p] == SLASH && json[p + 1] == STAR {
      p' := SkipComment(json, s, into, p, done);
    } else if json[p] == QUOTE {
      into', p', done' := CopyString(json, s, into, p, done);
      PrependPrepend(done, s[p..p'], Minified(s, p'));
    } else {
      Copy(json, s, into, p, done);
      into', p', done' := into + 1, p + 1, done + [s[p]];
      PrependPrepend(done, [s[p]], Minified(s, p'));
    }
  }

  /** Print a value formatted into a buffer, and minify the buffer: it holds what printing it unformatted gives. */
  method PrintThenMinify(t: Json, prebuffer: nat) returns (json: array<byte>)
    requires Holdable(t)
    ensures var m := Text(t, 0, false);
            |m| < json.Length && json[..|m|] == m && json[|m|] == 0
  {
    hide Text, Minified, Holdable;
    NulFree(t, 0, true);
    MinifiesToUnformatted(t, true);
    var start;
    json, start := JsonBuffer.PrintBuffered(t, prebuffer, true);
    Minify(json, Text(t, 0, true));
  }
}
