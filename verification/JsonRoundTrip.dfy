/** Parsing the printed text of a value gives back the value. */
module JsonRoundTrip {
  import opened Prelude
  import opened JsonText
  import opened JsonStrings
  import opened JsonTokens
  import opened JsonParse
  import opened JsonGrammar
  import JsonPrint

  lemma {:induction false} NumberReads(s: seq<byte>, at: nat, n: int)
    requires Has(s, at, NumberText(n)) && INT_MIN <= n <= INT_MAX && Stops(Peek(s, at + |NumberText(n)|))
    ensures at < |s| && (s[at] == MINUS || IsDigit(s[at]))
    ensures ParseNumber(s, at) == Parsed(n, at + |NumberText(n)|)
  {
    NumberStands(s, at, n);
    NumberStarts(s, at, n, at + |NumberText(n)|);
  }

  /** What the pretty printer puts between tokens is blank. */
  lemma {:induction false} GapsBlank(ts: seq<Token>, open: seq<bool>, prev: Token)
    ensures BlankGaps(Gaps(ts, open, prev))
    decreases |ts|
  {
    if ts != [] {
      GapsBlank(ts[1..], Opened(open, ts[0]), ts[0]);
    }
  }

  /** Nothing between the tokens is a kind of blanks too. */
  function NoGaps(n: nat): (r: seq<seq<byte>>)
    ensures |r| == n && BlankGaps(r)
  {
    seq(n, i requires 0 <= i < n => [])
  }

  lemma {:induction false} FlatWoven(ts: seq<Token>)
    ensures Weave(NoGaps(|ts|), ts) == Flat(ts)
  {
    if ts != [] {
      FlatWoven(ts[1..]);
      assert NoGaps(|ts|)[1..] == NoGaps(|ts[1..]|);
      assert [] + ts[0] == ts[0];
    }
  }

  /** A printed text is the value's tokens with blanks between them. */
  lemma {:induction false} TextWoven(t: Json, fmt: bool) returns (gaps: seq<seq<byte>>)
    ensures |gaps| == |Tokens(t)| && BlankGaps(gaps) && Text(t, 0, fmt) == Weave(gaps, Tokens(t))
    ensures gaps == if fmt then Gaps(Tokens(t), [], []) else NoGaps(|Tokens(t)|)
  {
    hide Text, Tokens;
    TextLaid(t);
    GapsBlank(Tokens(t), [], []);
    FlatWoven(Tokens(t));
    gaps := if fmt then Gaps(Tokens(t), [], []) else NoGaps(|Tokens(t)|);
  }

  /** The JSON round trip: for every value, formatted or not. */
  lemma {:induction false} RoundTrip(t: Json, fmt: bool)
    requires Holdable(t)
    ensures ParseText(Text(t, 0, fmt)) == Parsed(t, |Text(t, 0, fmt)|)
  {
    hide Text, Tokens, Holdable, Weave, ParseValue, Gaps;
    var s := Text(t, 0, fmt);
    var gaps := TextWoven(t, fmt);
    HasAll(s);
    WovenReads(s, 0, t, gaps);
  }

  /** Print a value, and parse the text. */
  method PrintThenParse(t: Json, fmt: bool) returns (text: seq<byte>, r: Parsed<Json>)
    requires Holdable(t)
    ensures text == Text(t, 0, fmt) && r == Parsed(t, |text|)
  {
    text := JsonPrint.Print(t, fmt);
    r := Parse(text);
    RoundTrip(t, fmt);
  }
}
