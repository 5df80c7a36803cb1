/** A value as a sequence of tokens, and the two ways in which the printer lays them out. */
module JsonTokens {
  import opened Prelude
  import opened JsonText

  type Token = seq<byte>

  function Tokens(t: Json): (r: seq<Token>)
    ensures r != []
  {
    match t
    case Null => [NULL_TEXT]
    case False => [FALSE_TEXT]
    case True => [TRUE_TEXT]
    case Number(n) => [NumberText(n)]
    case String(s) => [Quoted(s)]
    case Array(child) => [[OPEN_BRACKET]] + ItemTokens(child) + [[CLOSE_BRACKET]]
    case Object(child) => [[OPEN_BRACE]] + MemberTokens(child) + [[CLOSE_BRACE]]
  }

  function ItemTokens(c: Chain): seq<Token> {
    match c
    case End => []
    case Link(_, value, next) => Tokens(value) + Commas(next) + ItemTokens(next)
  }

  function MemberTokens(c: Chain): seq<Token> {
    match c
    case End => []
    case Link(name, value, next) => [Quoted(name), [COLON]] + Tokens(value) + Commas(next) + MemberTokens(next)
  }

  function Commas(next: Chain): seq<Token> {
    if next.Link? then [[COMMA]] else []
  }

  /** One after another. */
  function Flat(ts: seq<Token>): seq<byte> {
    if ts == [] then [] else ts[0] + Flat(ts[1..])
  }

  /** With something before each. */
  function Weave(gaps: seq<seq<byte>>, ts: seq<Token>): seq<byte>
    requires |gaps| == |ts|
  {
    if ts == [] then [] else gaps[0] + ts[0] + Weave(gaps[1..], ts[1..])
  }

  // ----- unformatted

  lemma {:induction false} FlatConcat(a: seq<Token>, b: seq<Token>)
    ensures Flat(a + b) == Flat(a) + Flat(b)
  {
    if a == [] {
      assert a + b == b;
    } else {
      assert (a + b)[1..] == a[1..] + b;
      FlatConcat(a[1..], b);
    }
  }

  lemma {:induction false} FlatOne(t: Token)
    ensures Flat([t]) == t
  {
    assert [t][1..] == [];
    assert t + [] == t;
  }

  /** The unformatted text has nothing between the tokens. */
  lemma {:induction false} TextFlat(t: Json, depth: nat)
    ensures Flat(Tokens(t)) == Text(t, depth, false)
    decreases t, 1
  {
    hide Quoted, NumberText, Tabs;
    match t
    case Array(child) =>
      Enclosed(OPEN_BRACKET, ItemTokens(child), CLOSE_BRACKET);
      ItemsFlat(child, depth + 1);
    case Object(child) =>
      Enclosed(OPEN_BRACE, MemberTokens(child), CLOSE_BRACE);
      MembersFlat(child, depth + 1);
      var inner := MembersText(child, depth + 1, false);
      assert [OPEN_BRACE] + [] + inner + [] + [CLOSE_BRACE] == [OPEN_BRACE] + inner + [CLOSE_BRACE];
    case _ =>
      FlatOne(Tokens(t)[0]);
  }

  lemma {:induction false} Enclosed(open: byte, inner: seq<Token>, close: byte)
    ensures Flat([[open]] + inner + [[close]]) == [open] + Flat(inner) + [close]
  {
    FlatConcat([[open]] + inner, [[close]]);
    FlatConcat([[open]], inner);
    FlatOne([open]);
    FlatOne([close]);
  }

  lemma {:induction false} ItemsFlat(c: Chain, depth: nat)
    ensures Flat(ItemTokens(c)) == ItemsText(c, depth, false)
    decreases c, 0
  {
    hide Text, Tokens;
    if c.Link? {
      FlatConcat(Tokens(c.value) + Commas(c.next), ItemTokens(c.next));
      FlatConcat(Tokens(c.value), Commas(c.next));
      FlatOne([COMMA]);
      TextFlat(c.value, depth);
      ItemsFlat(c.next, depth);
    }
  }

  lemma {:induction false} MembersFlat(c: Chain, depth: nat)
    ensures Flat(MemberTokens(c)) == MembersText(c, depth, false)
    decreases c, 0
  {
    hide Text, Tokens, Quoted;
    if c.Link? {
      var head := [Quoted(c.name), [COLON]];
      FlatConcat(head + Tokens(c.value) + Commas(c.next), MemberTokens(c.next));
      FlatConcat(head + Tokens(c.value), Commas(c.next));
      FlatConcat(head, Tokens(c.value));
      assert head == [Quoted(c.name)] + [[COLON]];
      FlatConcat([Quoted(c.name)], [[COLON]]);
      FlatOne(Quoted(c.name));
      FlatOne([COLON]);
      FlatOne([COMMA]);
      TextFlat(c.value, depth);
      MembersFlat(c.next, depth);
      var value, comma := Text(c.value, depth, false), Only(c.next.Link?, [COMMA]);
      assert [] + Quoted(c.name) + ([COLON] + []) + value + (comma + []) == Quoted(c.name) + [COLON] + value + comma;
    }
  }

  // ----- formatted

  /** A pretty printer that sees one token after another: what stands before the next one, given the one before and
      the brackets that are open (true for braces). */
  function GapBefore(open: seq<bool>, prev: Token, next: Token): seq<byte> {
    var depth := |open|;
    if next == [CLOSE_BRACE] && depth > 0 then [NEWLINE] + Tabs(depth - 1)
    else if prev == [OPEN_BRACE] || (prev == [COMMA] && depth > 0 && open[depth - 1]) then [NEWLINE] + Tabs(depth)
    else if prev == [COLON] then [TAB]
    else if prev == [COMMA] then [SPACE]
    else []
  }

  function Opened(open: seq<bool>, token: Token): seq<bool> {
    if token == [OPEN_BRACE] then open + [true]
    else if token == [OPEN_BRACKET] then open + [false]
    else if (token == [CLOSE_BRACE] || token == [CLOSE_BRACKET]) && open != [] then open[..|open| - 1]
    else open
  }

  function Gaps(ts: seq<Token>, open: seq<bool>, prev: Token): (r: seq<seq<byte>>)
    ensures |r| == |ts|
    decreases |ts|
  {
    if ts == [] then [] else [GapBefore(open, prev, ts[0])] + Gaps(ts[1..], Opened(open, ts[0]), ts[0])
  }

  function Laid(ts: seq<Token>, open: seq<bool>, prev: Token): seq<byte> {
    Weave(Gaps(ts, open, prev), ts)
  }

  /** One token, and then the others. */
  lemma {:induction false} LaidOne(t: Token, rest: seq<Token>, open: seq<bool>, prev: Token)
    ensures Laid([t] + rest, open, prev) == GapBefore(open, prev, t) + t + Laid(rest, Opened(open, t), t)
  {
    hide GapBefore, Opened;
    var ts := [t] + rest;
    assert ts[1..] == rest;
    var gaps := Gaps(ts, open, prev);
    assert gaps[1..] == Gaps(rest, Opened(open, t), t);
  }

  /** The token is no mark that decides about what follows it. */
  predicate Ending(t: Token) {
    t != [OPEN_BRACE] && t != [COMMA] && t != [COLON]
  }

  /** A token that starts a value is no bracket that closes; one that stands for itself opens none either. */
  lemma {:induction false} AtomToken(t: Json)
    requires !t.Array? && !t.Object?
    ensures |Tokens(t)| == 1
    ensures var x := Tokens(t)[0]; Ending(x) && forall open :: Opened(open, x) == open && GapBefore(open, [OPEN_BRACKET], x) == []
  {
    match t
    case Number(n) =>
      FirstByte(n);
    case _ =>
  }

  lemma {:induction false} FirstByte(n: int)
    ensures NumberText(n) != [] && (NumberText(n)[0] == MINUS || 48 <= NumberText(n)[0] <= 57)
  {
    DigitFirst(if n < 0 then -n else n);
  }

  lemma {:induction false} DigitFirst(n: nat)
    ensures 48 <= Digits(n)[0] <= 57
  {
    if n >= 10 {
      DigitFirst(n / 10);
    }
  }

  /** What stands before a value, which starts with no closing brace. */
  function Lead(open: seq<bool>, prev: Token): seq<byte> {
    GapBefore(open, prev, [OPEN_BRACE])
  }

  lemma {:induction false} LeadIs(t: Json, open: seq<bool>, prev: Token)
    ensures GapBefore(open, prev, Tokens(t)[0]) == Lead(open, prev)
  {
    if !t.Array? && !t.Object? {
      AtomToken(t);
      AtomFirst(t);
    }
  }

  lemma {:induction false} AtomFirst(t: Json)
    requires !t.Array? && !t.Object?
    ensures Tokens(t)[0] != [CLOSE_BRACE]
  {
    match t
    case Number(n) => FirstByte(n);
    case _ =>
  }

  /** A value is laid out as it is printed at the depth of the open brackets. */
  lemma {:induction false} ValueLaid(t: Json, rest: seq<Token>, open: seq<bool>, prev: Token) returns (last: Token)
    ensures Ending(last)
    ensures Laid(Tokens(t) + rest, open, prev) == Lead(open, prev) + Text(t, |open|, true) + Laid(rest, open, last)
    decreases t, 1
  {
    hide GapBefore, Opened, Laid, Lead, Text, Tokens, ItemTokens, MemberTokens;
    LeadIs(t, open, prev);
    match t
    case Array(child) =>
      last := ArrayLaid(child, rest, open, prev);
    case Object(child) =>
      last := ObjectLaid(child, rest, open, prev);
    case _ =>
      last := AtomLaid(t, rest, open, prev);
  }

  lemma {:induction false} AtomLaid(t: Json, rest: seq<Token>, open: seq<bool>, prev: Token) returns (last: Token)
    requires !t.Array? && !t.Object?
    ensures Ending(last)
    ensures Laid(Tokens(t) + rest, open, prev) == Lead(open, prev) + Text(t, |open|, true) + Laid(rest, open, last)
  {
    hide GapBefore, Opened, Laid, Lead;
    AtomToken(t);
    LeadIs(t, open, prev);
    last := Tokens(t)[0];
    LaidOne(last, rest, open, prev);
  }

  lemma {:induction false} Brackets(open: seq<bool>, prev: Token)
    ensures Opened(open, [OPEN_BRACKET]) == open + [false] && Opened(open, [OPEN_BRACE]) == open + [true]
    ensures Opened(open + [false], [CLOSE_BRACKET]) == open && Opened(open + [true], [CLOSE_BRACE]) == open
    ensures Opened(open, [COMMA]) == open && Opened(open, [COLON]) == open
    ensures Ending(prev) ==> GapBefore(open, prev, [CLOSE_BRACKET]) == [] && GapBefore(open, prev, [COMMA]) == []
    ensures GapBefore(open + [true], prev, [CLOSE_BRACE]) == [NEWLINE] + Tabs(|open|)
    ensures Lead(open, [OPEN_BRACKET]) == [] && Lead(open, [COLON]) == [TAB] && Lead(open + [false], [COMMA]) == [SPACE]
  {
  }

  lemma {:induction false} ArrayLaid(child: Chain, rest: seq<Token>, open: seq<bool>, prev: Token) returns (last: Token)
    ensures Ending(last)
    ensures Laid(Tokens(Array(child)) + rest, open, prev) == Lead(open, prev) + Text(Array(child), |open|, true) + Laid(rest, open, last)
    decreases child, 2
  {
    hide GapBefore, Opened, Laid, Lead, ItemTokens, Tokens, Text, ItemsText;
    var inner := ItemTokens(child);
    var close := [[CLOSE_BRACKET]] + rest;
    ArrayShape(child, rest, |open|);
    LaidOne([OPEN_BRACKET], inner + close, open, prev);
    LeadIs(Array(child), open, prev);
    var before := ItemsLaid(child, close, open, [OPEN_BRACKET]);
    Brackets(open, before);
    Brackets(open + [false], before);
    LaidOne([CLOSE_BRACKET], rest, open + [false], before);
    last := [CLOSE_BRACKET];
    Bracketed(Lead(open, prev), ItemsText(child, |open| + 1, true), Laid(rest, open, last));
  }

  lemma {:induction false} ArrayShape(child: Chain, rest: seq<Token>, depth: nat)
    ensures Tokens(Array(child)) + rest == [[OPEN_BRACKET]] + (ItemTokens(child) + ([[CLOSE_BRACKET]] + rest))
    ensures Tokens(Array(child))[0] == [OPEN_BRACKET]
    ensures Text(Array(child), depth, true) == [OPEN_BRACKET] + ItemsText(child, depth + 1, true) + [CLOSE_BRACKET]
  {
    hide ItemTokens, ItemsText;
  }

  lemma {:induction false} Bracketed(lead: seq<byte>, inner: seq<byte>, rest: seq<byte>)
    ensures lead + [OPEN_BRACKET] + (inner + ([] + [CLOSE_BRACKET] + rest)) == lead + ([OPEN_BRACKET] + inner + [CLOSE_BRACKET]) + rest
  {
  }

  /** What stands before an item: nothing behind the bracket, and a space behind a comma. */
  function ItemLead(c: Chain, prev: Token): seq<byte> {
    if c.Link? && prev == [COMMA] then [SPACE] else []
  }

  lemma {:induction false} ItemsLaid(c: Chain, rest: seq<Token>, outer: seq<bool>, prev: Token) returns (last: Token)
    requires prev == [OPEN_BRACKET] || (prev == [COMMA] && c.Link?)
    ensures Ending(last)
    ensures Laid(ItemTokens(c) + rest, outer + [false], prev)
         == ItemLead(c, prev) + ItemsText(c, |outer| + 1, true) + Laid(rest, outer + [false], last)
    decreases c, 0
  {
    hide GapBefore, Opened, Laid, Lead, Text, Tokens;
    var open := outer + [false];
    if c.End? {
      last := prev;
      assert [] + rest == rest;
    } else {
      var more := Commas(c.next) + ItemTokens(c.next) + rest;
      assert ItemTokens(c) + rest == Tokens(c.value) + more;
      last := ValueLaid(c.value, more, open, prev);
      Brackets(open, last);
      Brackets(outer, last);
      if c.next.Link? {
        assert more == [[COMMA]] + (ItemTokens(c.next) + rest);
        LaidOne([COMMA], ItemTokens(c.next) + rest, open, last);
        last := ItemsLaid(c.next, rest, outer, [COMMA]);
        ItemThen(Lead(open, prev), Text(c.value, |open|, true), ItemsText(c.next, |open|, true), Laid(rest, open, last));
      } else {
        assert more == rest;
        assert Text(c.value, |open|, true) + ([] + []) + [] == Text(c.value, |open|, true);
      }
    }
  }

  lemma {:induction false} ItemThen(lead: seq<byte>, value: seq<byte>, items: seq<byte>, rest: seq<byte>)
    ensures lead + value + ([] + [COMMA] + ([SPACE] + items + rest)) == lead + (value + ([COMMA] + [SPACE]) + items) + rest
  {
  }

  lemma {:induction false} ObjectLaid(child: Chain, rest: seq<Token>, open: seq<bool>, prev: Token) returns (last: Token)
    ensures Ending(last)
    ensures Laid(Tokens(Object(child)) + rest, open, prev) == Lead(open, prev) + Text(Object(child), |open|, true) + Laid(rest, open, last)
    decreases child, 2
  {
    hide GapBefore, Opened, Laid, Lead, MemberTokens, Tabs;
    var inner := MemberTokens(child);
    assert Tokens(Object(child)) + rest == [[OPEN_BRACE]] + (inner + ([[CLOSE_BRACE]] + rest));
    LaidOne([OPEN_BRACE], inner + ([[CLOSE_BRACE]] + rest), open, prev);
    LeadIs(Object(child), open, prev);
    Brackets(open, prev);
    MembersLaid(child, rest, open, [OPEN_BRACE]);
    last := [CLOSE_BRACE];
    Braced(Lead(open, prev), MembersText(child, |open| + 1, true), Tabs(|open|), Laid(rest, open, last));
  }

  lemma {:induction false} Braced(lead: seq<byte>, inner: seq<byte>, tabs: seq<byte>, rest: seq<byte>)
    ensures lead + [OPEN_BRACE] + ([NEWLINE] + inner + tabs + [CLOSE_BRACE] + rest)
         == lead + ([OPEN_BRACE] + [NEWLINE] + inner + tabs + [CLOSE_BRACE]) + rest
  {
  }

  /** The members of an object, its closing brace and what follows. */
  lemma {:induction false} MembersLaid(c: Chain, rest: seq<Token>, outer: seq<bool>, prev: Token)
    requires c.Link? ==> prev == [OPEN_BRACE] || prev == [COMMA]
    ensures Laid(MemberTokens(c) + ([[CLOSE_BRACE]] + rest), outer + [true], prev)
         == [NEWLINE] + MembersText(c, |outer| + 1, true) + Tabs(|outer|) + [CLOSE_BRACE] + Laid(rest, outer, [CLOSE_BRACE])
    decreases c, 1
  {
    hide GapBefore, Opened, Laid, Lead, Text, Tokens, Tabs, Quoted, MemberText;
    var open := outer + [true];
    Brackets(outer, prev);
    var close := [[CLOSE_BRACE]] + rest;
    if c.End? {
      assert [] + close == close;
      LaidOne([CLOSE_BRACE], rest, open, prev);
    } else {
      var more := Commas(c.next) + MemberTokens(c.next) + close;
      var after := MemberLaid(c, more, outer, prev);
      assert MemberTokens(c) + close == [Quoted(c.name), [COLON]] + Tokens(c.value) + more;
      Brackets(open, after);
      if c.next.Link? {
        assert more == [[COMMA]] + (MemberTokens(c.next) + close);
        LaidOne([COMMA], MemberTokens(c.next) + close, open, after);
        MembersLaid(c.next, rest, outer, [COMMA]);
      } else {
        assert more == MemberTokens(c.next) + close;
        MembersLaid(c.next, rest, outer, after);
      }
      var tail := [NEWLINE] + MembersText(c.next, |open|, true) + Tabs(|outer|) + [CLOSE_BRACE] + Laid(rest, outer, [CLOSE_BRACE]);
      MemberThen(c, |open|, Tabs(|outer|), Laid(rest, outer, [CLOSE_BRACE]), tail);
    }
  }

  /** A member without its comma, as it starts on a new line. */
  lemma {:induction false} MemberLaid(c: Chain, more: seq<Token>, outer: seq<bool>, prev: Token) returns (after: Token)
    requires c.Link? && (prev == [OPEN_BRACE] || prev == [COMMA])
    ensures Ending(after)
    ensures Laid([Quoted(c.name), [COLON]] + Tokens(c.value) + more, outer + [true], prev)
         == [NEWLINE] + Tabs(|outer| + 1) + Quoted(c.name) + [COLON] + [TAB] + Text(c.value, |outer| + 1, true)
            + Laid(more, outer + [true], after)
    decreases c, 0
  {
    hide GapBefore, Opened, Laid, Lead, Text, Tokens, Tabs, Quoted;
    var open := outer + [true];
    var name := Quoted(c.name);
    var value := Tokens(c.value) + more;
    assert [name, [COLON]] + Tokens(c.value) + more == [name] + ([[COLON]] + value);
    NameGap(c.name, outer, prev);
    LaidOne(name, [[COLON]] + value, open, prev);
    LaidOne([COLON], value, open, name);
    after := ValueLaid(c.value, more, open, [COLON]);
    Brackets(open, name);
  }

  lemma {:induction false} NameGap(name: seq<byte>, outer: seq<bool>, prev: Token)
    requires prev == [OPEN_BRACE] || prev == [COMMA]
    ensures var open := outer + [true];
            && GapBefore(open, prev, Quoted(name)) == [NEWLINE] + Tabs(|outer| + 1)
            && Opened(open, Quoted(name)) == open && GapBefore(open, Quoted(name), [COLON]) == []
  {
  }

  lemma {:induction false} MemberThen(c: Chain, depth: nat, tabs: seq<byte>, rest: seq<byte>, tail: seq<byte>)
    requires c.Link? && tail == [NEWLINE] + MembersText(c.next, depth, true) + tabs + [CLOSE_BRACE] + rest
    ensures [NEWLINE] + Tabs(depth) + Quoted(c.name) + [COLON] + [TAB] + Text(c.value, depth, true)
              + (if c.next.Link? then [] + [COMMA] + tail else tail)
         == [NEWLINE] + MembersText(c, depth, true) + tabs + [CLOSE_BRACE] + rest
  {
    hide Text, Tabs, Quoted;
    var member := Tabs(depth) + Quoted(c.name) + [COLON] + [TAB] + Text(c.value, depth, true);
    var members := MembersText(c.next, depth, true);
    assert MemberText(c, depth, true) == member + (Only(c.next.Link?, [COMMA]) + [NEWLINE]);
    MemberSplice(member, members, tabs, rest);
  }

  lemma {:induction false} MemberSplice(member: seq<byte>, members: seq<byte>, tabs: seq<byte>, rest: seq<byte>)
    ensures var tail := [NEWLINE] + members + tabs + [CLOSE_BRACE] + rest;
            && [NEWLINE] + member + ([] + [COMMA] + tail) == [NEWLINE] + (member + ([COMMA] + [NEWLINE]) + members) + tabs + [CLOSE_BRACE] + rest
            && [NEWLINE] + member + tail == [NEWLINE] + (member + ([] + [NEWLINE]) + members) + tabs + [CLOSE_BRACE] + rest
  {
  }

  /** The printed texts: nothing between the tokens, or what the pretty printer puts there. */
  lemma {:induction false} TextLaid(t: Json)
    ensures Text(t, 0, false) == Flat(Tokens(t))
    ensures Text(t, 0, true) == Weave(Gaps(Tokens(t), [], []), Tokens(t))
  {
    hide Text, Tokens, Gaps, GapBefore;
    TextFlat(t, 0);
    var last := ValueLaid(t, [], [], []);
    assert Tokens(t) + [] == Tokens(t);
    NoneLaid(last);
  }

  lemma {:induction false} NoneLaid(last: Token)
    ensures Laid([], [], last) == [] && Lead([], []) == []
  {
  }
}
