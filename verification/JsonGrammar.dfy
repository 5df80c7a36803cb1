/** What a JSON text is for the bundled parser, stated over the value, and that exactly these texts are parsed. */
module JsonGrammar {
  import opened Prelude
  import opened JsonText
  import opened JsonStrings
  import opened JsonLiterals
  import opened JsonTokens
  import opened JsonParse

  // ----- blanks

  /** Blanks are skipped up to the first byte that is none: all bytes from 1 to 32 count. */
  lemma {:induction false} SkipIs(s: seq<byte>, p: nat, q: nat)
    requires p <= |s|
    ensures Skip(s, p) == q <==>
              p <= q <= |s| && (forall k :: p <= k < q ==> 1 <= s[k] <= 32) && !(1 <= Peek(s, q) <= 32)
    decreases |s| - p
  {
    if 0 < Peek(s, p) <= 32 {
      SkipIs(s, p + 1, q);
    }
  }

  lemma {:induction false} Skipped(s: seq<byte>, p: nat)
    requires p <= |s|
    ensures Skip(s, Skip(s, p)) == Skip(s, p)
    ensures Peek(s, Skip(s, p)) == 0 || Peek(s, Skip(s, p)) > 32
  {
    SkipIs(s, p, Skip(s, p));
    SkipIs(s, Skip(s, p), Skip(s, p));
  }

  // ----- numbers

  /** A sign, a zero, and a positive number without leading zeros: all three may be missing, but not at once. */
  function NumeralText(negative: bool, zero: bool, m: nat): seq<byte> {
    (if negative then [45] else []) + (if zero then [48] else []) + if m > 0 then Digits(m) else []
  }

  function Negated(negative: bool, m: int): int {
    if negative then -m else m
  }

  /** It stands here, no digit that would belong to it follows, and no fraction or exponent. */
  ghost predicate NumeralAt(s: seq<byte>, at: nat, negative: bool, zero: bool, m: nat, end: nat) {
    && NumeralText(negative, zero, m) != []
    && Has(s, at, NumeralText(negative, zero, m)) && end == at + |NumeralText(negative, zero, m)|
    && !((if m > 0 || !zero then 48 else 49) <= Peek(s, end) <= 57)
    && !(Peek(s, end) == 46 && 48 <= Peek(s, end + 1) <= 57) && Peek(s, end) != 101 && Peek(s, end) != 69
  }

  ghost predicate IsNumber(s: seq<byte>, at: nat, n: int, end: nat) {
    -0x8000_0000 <= n <= 0x7fff_ffff
    && exists negative, zero, m: nat :: NumeralAt(s, at, negative, zero, m, end) && n == Negated(negative, m)
  }

  lemma {:induction false} DigitsFirst(m: nat)
    requires m > 0
    ensures 49 <= Digits(m)[0] <= 57
  {
    if m >= 10 {
      DigitsFirst(m / 10);
    }
  }

  lemma {:induction false} DigitsRead(s: seq<byte>, p: nat, n: nat)
    requires Has(s, p, Digits(n))
    ensures p + |Digits(n)| <= |s| && ReadDigits(s, p, 0) == ReadDigits(s, p + |Digits(n)|, n)
    decreases n
  {
    if n < 10 {
      HasOne(s, p, Digit(n));
    } else {
      HasParts(s, p, Digits(n / 10), [Digit(n % 10)]);
      HasOne(s, p + |Digits(n / 10)|, Digit(n % 10));
      DigitsRead(s, p, n / 10);
    }
  }

  /** Where the sign, the zero and the digits of a numeral stand. */
  lemma {:induction false} NumeralParts(s: seq<byte>, at: nat, negative: bool, zero: bool, m: nat, end: nat)
    requires NumeralAt(s, at, negative, zero, m, end)
    ensures at < end <= |s|
    ensures var first := if negative then at + 1 else at;
            var second := if zero then first + 1 else first;
            && (if negative then s[at] == 45 else 48 <= s[at] <= 57)
            && first <= |s| && (Peek(s, first) == 48 <==> zero) && second <= |s|
            && (49 <= Peek(s, second) <= 57 <==> m > 0)
            && (m > 0 ==> Has(s, second, Digits(m))) && end == second + if m > 0 then |Digits(m)| else 0
  {
    var a, b, c := if negative then [45] else [], if zero then [48] else [], if m > 0 then Digits(m) else [];
    HasParts(s, at, a + b, c);
    HasParts(s, at, a, b);
    if negative {
      HasOne(s, at, 45);
    }
    if zero {
      HasOne(s, at + |a|, 48);
    }
    if m > 0 {
      DigitsFirst(m);
      HasAt(s, at + |a| + |b|, Digits(m), 0);
    }
  }

  lemma {:induction false} NumeralReads(s: seq<byte>, at: nat, negative: bool, zero: bool, m: nat, end: nat)
    requires NumeralAt(s, at, negative, zero, m, end)
    ensures at < |s| && (s[at] == MINUS || IsDigit(s[at]))
    ensures var n := Negated(negative, m); INT_MIN <= n <= INT_MAX ==> ParseNumber(s, at) == Parsed(n, end)
  {
    hide Has, NumeralText;
    NumeralParts(s, at, negative, zero, m, end);
    var first := if negative then at + 1 else at;
    var second := if zero then first + 1 else first;
    if m > 0 {
      DigitsRead(s, second, m);
      assert ReadDigits(s, end, m) == Run(m, end);
    }
  }

  /** The digits that have been read stand there. */
  lemma {:induction false} DigitsStand(s: seq<byte>, from: nat, p: nat, n: nat)
    requires from <= p <= |s| && (if n > 0 then s[from..p] == Digits(n) else p == from && 49 <= Peek(s, p) <= 57)
    ensures var run := ReadDigits(s, p, n);
            p <= run.end <= |s| && run.n > 0 && s[from..run.end] == Digits(run.n) && !IsDigit(Peek(s, run.end))
    decreases |s| - p
  {
    if IsDigit(Peek(s, p)) {
      var d := Peek(s, p) as int - 48;
      assert s[from..p + 1] == s[from..p] + [Digit(d)];
      assert (10 * n + d) / 10 == n && (10 * n + d) % 10 == d;
      DigitsStand(s, from, p + 1, n * 10 + d);
    }
  }

  lemma {:induction false} NumeralFound(s: seq<byte>, at: nat, n: int, end: nat)
    requires at < |s| && (s[at] == MINUS || IsDigit(s[at])) && ParseNumber(s, at) == Parsed(n, end)
    ensures IsNumber(s, at, n, end)
  {
    var negative := s[at] == MINUS;
    var first := if negative then at + 1 else at;
    var zero := Peek(s, first) == 48;
    var second := if zero then first + 1 else first;
    var m := 0;
    if 49 <= Peek(s, second) <= 57 {
      DigitsStand(s, second, second, 0);
      m := ReadDigits(s, second, 0).n;
    }
    Slices(s, at, first, second, end, negative, zero);
    HasSlice(s, at, end);
    assert s[at..end] == NumeralText(negative, zero, m);
    assert NumeralAt(s, at, negative, zero, m, end);
  }

  lemma {:induction false} Slices(s: seq<byte>, at: nat, first: nat, second: nat, end: nat, negative: bool, zero: bool)
    requires at <= first <= second <= end <= |s|
    requires first == (if negative then at + 1 else at) && (negative ==> s[at] == 45)
    requires second == (if zero then first + 1 else first) && (zero ==> s[first] == 48)
    ensures s[at..end] == (if negative then [45] else []) + (if zero then [48] else []) + s[second..end]
  {
  }

  /** Exactly the numerals in 32 bits are parsed as integers. */
  lemma {:induction false} NumberParsed(s: seq<byte>, at: nat, n: int, end: nat)
    requires at < |s| && (s[at] == MINUS || IsDigit(s[at]))
    ensures ParseNumber(s, at) == Parsed(n, end) <==> IsNumber(s, at, n, end)
  {
    hide NumeralAt, ParseNumber;
    if ParseNumber(s, at) == Parsed(n, end) {
      NumeralFound(s, at, n, end);
    }
    if IsNumber(s, at, n, end) {
      var negative, zero, m: nat :| NumeralAt(s, at, negative, zero, m, end) && n == Negated(negative, m);
      NumeralReads(s, at, negative, zero, m, end);
    }
  }

  // ----- values

  ghost predicate IsString(s: seq<byte>, at: nat, x: seq<byte>, end: nat) {
    exists xs :: Literal(s, at, xs, end) && ValueOf(xs) == x
  }

  /** The bytes from a position up to an end stand for this value. */
  ghost predicate IsValue(s: seq<byte>, at: nat, t: Json, end: nat)
    decreases t, 0
  {
    match t
    case Null => Has(s, at, NULL_TEXT) && end == at + 4
    case False => Has(s, at, FALSE_TEXT) && end == at + 5
    case True => Has(s, at, TRUE_TEXT) && end == at + 4
    case Number(n) => IsNumber(s, at, n, end)
    case String(x) => IsString(s, at, x, end)
    case Array(child) =>
      && Peek(s, at) == OPEN_BRACKET
      && if child.End? then Closes(s, at + 1, CLOSE_BRACKET, end) else AreItems(s, at + 1, child, end)
    case Object(child) =>
      && Peek(s, at) == OPEN_BRACE
      && if child.End? then Closes(s, at + 1, CLOSE_BRACE, end) else AreMembers(s, at + 1, child, end)
  }

  /** Behind blanks, the bracket that ends a list. */
  predicate Closes(s: seq<byte>, p: nat, bracket: byte, end: nat) {
    p <= |s| && Peek(s, Skip(s, p)) == bracket && end == Skip(s, p) + 1
  }

  /** From p on: the items, with commas between them, and the closing bracket. */
  ghost predicate AreItems(s: seq<byte>, p: nat, c: Chain, end: nat)
    decreases c, 1
  {
    c.Link? && c.name == [] && exists b :: ItemEndsAt(s, p, c, b, end)
  }

  ghost predicate ItemEndsAt(s: seq<byte>, p: nat, c: Chain, b: nat, end: nat)
    requires c.Link?
    decreases c, 0
  {
    && p <= |s| && b <= |s| && IsValue(s, Skip(s, p), c.value, b)
    && if c.next.End? then Closes(s, b, CLOSE_BRACKET, end)
       else Peek(s, Skip(s, b)) == COMMA && AreItems(s, Skip(s, b) + 1, c.next, end)
  }

  /** From p on: the members, with commas between them, and the closing brace. */
  ghost predicate AreMembers(s: seq<byte>, p: nat, c: Chain, end: nat)
    decreases c, 1
  {
    c.Link? && exists a, b :: MemberEndsAt(s, p, c, a, b, end)
  }

  ghost predicate MemberEndsAt(s: seq<byte>, p: nat, c: Chain, a: nat, b: nat, end: nat)
    requires c.Link?
    decreases c, 0
  {
    && p <= |s| && a <= |s| && b <= |s|
    && IsString(s, Skip(s, p), c.name, a)
    && Peek(s, Skip(s, a)) == COLON && Skip(s, a) < |s|
    && IsValue(s, Skip(s, Skip(s, a) + 1), c.value, b)
    && if c.next.End? then Closes(s, b, CLOSE_BRACE, end)
       else Peek(s, Skip(s, b)) == COMMA && AreMembers(s, Skip(s, b) + 1, c.next, end)
  }

  // ----- a value is parsed

  lemma {:induction false} NoKeyword(s: seq<byte>, at: nat)
    requires at < |s| && s[at] != 110 && s[at] != 102 && s[at] != 116
    ensures !Has(s, at, NULL_TEXT) && !Has(s, at, FALSE_TEXT) && !Has(s, at, TRUE_TEXT)
  {
    if Has(s, at, NULL_TEXT) {
      HasAt(s, at, NULL_TEXT, 0);
    }
    if Has(s, at, FALSE_TEXT) {
      HasAt(s, at, FALSE_TEXT, 0);
    }
    if Has(s, at, TRUE_TEXT) {
      HasAt(s, at, TRUE_TEXT, 0);
    }
  }

  lemma {:induction false} KeywordParses(s: seq<byte>, at: nat, t: Json, end: nat)
    requires (t.Null? || t.False? || t.True?) && IsValue(s, at, t, end)
    ensures at < |s| && ParseValue(s, at) == Parsed(t, end) && s[at] > 93
  {
    HasAt(s, at, Text(t, 0, false), 0);
    if Has(s, at, NULL_TEXT) {
      HasAt(s, at, NULL_TEXT, 0);
    }
    if Has(s, at, FALSE_TEXT) {
      HasAt(s, at, FALSE_TEXT, 0);
    }
  }

  lemma {:induction false} StringStarts(s: seq<byte>, at: nat, x: seq<byte>, end: nat)
    requires IsString(s, at, x, end)
    ensures at < |s| && s[at] == QUOTE && ParseString(s, at) == Parsed(x, end)
  {
    hide ParseString, SourceOf;
    var xs :| Literal(s, at, xs, end) && ValueOf(xs) == x;
    LiteralReads(s, at, xs, end);
    QuoteStands(s, at, xs, end);
  }

  lemma {:induction false} QuoteStands(s: seq<byte>, at: nat, xs: seq<Char>, end: nat)
    requires Literal(s, at, xs, end)
    ensures at < |s| && s[at] == QUOTE
  {
    hide Has;
    HasParts(s, at, [QUOTE], SourceOf(xs));
    HasOne(s, at, QUOTE);
  }

  lemma {:induction false} NumberStarts(s: seq<byte>, at: nat, n: int, end: nat)
    requires IsNumber(s, at, n, end)
    ensures at < |s| && (s[at] == MINUS || IsDigit(s[at])) && ParseNumber(s, at) == Parsed(n, end)
  {
    hide NumeralAt, ParseNumber;
    var negative, zero, m: nat :| NumeralAt(s, at, negative, zero, m, end) && n == Negated(negative, m);
    NumeralReads(s, at, negative, zero, m, end);
  }

  /** A value starts with a byte of its own. */
  lemma {:induction false} ValueStarts(s: seq<byte>, at: nat, t: Json, end: nat)
    requires IsValue(s, at, t, end)
    ensures at < |s| && s[at] > 32 && s[at] != CLOSE_BRACKET
  {
    hide AreItems, AreMembers, IsString, IsNumber;
    match t
    case Number(n) => NumberStarts(s, at, n, end);
    case String(x) => StringStarts(s, at, x, end);
    case Array(_) =>
    case Object(_) =>
    case _ => KeywordParses(s, at, t, end);
  }

  lemma {:induction false} ValueParses(s: seq<byte>, at: nat, t: Json, end: nat)
    requires IsValue(s, at, t, end)
    ensures at < |s| && ParseValue(s, at) == Parsed(t, end)
    decreases t, 1
  {
    hide AreItems, AreMembers, IsString, IsNumber, ParseArray, ParseObject, ParseString, ParseNumber, Has;
    match t
    case Number(n) =>
      NumberStarts(s, at, n, end);
      NoKeyword(s, at);
    case String(x) =>
      StringStarts(s, at, x, end);
      NoKeyword(s, at);
    case Array(child) =>
      NoKeyword(s, at);
      ArrayParses(s, at, child, end);
    case Object(child) =>
      NoKeyword(s, at);
      ObjectParses(s, at, child, end);
    case _ =>
      KeywordParses(s, at, t, end);
  }

  lemma {:induction false} ArrayParses(s: seq<byte>, at: nat, child: Chain, end: nat)
    requires IsValue(s, at, Array(child), end)
    ensures at < |s| && ParseArray(s, at) == Parsed(Array(child), end)
    decreases child, 2
  {
    hide ParseItems;
    if child.Link? {
      ItemsParse(s, at + 1, child, end);
      FirstItem(s, at + 1, child, end);
      ItemsFrom(s, at + 1);
    }
  }

  lemma {:induction false} FirstItem(s: seq<byte>, p: nat, c: Chain, end: nat)
    requires AreItems(s, p, c, end)
    ensures p <= |s| && Peek(s, Skip(s, p)) != CLOSE_BRACKET
  {
    hide IsValue;
    var b :| ItemEndsAt(s, p, c, b, end);
    ValueStarts(s, Skip(s, p), c.value, b);
  }

  lemma {:induction false} ItemsFrom(s: seq<byte>, p: nat)
    requires p <= |s|
    ensures ParseItems(s, Skip(s, p)) == ParseItems(s, p)
  {
    Skipped(s, p);
  }

  lemma {:induction false} ItemsParse(s: seq<byte>, p: nat, c: Chain, end: nat)
    requires AreItems(s, p, c, end)
    ensures p <= |s| && ParseItems(s, p) == Parsed(c, end)
    decreases c, 1
  {
    hide IsValue, AreItems, ParseValue, Onto, Skip;
    assert c.Link? && c.name == [] && exists b :: ItemEndsAt(s, p, c, b, end) by {
      ItemsAre(s, p, c, end);
    }
    var b :| ItemEndsAt(s, p, c, b, end);
    ValueParses(s, Skip(s, p), c.value, b);
    if c.next.Link? {
      ItemsParse(s, Skip(s, b) + 1, c.next, end);
    }
    OntoItem(c, MoreItems(s, Skip(s, b)));
  }

  lemma {:induction false} ItemsAre(s: seq<byte>, p: nat, c: Chain, end: nat)
    requires AreItems(s, p, c, end)
    ensures c.Link? && c.name == [] && exists b :: ItemEndsAt(s, p, c, b, end)
  {
    hide ItemEndsAt;
  }

  /** A child in front of the others. */
  lemma {:induction false} OntoItem(c: Chain, r: Parsed<Chain>)
    requires c.Link? && r.Parsed? && r.value == c.next
    ensures Onto(Link(c.name, c.value, End), r) == Parsed(c, r.end)
  {
    assert Concat(End, c.next) == c.next;
  }

  lemma {:induction false} ObjectParses(s: seq<byte>, at: nat, child: Chain, end: nat)
    requires IsValue(s, at, Object(child), end)
    ensures at < |s| && ParseObject(s, at) == Parsed(Object(child), end)
    decreases child, 3
  {
    hide ParseMembers;
    if child.Link? {
      MembersParse(s, at + 1, child, end);
      FirstName(s, at + 1, child, end);
      MembersFrom(s, at + 1);
    }
  }

  lemma {:induction false} FirstName(s: seq<byte>, p: nat, c: Chain, end: nat)
    requires AreMembers(s, p, c, end)
    ensures p <= |s| && Peek(s, Skip(s, p)) != CLOSE_BRACE
  {
    hide IsValue, IsString;
    var a, b :| MemberEndsAt(s, p, c, a, b, end);
    StringStarts(s, Skip(s, p), c.name, a);
  }

  lemma {:induction false} MembersFrom(s: seq<byte>, p: nat)
    requires p <= |s|
    ensures ParseMembers(s, Skip(s, p)) == ParseMembers(s, p)
  {
    Skipped(s, p);
  }

  lemma {:induction false} MembersAre(s: seq<byte>, p: nat, c: Chain, end: nat)
    requires AreMembers(s, p, c, end)
    ensures c.Link? && exists a, b :: MemberEndsAt(s, p, c, a, b, end)
  {
    hide MemberEndsAt;
  }

  lemma {:induction false} MembersParse(s: seq<byte>, p: nat, c: Chain, end: nat)
    requires AreMembers(s, p, c, end)
    ensures p <= |s| && ParseMembers(s, p) == Parsed(c, end)
    decreases c, 2
  {
    hide IsValue, AreMembers, ParseValue, ParseString, IsString, Onto, Skip;
    MembersAre(s, p, c, end);
    var a, b :| MemberEndsAt(s, p, c, a, b, end);
    StringStarts(s, Skip(s, p), c.name, a);
    ValueParses(s, Skip(s, Skip(s, a) + 1), c.value, b);
    if c.next.Link? {
      MembersParse(s, Skip(s, b) + 1, c.next, end);
    }
    OntoItem(c, MoreMembers(s, Skip(s, b)));
  }

  // ----- what is parsed is a value

  lemma {:induction false} ValueFound(s: seq<byte>, at: nat, t: Json, end: nat)
    requires at <= |s| && ParseValue(s, at) == Parsed(t, end)
    ensures IsValue(s, at, t, end)
    decreases |s| - at, 1
  {
    hide AreItems, AreMembers, IsNumber, ParseArray, ParseObject, ParseString, ParseNumber, Has, Literal;
    var c := Peek(s, at);
    if Has(s, at, NULL_TEXT) || Has(s, at, FALSE_TEXT) || Has(s, at, TRUE_TEXT) {
    } else if c == QUOTE {
      StringParsed(s, at, t.valuestring, end);
    } else if c == MINUS || IsDigit(c) {
      NumberParsed(s, at, t.valueint, end);
    } else if c == OPEN_BRACKET {
      ArrayFound(s, at, t, end);
    } else {
      ObjectFound(s, at, t, end);
    }
  }

  lemma {:induction false} ArrayFound(s: seq<byte>, at: nat, t: Json, end: nat)
    requires at < |s| && s[at] == OPEN_BRACKET && ParseArray(s, at) == Parsed(t, end)
    ensures t.Array? && IsValue(s, at, t, end)
    decreases |s| - at, 0
  {
    hide ParseItems, AreItems, Skip;
    if Peek(s, Skip(s, at + 1)) != CLOSE_BRACKET {
      ItemsFrom(s, at + 1);
      ItemsFound(s, at + 1, t.child, end);
    }
  }

  lemma {:induction false} ItemsFound(s: seq<byte>, p: nat, c: Chain, end: nat)
    requires p <= |s| && ParseItems(s, p) == Parsed(c, end)
    ensures c.Link? && AreItems(s, p, c, end)
    decreases |s| - p, 2
  {
    hide IsValue, ParseValue, Skip;
    var r := ParseValue(s, Skip(s, p));
    ValueFound(s, Skip(s, p), r.value, r.end);
    var q := Skip(s, r.end);
    assert Concat(Link([], r.value, End), MoreItems(s, q).value) == Link([], r.value, MoreItems(s, q).value);
    if Peek(s, q) == COMMA {
      ItemsFound(s, q + 1, c.next, end);
    }
    assert ItemEndsAt(s, p, c, r.end, end);
  }

  lemma {:induction false} ObjectFound(s: seq<byte>, at: nat, t: Json, end: nat)
    requires at < |s| && s[at] == OPEN_BRACE && ParseObject(s, at) == Parsed(t, end)
    ensures t.Object? && IsValue(s, at, t, end)
    decreases |s| - at, 0
  {
    hide ParseMembers, AreMembers, Skip;
    if Peek(s, Skip(s, at + 1)) != CLOSE_BRACE {
      MembersFrom(s, at + 1);
      MembersFound(s, at + 1, t.child, end);
    }
  }

  lemma {:induction false} MembersFound(s: seq<byte>, p: nat, c: Chain, end: nat)
    requires p <= |s| && ParseMembers(s, p) == Parsed(c, end)
    ensures c.Link? && AreMembers(s, p, c, end)
    decreases |s| - p, 2
  {
    hide IsValue, ParseValue, ParseString, IsString, Skip, ParseMember;
    var r := ParseMember(s, p);
    var a, b, name, value := MemberFound(s, p, r);
    var q := Skip(s, b);
    assert Concat(Link(name, value, End), MoreMembers(s, q).value) == Link(name, value, MoreMembers(s, q).value);
    if Peek(s, q) == COMMA {
      MembersFound(s, q + 1, c.next, end);
    }
    assert MemberEndsAt(s, p, c, a, b, end);
  }

  lemma {:induction false} MemberFound(s: seq<byte>, p: nat, r: Parsed<Chain>) returns (a: nat, b: nat, name: seq<byte>, value: Json)
    requires p <= |s| && r.Parsed? && r == ParseMember(s, p)
    ensures a <= |s| && b == r.end <= |s| && r.value == Link(name, value, End) && p < b
    ensures IsString(s, Skip(s, p), name, a) && Peek(s, Skip(s, a)) == COLON && Skip(s, a) < |s|
    ensures IsValue(s, Skip(s, Skip(s, a) + 1), value, b)
    decreases |s| - p, 1
  {
    hide IsValue, ParseValue, ParseString, Literal, Skip;
    var n := ParseString(s, Skip(s, p));
    StringParsed(s, Skip(s, p), n.value, n.end);
    a, name := n.end, n.value;
    var first := Skip(s, Skip(s, a) + 1);
    var v := ParseValue(s, first);
    value, b := v.value, v.end;
    ValueFound(s, first, value, b);
  }

  /** Exactly the texts of values are parsed, each as its value, and up to its end: everything else is rejected, or is
      a number that is not modelled. */
  lemma {:induction false} ValueParsed(s: seq<byte>, at: nat, t: Json, end: nat)
    requires at <= |s|
    ensures ParseValue(s, at) == Parsed(t, end) <==> IsValue(s, at, t, end)
  {
    hide IsValue, ParseValue;
    if ParseValue(s, at) == Parsed(t, end) {
      ValueFound(s, at, t, end);
    }
    if IsValue(s, at, t, end) {
      ValueParses(s, at, t, end);
    }
  }

  // ----- where parsing stops

  /** No value starts here. */
  predicate NoStart(s: seq<byte>, at: nat) {
    && !Has(s, at, NULL_TEXT) && !Has(s, at, FALSE_TEXT) && !Has(s, at, TRUE_TEXT)
    && Peek(s, at) !in {QUOTE, MINUS, OPEN_BRACKET, OPEN_BRACE} && !(48 <= Peek(s, at) <= 57)
  }

  /** A quote that starts no literal, though the literal ends. */
  ghost predicate BadLiteral(s: seq<byte>, at: nat) {
    at < |s| && s[at] == QUOTE && StringEnd(s, at + 1) <= |s| && forall x, end :: !IsString(s, at, x, end)
  }

  /** Reading a value from `at` on gets stuck at e. */
  ghost predicate Stuck(s: seq<byte>, at: nat, e: nat)
    requires at <= |s|
    decreases |s| - at, 0
  {
    || (e == at && (NoStart(s, at) || BadLiteral(s, at)))
    || (at < |s| && s[at] == OPEN_BRACKET && Peek(s, Skip(s, at + 1)) != CLOSE_BRACKET && StuckItems(s, at + 1, e))
    || (at < |s| && s[at] == OPEN_BRACE && Peek(s, Skip(s, at + 1)) != CLOSE_BRACE && StuckMembers(s, at + 1, e))
  }

  /** Reading items gets stuck: in the next one, behind it where neither a comma nor the bracket stands, or later. */
  ghost predicate StuckItems(s: seq<byte>, p: nat, e: nat)
    requires p <= |s|
    decreases |s| - p, 2
  {
    Stuck(s, Skip(s, p), e) || exists t, b :: IsValue(s, Skip(s, p), t, b) && StuckBehind(s, p, b, e)
  }

  ghost predicate StuckBehind(s: seq<byte>, p: nat, b: nat, e: nat)
    requires p <= |s|
    decreases |s| - p, 1
  {
    && p < b <= |s|
    && if Peek(s, Skip(s, b)) == COMMA then StuckItems(s, Skip(s, b) + 1, e)
       else e == Skip(s, b) && Peek(s, e) != CLOSE_BRACKET
  }

  /** Reading members gets stuck: in the next name, behind it where no colon stands, in the value, behind it where
      neither a comma nor the brace stands, or later. */
  ghost predicate StuckMembers(s: seq<byte>, p: nat, e: nat)
    requires p <= |s|
    decreases |s| - p, 4
  {
    || (e == Skip(s, p) && (Peek(s, e) != QUOTE || BadLiteral(s, e)))
    || exists x, a :: IsString(s, Skip(s, p), x, a) && StuckAtColon(s, p, a, e)
  }

  ghost predicate StuckAtColon(s: seq<byte>, p: nat, a: nat, e: nat)
    requires p <= |s|
    decreases |s| - p, 3
  {
    && p < a <= |s|
    && if Peek(s, Skip(s, a)) != COLON then e == Skip(s, a)
       else StuckValue(s, Skip(s, a) + 1, e)
  }

  ghost predicate StuckValue(s: seq<byte>, p: nat, e: nat)
    requires p <= |s|
    decreases |s| - p, 2
  {
    Stuck(s, Skip(s, p), e) || exists t, b :: IsValue(s, Skip(s, p), t, b) && StuckAfter(s, p, b, e)
  }

  ghost predicate StuckAfter(s: seq<byte>, p: nat, b: nat, e: nat)
    requires p <= |s|
    decreases |s| - p, 1
  {
    && p < b <= |s|
    && if Peek(s, Skip(s, b)) == COMMA then StuckMembers(s, Skip(s, b) + 1, e)
       else e == Skip(s, b) && Peek(s, e) != CLOSE_BRACE
  }

  lemma {:induction false} StringMalformed(s: seq<byte>, at: nat, e: nat)
    requires at < |s| && s[at] == QUOTE
    ensures ParseString(s, at) == Malformed(e) <==> e == at && BadLiteral(s, at)
  {
    hide StringEnd, Unescape, IsString;
    if BadLiteral(s, at) && ParseString(s, at).Parsed? {
      var r := ParseString(s, at);
      StringParsedIs(s, at, r.value, r.end);
    }
    if ParseString(s, at).Malformed? {
      forall x, end
        ensures !IsString(s, at, x, end)
      {
        StringParsedIs(s, at, x, end);
      }
    }
  }

  lemma {:induction false} StringParsedIs(s: seq<byte>, at: nat, x: seq<byte>, end: nat)
    requires at <= |s|
    ensures ParseString(s, at) == Parsed(x, end) <==> IsString(s, at, x, end)
  {
    hide ParseString;
    StringParsed(s, at, x, end);
  }

  /** Exactly where parsing gets stuck, the error is reported. */
  lemma {:induction false} ErrorAt(s: seq<byte>, at: nat, e: nat)
    requires at <= |s|
    ensures ParseValue(s, at) == Malformed(e) <==> Stuck(s, at, e)
    decreases |s| - at, 0
  {
    hide ParseString, ParseNumber, ParseItems, ParseMembers, StuckItems, StuckMembers, BadLiteral, Has, Skip;
    var c := Peek(s, at);
    KeywordFirst(s, at);
    if c == QUOTE {
      StringMalformed(s, at, e);
    } else {
      NotBad(s, at);
      if c == OPEN_BRACKET {
        ItemsFrom(s, at + 1);
        ItemsErrorAt(s, at + 1, e);
      } else if c == OPEN_BRACE {
        MembersFrom(s, at + 1);
        MembersErrorAt(s, at + 1, e);
      } else if c == MINUS || IsDigit(c) {
        NumberNeverMalformed(s, at);
      }
    }
  }

  lemma {:induction false} NotBad(s: seq<byte>, at: nat)
    requires Peek(s, at) != QUOTE
    ensures !BadLiteral(s, at)
  {
  }

  lemma {:induction false} NumberNeverMalformed(s: seq<byte>, at: nat)
    requires at < |s| && (s[at] == MINUS || IsDigit(s[at]))
    ensures !ParseNumber(s, at).Malformed?
  {
  }

  /** A keyword starts with a letter. */
  lemma {:induction false} KeywordFirst(s: seq<byte>, at: nat)
    ensures Has(s, at, NULL_TEXT) || Has(s, at, FALSE_TEXT) || Has(s, at, TRUE_TEXT) ==> at < |s| && s[at] in {110, 102, 116}
  {
    if at < |s| && s[at] !in {110, 102, 116} {
      NoKeyword(s, at);
    }
  }

  lemma {:induction false} ValueParsedIs(s: seq<byte>, at: nat)
    requires at <= |s|
    ensures ParseValue(s, at).Parsed? ==> at < ParseValue(s, at).end <= |s| && IsValue(s, at, ParseValue(s, at).value, ParseValue(s, at).end)
    ensures forall t, b :: IsValue(s, at, t, b) ==> ParseValue(s, at) == Parsed(t, b)
  {
    hide IsValue, ParseValue;
    var r := ParseValue(s, at);
    if r.Parsed? {
      ValueFound(s, at, r.value, r.end);
    }
    forall t, b | IsValue(s, at, t, b)
      ensures ParseValue(s, at) == Parsed(t, b)
    {
      ValueParses(s, at, t, b);
    }
  }

  lemma {:induction false} ItemsErrorAt(s: seq<byte>, p: nat, e: nat)
    requires p <= |s|
    ensures ParseItems(s, p) == Malformed(e) <==> StuckItems(s, p, e)
    decreases |s| - p, 1
  {
    hide ParseValue, IsValue, Stuck, Skip;
    var a := Skip(s, p);
    ErrorAt(s, a, e);
    ValueParsedIs(s, a);
    var r := ParseValue(s, a);
    if r.Parsed? {
      var q := Skip(s, r.end);
      if Peek(s, q) == COMMA {
        ItemsErrorAt(s, q + 1, e);
      }
      assert ParseItems(s, p) == Malformed(e) <==> StuckBehind(s, p, r.end, e);
    }
  }

  lemma {:induction false} MembersErrorAt(s: seq<byte>, p: nat, e: nat)
    requires p <= |s|
    ensures ParseMembers(s, p) == Malformed(e) <==> StuckMembers(s, p, e)
    decreases |s| - p, 2
  {
    hide ParseString, IsString, Skip, BadLiteral, StuckAtColon, ParseMembers, StuckMembers;
    var n := Skip(s, p);
    var name := ParseString(s, n);
    NameError(s, p, e);
    if name.Parsed? {
      MemberErrorAt(s, p, name.value, name.end, e);
    }
  }

  /** What the name decides. */
  lemma {:induction false} NameError(s: seq<byte>, p: nat, e: nat)
    requires p <= |s|
    ensures var n := Skip(s, p); var name := ParseString(s, n);
            && (name.Parsed? ==> (StuckMembers(s, p, e) <==> StuckAtColon(s, p, name.end, e)))
            && (!name.Parsed? ==> (ParseMembers(s, p) == Malformed(e) <==> StuckMembers(s, p, e)))
  {
    hide ParseString, IsString, Skip, StuckAtColon, StringEnd;
    var n := Skip(s, p);
    if Peek(s, n) == QUOTE {
      StringMalformed(s, n, e);
    } else {
      NoString(s, n);
    }
    var name := ParseString(s, n);
    forall x, a
      ensures name == Parsed(x, a) <==> IsString(s, n, x, a)
    {
      StringParsedIs(s, n, x, a);
    }
    if name.Parsed? && Peek(s, n) == QUOTE {
      assert IsString(s, n, name.value, name.end);
    }
  }

  lemma {:induction false} NoString(s: seq<byte>, at: nat)
    requires at <= |s| && Peek(s, at) != QUOTE
    ensures ParseString(s, at) == Malformed(at) && !BadLiteral(s, at)
  {
  }

  lemma {:induction false} MemberErrorAt(s: seq<byte>, p: nat, x: seq<byte>, a: nat, e: nat)
    requires p <= |s| && ParseString(s, Skip(s, p)) == Parsed(x, a)
    ensures ParseMembers(s, p) == Malformed(e) <==> StuckAtColon(s, p, a, e)
    decreases |s| - p, 1
  {
    hide ParseString, ParseValue, IsValue, Stuck, Skip;
    var c := Skip(s, a);
    if Peek(s, c) == COLON {
      var v := Skip(s, c + 1);
      ErrorAt(s, v, e);
      ValueParsedIs(s, v);
      var r := ParseValue(s, v);
      if r.Parsed? {
        var q := Skip(s, r.end);
        if Peek(s, q) == COMMA {
          MembersErrorAt(s, q + 1, e);
        }
        assert ParseMembers(s, p) == Malformed(e) <==> StuckAfter(s, c + 1, r.end, e);
      }
    }
  }

  // ----- tokens

  /** The tokens lie here one after another, with any blanks before each. */
  ghost predicate Lies(s: seq<byte>, p: nat, ts: seq<Token>, end: nat)
    decreases |ts|
  {
    && p <= |s|
    && if ts == [] then end == p else Has(s, Skip(s, p), ts[0]) && Lies(s, Skip(s, p) + |ts[0]|, ts[1..], end)
  }

  lemma {:induction false} LiesSplit(s: seq<byte>, p: nat, a: seq<Token>, b: seq<Token>, end: nat) returns (m: nat)
    requires Lies(s, p, a + b, end)
    ensures Lies(s, p, a, m) && Lies(s, m, b, end)
    decreases |a|
  {
    hide Has;
    if a == [] {
      assert a + b == b;
      m := p;
    } else {
      assert (a + b)[1..] == a[1..] + b;
      m := LiesSplit(s, Skip(s, p) + |a[0]|, a[1..], b, end);
    }
  }

  lemma {:induction false} LiesOne(s: seq<byte>, p: nat, t: Token, end: nat)
    requires Lies(s, p, [t], end)
    ensures p <= |s| && Has(s, Skip(s, p), t) && end == Skip(s, p) + |t| <= |s|
  {
    assert [t][1..] == [];
  }

  lemma {:induction false} LiesByte(s: seq<byte>, p: nat, c: byte, end: nat)
    requires Lies(s, p, [[c]], end)
    ensures p <= |s| && Peek(s, Skip(s, p)) == c && Skip(s, p) < |s| && end == Skip(s, p) + 1
  {
    hide Has;
    LiesOne(s, p, [c], end);
    HasOne(s, Skip(s, p), c);
  }

  /** No digit, point or exponent follows. */
  predicate Stops(c: byte) {
    !IsDigit(c) && c != 46 && c != 101 && c != 69
  }

  /** Before a mark, perhaps behind blanks, a number ends. */
  lemma {:induction false} StopsBefore(s: seq<byte>, p: nat)
    requires p <= |s| && Stops(Peek(s, Skip(s, p)))
    ensures Stops(Peek(s, p))
  {
    SkipIs(s, p, Skip(s, p));
  }

  lemma {:induction false} NumberStands(s: seq<byte>, at: nat, n: int)
    requires Has(s, at, NumberText(n)) && INT_MIN <= n <= INT_MAX && Stops(Peek(s, at + |NumberText(n)|))
    ensures IsNumber(s, at, n, at + |NumberText(n)|)
  {
    var m: nat := if n < 0 then -n else n;
    assert NumberText(n) == NumeralText(n < 0, n == 0, m);
    assert NumeralAt(s, at, n < 0, n == 0, m, at + |NumberText(n)|);
  }

  lemma {:induction false} StringStands(s: seq<byte>, at: nat, x: seq<byte>)
    requires 0 !in x && Has(s, at, Quoted(x))
    ensures IsString(s, at, x, at + |Quoted(x)|)
  {
    StringReads(s, at, x);
    HasAt(s, at, Quoted(x), 0);
    StringParsed(s, at, x, at + |Quoted(x)|);
  }

  /** The tokens of a value, with any blanks between them, stand for the value. */
  lemma {:induction false} TokensStand(s: seq<byte>, p: nat, t: Json, end: nat)
    requires Holdable(t) && Lies(s, p, Tokens(t), end) && (t.Number? ==> Stops(Peek(s, end)))
    ensures p <= end <= |s| && IsValue(s, Skip(s, p), t, end)
    decreases t, 1
  {
    hide Has, Quoted, NumberText, IsNumber, IsString, Lies, ItemTokens, MemberTokens, AreItems, AreMembers, Items, Members;
    match t
    case Array(child) =>
      var a := LiesSplit(s, p, [[OPEN_BRACKET]] + ItemTokens(child), [[CLOSE_BRACKET]], end);
      var b := LiesSplit(s, p, [[OPEN_BRACKET]], ItemTokens(child), a);
      LiesByte(s, p, OPEN_BRACKET, b);
      LiesByte(s, a, CLOSE_BRACKET, end);
      ItemsStand(s, b, child, a, end);
    case Object(child) =>
      var a := LiesSplit(s, p, [[OPEN_BRACE]] + MemberTokens(child), [[CLOSE_BRACE]], end);
      var b := LiesSplit(s, p, [[OPEN_BRACE]], MemberTokens(child), a);
      LiesByte(s, p, OPEN_BRACE, b);
      LiesByte(s, a, CLOSE_BRACE, end);
      MembersStand(s, b, child, a, end);
    case Number(n) =>
      LiesOne(s, p, NumberText(n), end);
      NumberStands(s, Skip(s, p), n);
    case String(x) =>
      LiesOne(s, p, Quoted(x), end);
      StringStands(s, Skip(s, p), x);
    case _ =>
      LiesOne(s, p, Tokens(t)[0], end);
  }

  lemma {:induction false} ItemsStand(s: seq<byte>, p: nat, c: Chain, m: nat, end: nat)
    requires Items(c) && Lies(s, p, ItemTokens(c), m) && Closes(s, m, CLOSE_BRACKET, end)
    ensures p <= m <= |s|
    ensures if c.End? then Closes(s, p, CLOSE_BRACKET, end) else AreItems(s, p, c, end)
    decreases c, 0
  {
    hide Has, IsValue, Tokens, Holdable;
    if c.Link? {
      var a := LiesSplit(s, p, Tokens(c.value) + Commas(c.next), ItemTokens(c.next), m);
      var b := LiesSplit(s, p, Tokens(c.value), Commas(c.next), a);
      ItemsStand(s, a, c.next, m, end);
      if c.next.Link? {
        LiesByte(s, b, COMMA, a);
      }
      ValueEnds(s, b, c.next, a, CLOSE_BRACKET, end);
      TokensStand(s, p, c.value, b);
      assert ItemEndsAt(s, p, c, b, end);
    }
  }

  /** Behind a value, a comma or the closing bracket follows. */
  lemma {:induction false} ValueEnds(s: seq<byte>, b: nat, next: Chain, a: nat, bracket: byte, end: nat)
    requires Lies(s, b, Commas(next), a) && (bracket == CLOSE_BRACKET || bracket == CLOSE_BRACE)
    requires if next.End? then Closes(s, a, bracket, end) else b <= |s| && Peek(s, Skip(s, b)) == COMMA
    ensures b <= |s| && Stops(Peek(s, b))
  {
    hide Has;
    StopsBefore(s, b);
  }

  lemma {:induction false} MembersStand(s: seq<byte>, p: nat, c: Chain, m: nat, end: nat)
    requires Members(c) && Lies(s, p, MemberTokens(c), m) && Closes(s, m, CLOSE_BRACE, end)
    ensures p <= m <= |s|
    ensures if c.End? then Closes(s, p, CLOSE_BRACE, end) else AreMembers(s, p, c, end)
    decreases c, 0
  {
    hide Has, IsValue, IsString, Tokens, Holdable, Quoted;
    if c.Link? {
      var name := Quoted(c.name);
      var a := LiesSplit(s, p, [name, [COLON]] + Tokens(c.value) + Commas(c.next), MemberTokens(c.next), m);
      var b := LiesSplit(s, p, [name, [COLON]] + Tokens(c.value), Commas(c.next), a);
      var q := LiesSplit(s, p, [name, [COLON]], Tokens(c.value), b);
      assert [name, [COLON]] == [name] + [[COLON]];
      var e := LiesSplit(s, p, [name], [[COLON]], q);
      LiesOne(s, p, name, e);
      StringStands(s, Skip(s, p), c.name);
      LiesByte(s, e, COLON, q);
      MembersStand(s, a, c.next, m, end);
      if c.next.Link? {
        LiesByte(s, b, COMMA, a);
      }
      ValueEnds(s, b, c.next, a, CLOSE_BRACE, end);
      TokensStand(s, q, c.value, b);
      assert MemberEndsAt(s, p, c, e, b, end);
    }
  }

  // ----- woven texts

  /** The gap holds blanks only: any bytes from 1 to 32. */
  predicate AllBlank(gap: seq<byte>) {
    forall k :: 0 <= k < |gap| ==> 1 <= gap[k] <= 32
  }

  ghost predicate BlankGaps(gaps: seq<seq<byte>>) {
    forall i :: 0 <= i < |gaps| ==> AllBlank(gaps[i])
  }

  /** Tokens that are not empty, and do not start with a blank. */
  ghost predicate Solid(ts: seq<Token>) {
    forall i :: 0 <= i < |ts| ==> SolidToken(ts[i])
  }

  predicate SolidToken(t: Token) {
    t != [] && t[0] > 32
  }

  lemma {:induction false} GapSkipped(s: seq<byte>, p: nat, gap: seq<byte>, t: Token)
    requires Has(s, p, gap) && Has(s, p + |gap|, t) && AllBlank(gap) && SolidToken(t)
    ensures p <= |s| && Skip(s, p) == p + |gap|
  {
    forall k | p <= k < p + |gap|
      ensures 1 <= s[k] <= 32
    {
      HasAt(s, p, gap, k - p);
    }
    HasAt(s, p + |gap|, t, 0);
    SkipIs(s, p, p + |gap|);
  }

  lemma {:induction false} WeaveLies(s: seq<byte>, p: nat, gaps: seq<seq<byte>>, ts: seq<Token>)
    requires |gaps| == |ts| && BlankGaps(gaps) && Solid(ts) && Has(s, p, Weave(gaps, ts))
    ensures Lies(s, p, ts, p + |Weave(gaps, ts)|)
    decreases |ts|
  {
    hide AllBlank, SolidToken;
    if ts != [] {
      hide Has;
      HasParts(s, p, gaps[0] + ts[0], Weave(gaps[1..], ts[1..]));
      HasParts(s, p, gaps[0], ts[0]);
      GapSkipped(s, p, gaps[0], ts[0]);
      WeaveLies(s, p + |gaps[0]| + |ts[0]|, gaps[1..], ts[1..]);
    }
  }

  lemma {:induction false} TokensSolid(t: Json)
    ensures Solid(Tokens(t))
    decreases t, 1
  {
    hide SolidToken, Quoted, NumberText;
    match t
    case Array(child) => ItemsSolid(child); MarksSolid();
    case Object(child) => MembersSolid(child); MarksSolid();
    case Number(n) => FirstByte(n); MarksSolid(); NumberSolid(n);
    case String(x) => QuotedSolid(x);
    case _ => MarksSolid();
  }

  lemma {:induction false} NumberSolid(n: int)
    ensures SolidToken(NumberText(n))
  {
    FirstByte(n);
  }

  lemma {:induction false} QuotedSolid(x: seq<byte>)
    ensures SolidToken(Quoted(x))
  {
  }

  lemma {:induction false} MarksSolid()
    ensures SolidToken([OPEN_BRACKET]) && SolidToken([CLOSE_BRACKET]) && SolidToken([OPEN_BRACE]) && SolidToken([CLOSE_BRACE])
    ensures SolidToken([COMMA]) && SolidToken([COLON])
    ensures SolidToken(NULL_TEXT) && SolidToken(FALSE_TEXT) && SolidToken(TRUE_TEXT)
  {
  }

  lemma {:induction false} ItemsSolid(c: Chain)
    ensures Solid(ItemTokens(c))
    decreases c, 0
  {
    hide SolidToken, Tokens;
    MarksSolid();
    if c.Link? {
      TokensSolid(c.value);
      ItemsSolid(c.next);
    }
  }

  lemma {:induction false} MembersSolid(c: Chain)
    ensures Solid(MemberTokens(c))
    decreases c, 0
  {
    hide SolidToken, Tokens, Quoted;
    MarksSolid();
    if c.Link? {
      QuotedSolid(c.name);
      TokensSolid(c.value);
      MembersSolid(c.next);
    }
  }

  /** A value's tokens with any blanks before each of them are parsed as the value, wherever they stand. */
  lemma {:induction false} WovenReads(s: seq<byte>, p: nat, t: Json, gaps: seq<seq<byte>>)
    requires Holdable(t) && |gaps| == |Tokens(t)| && BlankGaps(gaps) && Has(s, p, Weave(gaps, Tokens(t)))
    requires t.Number? ==> Stops(Peek(s, p + |Weave(gaps, Tokens(t))|))
    ensures p <= |s| && ParseValue(s, Skip(s, p)) == Parsed(t, p + |Weave(gaps, Tokens(t))|)
  {
    hide Has, Lies, IsValue, Weave, Tokens, Holdable, ParseValue;
    var end := p + |Weave(gaps, Tokens(t))|;
    TokensSolid(t);
    WeaveLies(s, p, gaps, Tokens(t));
    TokensStand(s, p, t, end);
    ValueParses(s, Skip(s, p), t, end);
  }
}
