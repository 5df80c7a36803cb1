/** parse_value, parse_number, parse_array and parse_object (ext/cJSON/cJSON.c:94-125, 436-440, 490-610, 708-757). */
module JsonParse {
  import opened Prelude
  import opened JsonText
  import opened JsonStrings

  // ----- what is parsed

  /** Skip blanks and control characters. */
  function Skip(s: seq<byte>, p: nat): (r: nat)
    requires p <= |s|
    ensures p <= r <= |s|
    decreases |s| - p
  {
    if 0 < Peek(s, p) <= 32 then Skip(s, p + 1) else p
  }

  predicate IsDigit(c: byte) {
    48 <= c <= 57
  }

  datatype Run = Run(n: nat, end: nat)

  /** The digits from p on, when n has been read before them. */
  function ReadDigits(s: seq<byte>, p: nat, n: nat): (r: Run)
    requires p <= |s|
    ensures p <= r.end <= |s|
    decreases |s| - p
  {
    if IsDigit(Peek(s, p)) then ReadDigits(s, p + 1, n * 10 + (Peek(s, p) - 48)) else Run(n, p)
  }

  function SignedValue(negative: bool, n: int): int {
    if negative then -n else n
  }

  /** A sign, a zero, and digits that do not start with a zero: any of them may be missing. */
  function ParseNumber(s: seq<byte>, at: nat): (r: Parsed<int>)
    requires at < |s| && (s[at] == MINUS || IsDigit(s[at]))
    ensures r.Parsed? ==> at < r.end <= |s| && INT_MIN <= r.value <= INT_MAX
  {
    var first := if s[at] == MINUS then at + 1 else at;
    var second := if Peek(s, first) == 48 then first + 1 else first;
    var run := if 49 <= Peek(s, second) <= 57 then ReadDigits(s, second, 0) else Run(0, second);
    var value := SignedValue(s[at] == MINUS, run.n);
    var c := Peek(s, run.end);
    if (c == 46 && IsDigit(Peek(s, run.end + 1))) || c == 101 || c == 69 then Unmodelled
    else if !(INT_MIN <= value <= INT_MAX) then Unmodelled
    else Parsed(value, run.end)
  }

  function Concat(a: Chain, b: Chain): Chain {
    match a
    case End => b
    case Link(name, value, next) => Link(name, value, Concat(next, b))
  }

  /** The children so far, followed by what is parsed next. */
  function Onto(before: Chain, r: Parsed<Chain>): Parsed<Chain> {
    if r.Parsed? then Parsed(Concat(before, r.value), r.end) else r
  }

  function Failure<T, U>(r: Parsed<T>): Parsed<U>
    requires !r.Parsed?
  {
    if r.Malformed? then Malformed(r.at) else Unmodelled
  }

  function StringOf(r: Parsed<seq<byte>>): Parsed<Json> {
    if r.Parsed? then Parsed(String(r.value), r.end) else Failure(r)
  }

  function NumberOf(r: Parsed<int>): Parsed<Json> {
    if r.Parsed? then Parsed(Number(r.value), r.end) else Failure(r)
  }

  function ArrayOf(r: Parsed<Chain>): Parsed<Json> {
    if r.Parsed? then Parsed(Array(r.value), r.end) else Failure(r)
  }

  function ObjectOf(r: Parsed<Chain>): Parsed<Json> {
    if r.Parsed? then Parsed(Object(r.value), r.end) else Failure(r)
  }

  function MemberOf(name: seq<byte>, r: Parsed<Json>): Parsed<Chain> {
    if r.Parsed? then Parsed(Link(name, r.value, End), r.end) else Failure(r)
  }

  function ParseValue(s: seq<byte>, at: nat): (r: Parsed<Json>)
    requires at <= |s|
    ensures r.Parsed? ==> at < r.end <= |s|
    decreases |s| - at, 1
  {
    var c := Peek(s, at);
    if Has(s, at, NULL_TEXT) then Parsed(Null, at + 4)
    else if Has(s, at, FALSE_TEXT) then Parsed(False, at + 5)
    else if Has(s, at, TRUE_TEXT) then Parsed(True, at + 4)
    else if c == QUOTE then StringOf(ParseString(s, at))
    else if c == MINUS || IsDigit(c) then NumberOf(ParseNumber(s, at))
    else if c == OPEN_BRACKET then ParseArray(s, at)
    else if c == OPEN_BRACE then ParseObject(s, at)
    else Malformed(at)
  }

  function ParseArray(s: seq<byte>, at: nat): (r: Parsed<Json>)
    requires at < |s|
    ensures r.Parsed? ==> at < r.end <= |s|
    decreases |s| - at, 0
  {
    var p := Skip(s, at + 1);
    if Peek(s, p) == CLOSE_BRACKET then Parsed(Array(End), p + 1) else ArrayOf(ParseItems(s, p))
  }

  function ParseObject(s: seq<byte>, at: nat): (r: Parsed<Json>)
    requires at < |s|
    ensures r.Parsed? ==> at < r.end <= |s|
    decreases |s| - at, 0
  {
    var p := Skip(s, at + 1);
    if Peek(s, p) == CLOSE_BRACE then Parsed(Object(End), p + 1) else ObjectOf(ParseMembers(s, p))
  }

  /** The items of an array, and its closing bracket. */
  function ParseItems(s: seq<byte>, p: nat): (r: Parsed<Chain>)
    requires p <= |s|
    ensures r.Parsed? ==> p < r.end <= |s|
    decreases |s| - p, 2
  {
    var r := ParseValue(s, Skip(s, p));
    if r.Parsed? then Onto(Link([], r.value, End), MoreItems(s, Skip(s, r.end))) else Failure(r)
  }

  /** What follows an item. */
  function MoreItems(s: seq<byte>, p: nat): (r: Parsed<Chain>)
    requires p <= |s|
    ensures r.Parsed? ==> p < r.end <= |s|
    decreases |s| - p, 0
  {
    if Peek(s, p) == COMMA then ParseItems(s, p + 1)
    else if Peek(s, p) == CLOSE_BRACKET then Parsed(End, p + 1)
    else Malformed(p)
  }

  /** One member of an object. */
  function ParseMember(s: seq<byte>, p: nat): (r: Parsed<Chain>)
    requires p <= |s|
    ensures r.Parsed? ==> p < r.end <= |s|
    decreases |s| - p, 2
  {
    var name := ParseString(s, Skip(s, p));
    if !name.Parsed? then Failure(name)
    else
      var colon := Skip(s, name.end);
      if Peek(s, colon) != COLON then Malformed(colon)
      else MemberOf(name.value, ParseValue(s, Skip(s, colon + 1)))
  }

  /** The members of an object, and its closing brace. */
  function ParseMembers(s: seq<byte>, p: nat): (r: Parsed<Chain>)
    requires p <= |s|
    ensures r.Parsed? ==> p < r.end <= |s|
    decreases |s| - p, 3
  {
    var r := ParseMember(s, p);
    if r.Parsed? then Onto(r.value, MoreMembers(s, Skip(s, r.end))) else r
  }

  function MoreMembers(s: seq<byte>, p: nat): (r: Parsed<Chain>)
    requires p <= |s|
    ensures r.Parsed? ==> p < r.end <= |s|
    decreases |s| - p, 0
  {
    if Peek(s, p) == COMMA then ParseMembers(s, p + 1)
    else if Peek(s, p) == CLOSE_BRACE then Parsed(End, p + 1)
    else Malformed(p)
  }

  /** cJSON_Parse */
  function ParseText(s: seq<byte>): Parsed<Json> {
    ParseValue(s, Skip(s, 0))
  }

  // ----- the code

  method SkipBlanks(str: seq<byte>, p: nat) returns (r: nat)
    requires p <= |str|
    ensures r == Skip(str, p)
  {
    r := p;
    while 0 < Peek(str, r) <= 32
      invariant p <= r <= |str| && Skip(str, r) == Skip(str, p)
      decreases |str| - r
    {
      r := r + 1;
    }
  }

  /** strncmp with the whole of a keyword. */
  method StartsWithWord(str: seq<byte>, at: nat, word: seq<byte>) returns (same: bool)
    requires 0 !in word && at <= |str|
    ensures same <==> Has(str, at, word)
  {
    var k := 0;
    while k < |word|
      invariant 0 <= k <= |word| && at + k <= |str|
      invariant at + |word| <= |str| ==> SameUpTo(str, at, word, k)
    {
      if Peek(str, at + k) != word[k] {
        if Has(str, at, word) {
          HasAt(str, at, word, k);
        }
        return false;
      }
      k := k + 1;
    }
    return true;
  }

  /** Collect the digits, of which there is at least one, into a number. */
  method TakeDigits(str: seq<byte>, first: nat) returns (n: nat, num: nat)
    requires first < |str| && IsDigit(str[first])
    ensures Run(n, num) == ReadDigits(str, first, 0)
  {
    n, num := Peek(str, first) as int - 48, first + 1;
    while IsDigit(Peek(str, num))
      invariant first < num <= |str| && ReadDigits(str, num, n) == ReadDigits(str, first, 0)
      decreases |str| - num
    {
      n, num := n * 10 + (Peek(str, num) as int - 48), num + 1;
    }
  }

  /** parse_number, as far as integers go. */
  method ParseNumberText(str: seq<byte>, at: nat) returns (r: Parsed<int>)
    requires at < |str| && (str[at] == MINUS || IsDigit(str[at]))
    ensures r == ParseNumber(str, at)
  {
    var n: nat, sign: int, num: nat := 0, 1, at;
    if Peek(str, num) == MINUS {
      sign, num := -1, num + 1;
    }
    if Peek(str, num) == 48 {
      num := num + 1;
    }
    if 49 <= Peek(str, num) <= 57 {
      n, num := TakeDigits(str, num);
    }
    var value := sign * n;
    if (Peek(str, num) == 46 && IsDigit(Peek(str, num + 1))) || Peek(str, num) == 101 || Peek(str, num) == 69 {
      return Unmodelled;
    }
    if !(INT_MIN <= value <= INT_MAX) {
      return Unmodelled;
    }
    r := Parsed(value, num);
  }

  method ParseValueText(str: seq<byte>, at: nat) returns (r: Parsed<Json>)
    requires at <= |str|
    ensures r == ParseValue(str, at)
    decreases |str| - at, 1
  {
    var isNull := StartsWithWord(str, at, NULL_TEXT);
    if isNull {
      return Parsed(Null, at + 4);
    }
    var isFalse := StartsWithWord(str, at, FALSE_TEXT);
    if isFalse {
      return Parsed(False, at + 5);
    }
    var isTrue := StartsWithWord(str, at, TRUE_TEXT);
    if isTrue {
      return Parsed(True, at + 4);
    }
    var c := Peek(str, at);
    if c == QUOTE {
      var text := ParseStringLiteral(str, at);
      r := StringOf(text);
    } else if c == MINUS || IsDigit(c) {
      var number := ParseNumberText(str, at);
      r := NumberOf(number);
    } else if c == OPEN_BRACKET {
      r := ParseArrayText(str, at);
    } else if c == OPEN_BRACE {
      r := ParseObjectText(str, at);
    } else {
      r := Malformed(at);
    }
  }

  method ParseArrayText(str: seq<byte>, at: nat) returns (r: Parsed<Json>)
    requires at < |str|
    ensures r == ParseArray(str, at)
    decreases |str| - at, 0
  {
    hide Has, ParseValue, Skip, Concat;
    var value := SkipBlanks(str, at + 1);
    if Peek(str, value) == CLOSE_BRACKET {
      return Parsed(Array(End), value + 1);
    }
    ghost var start := value;
    value := SkipBlanks(str, value);
    var child := ParseValueText(str, value);
    if !child.Parsed? {
      return child;
    }
    var children := Link([], child.value, End);
    value := SkipBlanks(str, child.end);
    while Peek(str, value) == COMMA
      invariant at < value <= |str| && ParseItems(str, start) == Onto(children, MoreItems(str, value))
      decreases |str| - value
    {
      ghost var comma := value;
      value := SkipBlanks(str, value + 1);
      child := ParseValueText(str, value);
      if !child.Parsed? {
        return child;
      }
      value := SkipBlanks(str, child.end);
      OntoOne(children, Link([], child.value, End), MoreItems(str, value));
      children := Concat(children, Link([], child.value, End));
    }
    ConcatEnd(children);
    r := if Peek(str, value) == CLOSE_BRACKET then Parsed(Array(children), value + 1) else Malformed(value);
  }

  method ParseMemberText(str: seq<byte>, at: nat) returns (r: Parsed<Chain>)
    requires at <= |str|
    ensures r == ParseMember(str, at)
    decreases |str| - at, 2
  {
    var value := SkipBlanks(str, at);
    var name := ParseStringLiteral(str, value);
    if !name.Parsed? {
      return Failure(name);
    }
    value := SkipBlanks(str, name.end);
    if Peek(str, value) != COLON {
      return Malformed(value);
    }
    value := SkipBlanks(str, value + 1);
    var child := ParseValueText(str, value);
    r := MemberOf(name.value, child);
  }

  method ParseObjectText(str: seq<byte>, at: nat) returns (r: Parsed<Json>)
    requires at < |str|
    ensures r == ParseObject(str, at)
    decreases |str| - at, 0
  {
    var value := SkipBlanks(str, at + 1);
    if Peek(str, value) == CLOSE_BRACE {
      return Parsed(Object(End), value + 1);
    }
    ghost var start := value;
    var member := ParseMemberText(str, value);
    if !member.Parsed? {
      return Failure(member);
    }
    var children := member.value;
    value := SkipBlanks(str, member.end);
    while Peek(str, value) == COMMA
      invariant at < value <= |str| && ParseMembers(str, start) == Onto(children, MoreMembers(str, value))
      decreases |str| - value
    {
      member := ParseMemberText(str, value + 1);
      if !member.Parsed? {
        return Failure(member);
      }
      value := SkipBlanks(str, member.end);
      OntoOne(children, member.value, MoreMembers(str, value));
      children := Concat(children, member.value);
    }
    ConcatEnd(children);
    r := if Peek(str, value) == CLOSE_BRACE then Parsed(Object(children), value + 1) else Malformed(value);
  }

  /** cJSON_Parse */
  method Parse(str: seq<byte>) returns (r: Parsed<Json>)
    ensures r == ParseText(str)
  {
    var at := SkipBlanks(str, 0);
    r := ParseValueText(str, at);
  }

  lemma {:induction false} ConcatEnd(a: Chain)
    ensures Concat(a, End) == a
  {
    if a.Link? {
      ConcatEnd(a.next);
    }
  }

  lemma {:induction false} ConcatConcat(a: Chain, b: Chain, c: Chain)
    ensures Concat(Concat(a, b), c) == Concat(a, Concat(b, c))
  {
    if a.Link? {
      ConcatConcat(a.next, b, c);
    }
  }

  lemma {:induction false} OntoOne(a: Chain, b: Chain, r: Parsed<Chain>)
    ensures Onto(a, Onto(b, r)) == Onto(Concat(a, b), r)
  {
    if r.Parsed? {
      ConcatConcat(a, b, r.value);
    }
  }
}
