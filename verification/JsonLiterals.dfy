/** String literals as JSON defines them (RFC 8259 section 7), and that exactly these are parsed
    (ext/cJSON/cJSON.c:201-335). */
module JsonLiterals {
  import opened Prelude
  import opened JsonText
  import opened JsonStrings

  /** One character of a literal: a byte that stands for itself, a backslash with a letter, the escape of a code
      point in four hexadecimal digits, or the two escapes of its surrogate pair. */
  datatype Char =
    | Raw(c: byte)
    | Short(letter: byte, c: byte)
    | Code(u: nat, digits: seq<byte>)
    | Pair(cp: nat, high: seq<byte>, low: seq<byte>)

  /** A hexadecimal digit, in lower or upper case. */
  predicate IsHex(c: byte, d: nat) {
    (d < 10 && c == 48 + d) || (10 <= d < 16 && (c == 87 + d || c == 55 + d))
  }

  /** Four hexadecimal digits, the most significant first. */
  predicate Spells(digits: seq<byte>, u: nat) {
    && |digits| == 4 && u < 0x10000
    && IsHex(digits[0], u / 4096) && IsHex(digits[1], u / 256 % 16) && IsHex(digits[2], u / 16 % 16) && IsHex(digits[3], u % 16)
  }

  /** The characters that a letter behind a backslash may stand for. */
  const LETTERS: map<byte, byte> := map[98 := 8, 102 := 12, 110 := 10, 114 := 13, 116 := 9]

  predicate Valid(x: Char) {
    match x
    case Raw(c) => c != QUOTE && c != BACKSLASH && c != 0
    case Short(letter, c) => letter != 117 && c == if letter in LETTERS then LETTERS[letter] else letter
    case Code(u, digits) => 0 < u && !(0xD800 <= u <= 0xDFFF) && Spells(digits, u)
    case Pair(cp, high, low) =>
      && 0x10000 <= cp < 0x110000
      && Spells(high, 0xD800 + (cp - 0x10000) / 0x400) && Spells(low, 0xDC00 + (cp - 0x10000) % 0x400)
  }

  predicate AllValid(xs: seq<Char>) {
    forall i :: 0 <= i < |xs| ==> Valid(xs[i])
  }

  /** How it is written. */
  function Source(x: Char): (r: seq<byte>)
    ensures |r| > 0
  {
    match x
    case Raw(c) => [c]
    case Short(letter, _) => [BACKSLASH, letter]
    case Code(_, digits) => [BACKSLASH, 117] + digits
    case Pair(_, high, low) => [BACKSLASH, 117] + high + [BACKSLASH, 117] + low
  }

  /** What it stands for, in UTF-8. */
  function Value(x: Char): seq<byte>
    requires Valid(x)
  {
    match x
    case Raw(c) => [c]
    case Short(_, c) => [c]
    case Code(u, _) => Utf8(u)
    case Pair(cp, _, _) => Utf8(cp)
  }

  function SourceOf(xs: seq<Char>): seq<byte> {
    if xs == [] then [] else Source(xs[0]) + SourceOf(xs[1..])
  }

  function ValueOf(xs: seq<Char>): seq<byte>
    requires AllValid(xs)
  {
    if xs == [] then [] else Value(xs[0]) + ValueOf(xs[1..])
  }

  // ----- digits

  lemma {:induction false} HexReads(c: byte, d: nat)
    requires d < 16
    ensures IsHex(c, d) <==> HexValue(c) == Some(d)
  {
  }

  lemma {:induction false} DigitsRead(s: seq<byte>, p: nat, digits: seq<byte>, u: nat)
    requires Has(s, p, digits) && Spells(digits, u)
    ensures Hex4(s, p) == u && p + 4 <= |s| && forall q :: p <= q < p + 4 ==> HexAt(s, q)
  {
    HasAt(s, p, digits, 0);
    HasAt(s, p, digits, 1);
    HasAt(s, p, digits, 2);
    HasAt(s, p, digits, 3);
    var a, b, c, d := u / 4096, u / 256 % 16, u / 16 % 16, u % 16;
    Nibbles(u);
    HexReads(digits[0], a);
    HexReads(digits[1], b);
    HexReads(digits[2], c);
    HexReads(digits[3], d);
  }

  lemma {:induction false} Nibbles(u: nat)
    requires u < 0x10000
    ensures u / 4096 < 16 && u == 4096 * (u / 4096) + 256 * (u / 256 % 16) + 16 * (u / 16 % 16) + u % 16
  {
  }

  /** The digits at a place, when there are four. */
  lemma {:induction false} DigitsAt(s: seq<byte>, p: nat) returns (digits: seq<byte>)
    requires Hex4(s, p) != 0
    ensures p + 4 <= |s| && digits == s[p..p + 4] && Spells(digits, Hex4(s, p))
  {
    Hex4Digits(s, p);
    digits := s[p..p + 4];
    var a, b, c, d := HexValue(s[p]).value, HexValue(s[p + 1]).value, HexValue(s[p + 2]).value, HexValue(s[p + 3]).value;
    FromNibbles(a, b, c, d);
    HexReads(s[p], a);
    HexReads(s[p + 1], b);
    HexReads(s[p + 2], c);
    HexReads(s[p + 3], d);
  }

  lemma {:induction false} FromNibbles(a: nat, b: nat, c: nat, d: nat)
    requires a < 16 && b < 16 && c < 16 && d < 16
    ensures var u := 4096 * a + 256 * b + 16 * c + d; u < 0x10000 && u / 4096 == a && u / 256 % 16 == b && u / 16 % 16 == c && u % 16 == d
  {
    var w := 16 * a + b;
    var v := 16 * w + c;
    var u := 16 * v + d;
    assert u / 16 == v && u % 16 == d;
    assert v / 16 == w && v % 16 == c;
    assert w / 16 == a && w % 16 == b;
    assert u / 256 == v / 16;
    assert u / 4096 == v / 256 == w / 16;
  }

  // ----- what is written is read

  /** One character. */
  lemma {:induction false} CharReads(s: seq<byte>, p: nat, x: Char, end: nat)
    requires Valid(x) && Has(s, p, Source(x)) && p + |Source(x)| <= end <= |s|
    ensures StringEnd(s, p) == StringEnd(s, p + |Source(x)|)
    ensures Unescape(s, p, end) == Prepend(Value(x), Unescape(s, p + |Source(x)|, end))
  {
    hide Has, Spells, Hex4;
    HasAt(s, p, Source(x), 0);
    match x
    case Raw(c) =>
    case Short(letter, c) =>
      HasAt(s, p, Source(x), 1);
    case Code(u, digits) =>
      SpelledLength(digits, u);
      CodeReads(s, p, u, digits, end);
    case Pair(cp, high, low) =>
      SpelledLength(high, 0xD800 + (cp - 0x10000) / 0x400);
      SpelledLength(low, 0xDC00 + (cp - 0x10000) % 0x400);
      PairReads(s, p, cp, high, low, end);
  }

  /** The backslash, the letter and the digits of an escape. */
  lemma {:induction false} EscapeAt(s: seq<byte>, p: nat, u: nat, digits: seq<byte>)
    requires Has(s, p, [BACKSLASH, 117] + digits) && Spells(digits, u)
    ensures p + 6 <= |s| && s[p] == BACKSLASH && s[p + 1] == 117 && Hex4(s, p + 2) == u
    ensures StringEnd(s, p) == StringEnd(s, p + 6)
  {
    hide Has, Hex4;
    HasParts(s, p, [BACKSLASH, 117], digits);
    HasAt(s, p, [BACKSLASH, 117], 0);
    HasAt(s, p, [BACKSLASH, 117], 1);
    DigitsRead(s, p + 2, digits, u);
    PlainCount(s, p + 2, 4);
  }

  lemma {:induction false} CodeReads(s: seq<byte>, p: nat, u: nat, digits: seq<byte>, end: nat)
    requires Valid(Code(u, digits)) && Has(s, p, [BACKSLASH, 117] + digits) && p + 6 <= end <= |s|
    ensures StringEnd(s, p) == StringEnd(s, p + 6) && Unescape(s, p, end) == Prepend(Utf8(u), Unescape(s, p + 6, end))
  {
    hide Has, Hex4, Spells, Utf8, Combined;
    EscapeAt(s, p, u, digits);
    assert ReadUnicode(s, p + 1, end) == Some(Unicode(u, 5));
  }

  lemma {:induction false} PairReads(s: seq<byte>, p: nat, cp: nat, high: seq<byte>, low: seq<byte>, end: nat)
    requires Valid(Pair(cp, high, low)) && Has(s, p, [BACKSLASH, 117] + high + [BACKSLASH, 117] + low) && p + 12 <= end <= |s|
    ensures StringEnd(s, p) == StringEnd(s, p + 12) && Unescape(s, p, end) == Prepend(Utf8(cp), Unescape(s, p + 12, end))
  {
    hide Has, Hex4, Spells, Utf8;
    var first, second := [BACKSLASH, 117] + high, [BACKSLASH, 117] + low;
    SpelledLength(high, 0xD800 + (cp - 0x10000) / 0x400);
    assert [BACKSLASH, 117] + high + [BACKSLASH, 117] + low == first + second;
    HasParts(s, p, first, second);
    EscapeAt(s, p, 0xD800 + (cp - 0x10000) / 0x400, high);
    EscapeAt(s, p + 6, 0xDC00 + (cp - 0x10000) % 0x400, low);
    Halves(cp);
    assert ReadUnicode(s, p + 1, end) == Some(Unicode(cp, 11));
  }

  lemma {:induction false} SpelledLength(digits: seq<byte>, u: nat)
    requires Spells(digits, u)
    ensures |digits| == 4
  {
  }

  lemma {:induction false} Halves(cp: nat)
    requires 0x10000 <= cp < 0x110000
    ensures var high, low := 0xD800 + (cp - 0x10000) / 0x400, 0xDC00 + (cp - 0x10000) % 0x400;
            HighSurrogate(high) && LowSurrogate(low) && Combined(high, low) == cp
  {
  }

  lemma {:induction false} HasFits(s: seq<byte>, p: nat, e: seq<byte>)
    requires Has(s, p, e)
    ensures p + |e| <= |s|
  {
  }

  lemma {:induction false} CharsRead(s: seq<byte>, p: nat, xs: seq<Char>, end: nat)
    requires AllValid(xs) && Has(s, p, SourceOf(xs)) && end == p + |SourceOf(xs)|
    requires Peek(s, end) == QUOTE || Peek(s, end) == 0
    ensures end <= |s| && StringEnd(s, p) == end && Unescape(s, p, end) == Some(ValueOf(xs))
    decreases |xs|
  {
    HasFits(s, p, SourceOf(xs));
    hide Has, Valid, Source, Value;
    if xs != [] {
      HasParts(s, p, Source(xs[0]), SourceOf(xs[1..]));
      CharsRead(s, p + |Source(xs[0])|, xs[1..], end);
      CharReads(s, p, xs[0], end);
    }
  }

  // ----- what is read was written

  /** The literal that starts here: its closing quote, or the end of the text, follows its characters. */
  ghost predicate Literal(s: seq<byte>, at: nat, xs: seq<Char>, end: nat) {
    && AllValid(xs) && Has(s, at, [QUOTE] + SourceOf(xs))
    && var close := at + 1 + |SourceOf(xs)|;
       (Peek(s, close) == QUOTE && end == close + 1) || (Peek(s, close) == 0 && end == close)
  }

  lemma {:induction false} CharAt(s: seq<byte>, p: nat, end: nat) returns (x: Char)
    requires p < end <= |s| && StringEnd(s, p) == end && Unescape(s, p, end).Some?
    ensures Valid(x) && p + |Source(x)| <= end && s[p..p + |Source(x)|] == Source(x)
    ensures StringEnd(s, p + |Source(x)|) == end
    ensures Unescape(s, p, end) == Prepend(Value(x), Unescape(s, p + |Source(x)|, end))
  {
    hide Spells, Hex4, Utf8;
    if s[p] != BACKSLASH {
      x := Raw(s[p]);
    } else if Peek(s, p + 1) != LETTER_U {
      x := ShortAt(s, p, end);
    } else {
      x := UnicodeAt(s, p, end);
    }
  }

  lemma {:induction false} ShortAt(s: seq<byte>, p: nat, end: nat) returns (x: Char)
    requires p < end <= |s| && StringEnd(s, p) == end && s[p] == BACKSLASH && Peek(s, p + 1) != LETTER_U
    ensures x.Short? && Valid(x) && p + 2 <= end && s[p..p + 2] == Source(x) && StringEnd(s, p + 2) == end
    ensures x.c == Unletter(Peek(s, p + 1))
  {
    x := Short(s[p + 1], Unletter(s[p + 1]));
  }

  lemma {:induction false} UnicodeAt(s: seq<byte>, p: nat, end: nat) returns (x: Char)
    requires p < end <= |s| && StringEnd(s, p) == end && s[p] == BACKSLASH && Peek(s, p + 1) == LETTER_U
    requires ReadUnicode(s, p + 1, end).Some?
    ensures var r := ReadUnicode(s, p + 1, end).value;
            && Valid(x) && p + |Source(x)| <= end && s[p..p + |Source(x)|] == Source(x) && StringEnd(s, p + |Source(x)|) == end
            && |Source(x)| == 1 + r.size && Value(x) == Utf8(r.cp)
  {
    hide Spells, Hex4, Utf8, StringEnd;
    var r := ReadUnicode(s, p + 1, end).value;
    UnicodeFits(s, p, end);
    var digits := DigitsAt(s, p + 2);
    SpelledLength(digits, Hex4(s, p + 2));
    if r.size == 5 {
      x := Code(r.cp, digits);
      CodeSlice(s, p);
    } else {
      var low := DigitsAt(s, p + 8);
      SpelledLength(low, Hex4(s, p + 8));
      Parts(Hex4(s, p + 2), Hex4(s, p + 8));
      x := Pair(r.cp, digits, low);
      PairSlice(s, p);
    }
  }

  lemma {:induction false} CodeSlice(s: seq<byte>, p: nat)
    requires p + 6 <= |s| && s[p] == BACKSLASH && s[p + 1] == 117
    ensures s[p..p + 6] == [BACKSLASH, 117] + s[p + 2..p + 6]
  {
  }

  lemma {:induction false} PairSlice(s: seq<byte>, p: nat)
    requires p + 12 <= |s| && s[p] == s[p + 6] == BACKSLASH && s[p + 1] == s[p + 7] == 117
    ensures s[p..p + 12] == [BACKSLASH, 117] + s[p + 2..p + 6] + [BACKSLASH, 117] + s[p + 8..p + 12]
  {
  }

  lemma {:induction false} Parts(high: nat, low: nat)
    requires HighSurrogate(high) && LowSurrogate(low)
    ensures var cp := Combined(high, low); 0xD800 + (cp - 0x10000) / 0x400 == high && 0xDC00 + (cp - 0x10000) % 0x400 == low
  {
  }

  lemma {:induction false} CharsAt(s: seq<byte>, p: nat, end: nat) returns (xs: seq<Char>)
    requires p <= end <= |s| && StringEnd(s, p) == end && Unescape(s, p, end).Some?
    ensures AllValid(xs) && s[p..end] == SourceOf(xs) && Unescape(s, p, end) == Some(ValueOf(xs))
    decreases end - p
  {
    hide Valid, Source, Value, StringEnd;
    if p == end {
      xs := [];
    } else {
      var x := CharAt(s, p, end);
      var rest := CharsAt(s, p + |Source(x)|, end);
      xs := [x] + rest;
      assert xs[1..] == rest;
      assert s[p..end] == s[p..p + |Source(x)|] + s[p + |Source(x)|..end];
    }
  }

  /** Exactly the literals are parsed, each as what its characters stand for. */
  lemma {:induction false} StringParsed(s: seq<byte>, at: nat, x: seq<byte>, end: nat)
    requires at <= |s|
    ensures ParseString(s, at) == Parsed(x, end) <==> exists xs :: Literal(s, at, xs, end) && ValueOf(xs) == x
  {
    hide StringEnd, Unescape, Has;
    if ParseString(s, at) == Parsed(x, end) {
      var xs := LiteralOf(s, at, x, end);
    }
    if xs :| Literal(s, at, xs, end) && ValueOf(xs) == x {
      LiteralReads(s, at, xs, end);
    }
  }

  lemma {:induction false} LiteralReads(s: seq<byte>, at: nat, xs: seq<Char>, end: nat)
    requires Literal(s, at, xs, end)
    ensures at <= |s| && ParseString(s, at) == Parsed(ValueOf(xs), end)
  {
    hide StringEnd, Unescape, Has;
    HasParts(s, at, [QUOTE], SourceOf(xs));
    HasOne(s, at, QUOTE);
    CharsRead(s, at + 1, xs, at + 1 + |SourceOf(xs)|);
  }

  lemma {:induction false} LiteralOf(s: seq<byte>, at: nat, x: seq<byte>, end: nat) returns (xs: seq<Char>)
    requires at <= |s| && ParseString(s, at) == Parsed(x, end)
    ensures Literal(s, at, xs, end) && ValueOf(xs) == x
  {
    hide Unescape, StringEnd, Has, SourceOf, ValueOf, AllValid, ParseString;
    var close := CloseOf(s, at, x, end);
    xs := CharsAt(s, at + 1, close);
    FromQuote(s, at, close);
    HasSlice(s, at, close);
  }

  lemma {:induction false} CloseOf(s: seq<byte>, at: nat, x: seq<byte>, end: nat) returns (close: nat)
    requires at <= |s| && ParseString(s, at) == Parsed(x, end)
    ensures at < |s| && s[at] == QUOTE && at + 1 <= close <= |s|
    ensures close == StringEnd(s, at + 1) && Unescape(s, at + 1, close) == Some(x)
    ensures (Peek(s, close) == QUOTE && end == close + 1) || (Peek(s, close) == 0 && end == close)
  {
    close := StringEnd(s, at + 1);
  }

  lemma {:induction false} FromQuote(s: seq<byte>, at: nat, close: nat)
    requires at < close <= |s| && s[at] == QUOTE
    ensures s[at..close] == [QUOTE] + s[at + 1..close]
  {
  }

  lemma {:induction false} HasSlice(s: seq<byte>, a: nat, b: nat)
    requires a <= b <= |s|
    ensures Has(s, a, s[a..b])
  {
    SameWhen(s, a, s[a..b], b - a);
  }

  // ----- printed literals

  /** How a byte is printed. */
  function Printed(c: byte): (x: Char)
    requires c != 0
    ensures Source(x) == EscapeByte(c)
  {
    if EscapeLetter(c).Some? then Short(EscapeLetter(c).value, c)
    else if c < 32 then Code(c, [48, 48, HexDigit(c / 16), HexDigit(c % 16)])
    else Raw(c)
  }

  lemma {:induction false} PrintedByte(c: byte)
    requires c != 0
    ensures Valid(Printed(c)) && Value(Printed(c)) == [c]
  {
  }

  function AllPrinted(x: seq<byte>): (r: seq<Char>)
    requires 0 !in x
    ensures SourceOf(r) == Escape(x)
  {
    if x == [] then [] else
      var r := [Printed(x[0])] + AllPrinted(x[1..]);
      assert r[1..] == AllPrinted(x[1..]);
      r
  }

  lemma {:induction false} PrintedString(x: seq<byte>)
    requires 0 !in x
    ensures AllValid(AllPrinted(x)) && ValueOf(AllPrinted(x)) == x
  {
    hide Valid, Printed, Value;
    if x != [] {
      PrintedByte(x[0]);
      PrintedString(x[1..]);
      var r := AllPrinted(x);
      assert r[1..] == AllPrinted(x[1..]);
    }
  }

  /** A printed string literal comes back, whatever bytes it holds. */
  lemma {:induction false} StringReads(s: seq<byte>, at: nat, x: seq<byte>)
    requires 0 !in x && Has(s, at, Quoted(x))
    ensures at <= |s| && ParseString(s, at) == Parsed(x, at + |Quoted(x)|)
  {
    hide Has, StringEnd, Unescape;
    PrintedString(x);
    HasParts(s, at, [QUOTE] + Escape(x), [QUOTE]);
    HasOne(s, at + 1 + |Escape(x)|, QUOTE);
    LiteralReads(s, at, AllPrinted(x), at + |Quoted(x)|);
  }

  /** No literal without raw control characters is shorter than the printed one for the same string. */
  ghost predicate Clean(xs: seq<Char>) {
    forall i :: 0 <= i < |xs| ==> (xs[i].Raw? ==> xs[i].c >= 32) && (xs[i].Short? ==> xs[i].letter >= 32)
  }

  lemma {:induction false} PrintedShortest(xs: seq<Char>)
    requires AllValid(xs) && Clean(xs)
    ensures |Escape(ValueOf(xs))| <= |SourceOf(xs)|
  {
    hide Valid, Value, Source;
    if xs != [] {
      EscapeConcat(Value(xs[0]), ValueOf(xs[1..]));
      PrintedShortest(xs[1..]);
      ShorterChar(xs[0]);
    }
  }

  lemma {:induction false} EscapeConcat(a: seq<byte>, b: seq<byte>)
    ensures Escape(a + b) == Escape(a) + Escape(b)
  {
    if a == [] {
      assert a + b == b;
    } else {
      assert (a + b)[1..] == a[1..] + b;
      EscapeConcat(a[1..], b);
    }
  }

  lemma {:induction false} ShorterChar(x: Char)
    requires Valid(x) && (x.Raw? ==> x.c >= 32) && (x.Short? ==> x.letter >= 32)
    ensures |Escape(Value(x))| <= |Source(x)|
  {
    match x
    case Raw(c) => EscapeHigh([c]);
    case Short(_, c) => EscapeHigh([c]);
    case Code(u, _) => EscapeHigh(Utf8(u));
    case Pair(cp, _, _) => EscapeHigh(Utf8(cp));
  }

  /** Bytes from 128 on are printed as they are. */
  lemma {:induction false} EscapeHigh(r: seq<byte>)
    requires r != []
    ensures |r| == 1 ==> Escape(r) == EscapeByte(r[0])
    ensures (forall i :: 0 <= i < |r| ==> r[i] >= 128) ==> Escape(r) == r
  {
    if |r| > 1 {
      EscapeHigh(r[1..]);
    } else {
      assert r[1..] == [];
    }
  }
}
