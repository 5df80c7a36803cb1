/** The JSON values that the bundled parser and printer (ext/cJSON/cJSON.c) exchange, and the text that
    stands for each. */
module JsonText {
  import opened Prelude

  const TAB: byte := 9
  const COMMA: byte := 44
  const COLON: byte := 58
  const OPEN_BRACKET: byte := 91
  const CLOSE_BRACKET: byte := 93
  const OPEN_BRACE: byte := 123
  const CLOSE_BRACE: byte := 125
  const MINUS: byte := 45
  const SPACE: byte := 32

  predicate IsBlank(c: byte) {
    c == SPACE || c == TAB || c == RETURN || c == NEWLINE
  }

  const NULL_TEXT: seq<byte> := [110, 117, 108, 108]
  const FALSE_TEXT: seq<byte> := [102, 97, 108, 115, 101]
  const TRUE_TEXT: seq<byte> := [116, 114, 117, 101]

  const INT_MAX: int := 0x7fff_ffff
  const INT_MIN: int := -0x8000_0000

  datatype Json =
    | Null
    | False
    | True
    | Number(valueint: int)
    | String(valuestring: seq<byte>)
    | Array(child: Chain)
    | Object(child: Chain)

  /** The children of an array or an object. The items of an array have no names. */
  datatype Chain = End | Link(name: seq<byte>, value: Json, next: Chain)

  /** A value that a program can hold: numbers are 32-bit integers, and strings end at their first NUL. */
  ghost predicate Holdable(t: Json) {
    match t
    case Number(n) => INT_MIN <= n <= INT_MAX
    case String(s) => 0 !in s
    case Array(child) => Items(child)
    case Object(child) => Members(child)
    case _ => true
  }

  ghost predicate Items(c: Chain) {
    c.Link? ==> c.name == [] && Holdable(c.value) && Items(c.next)
  }

  ghost predicate Members(c: Chain) {
    c.Link? ==> 0 !in c.name && Holdable(c.value) && Members(c.next)
  }

  // ----- text

  function Digit(d: nat): byte
    requires d < 10
  {
    48 + d
  }

  /** Decimal notation, without leading zeros. */
  function Digits(n: nat): (r: seq<byte>)
    ensures r != []
  {
    if n < 10 then [Digit(n)] else Digits(n / 10) + [Digit(n % 10)]
  }

  function NumberText(n: int): seq<byte> {
    if n < 0 then [MINUS] + Digits(-n) else Digits(n)
  }

  function HexDigit(d: nat): byte
    requires d < 16
  {
    if d < 10 then 48 + d else 87 + d
  }

  /** The letter of a two-character escape, when there is one. */
  function EscapeLetter(c: byte): Option<byte> {
    match c
    case 34 => Some(34)
    case 92 => Some(92)
    case 8 => Some(98)
    case 12 => Some(102)
    case 10 => Some(110)
    case 13 => Some(114)
    case 9 => Some(116)
    case _ => None
  }

  function EscapeByte(c: byte): (r: seq<byte>)
    ensures r != []
  {
    if EscapeLetter(c).Some? then [BACKSLASH, EscapeLetter(c).value]
    else if c < 32 then [BACKSLASH, 117, 48, 48, HexDigit(c / 16), HexDigit(c % 16)]
    else [c]
  }

  function Escape(s: seq<byte>): seq<byte> {
    if s == [] then [] else EscapeByte(s[0]) + Escape(s[1..])
  }

  /** A string literal. */
  function Quoted(s: seq<byte>): seq<byte> {
    [QUOTE] + Escape(s) + [QUOTE]
  }

  function Tabs(n: nat): (r: seq<byte>)
    ensures |r| == n && forall k :: 0 <= k < n ==> r[k] == TAB
  {
    seq(n, _ => TAB)
  }

  function Only(b: bool, s: seq<byte>): seq<byte> {
    if b then s else []
  }

  /** The text of a value at some depth, formatted or not. */
  function Text(t: Json, depth: nat, fmt: bool): seq<byte> {
    match t
    case Null => NULL_TEXT
    case False => FALSE_TEXT
    case True => TRUE_TEXT
    case Number(n) => NumberText(n)
    case String(s) => Quoted(s)
    case Array(child) =>
      [OPEN_BRACKET] + ItemsText(child, depth + 1, fmt) + [CLOSE_BRACKET]
    case Object(child) =>
      [OPEN_BRACE] + Only(fmt, [NEWLINE]) + MembersText(child, depth + 1, fmt) + Only(fmt, Tabs(depth)) + [CLOSE_BRACE]
  }

  function ItemsText(c: Chain, depth: nat, fmt: bool): seq<byte> {
    match c
    case End => []
    case Link(_, value, next) =>
      Text(value, depth, fmt) + Between(next.Link?, fmt) + ItemsText(next, depth, fmt)
  }

  /** What stands between two items of an array. */
  function Between(more: bool, fmt: bool): seq<byte> {
    Only(more, [COMMA]) + Only(more && fmt, [SPACE])
  }

  function MembersText(c: Chain, depth: nat, fmt: bool): seq<byte>
    decreases c, 1
  {
    match c
    case End => []
    case Link(_, _, next) => MemberText(c, depth, fmt) + MembersText(next, depth, fmt)
  }

  function MemberText(c: Chain, depth: nat, fmt: bool): seq<byte>
    requires c.Link?
    decreases c, 0
  {
    Only(fmt, Tabs(depth)) + Quoted(c.name) + NameEnd(fmt) + Text(c.value, depth, fmt) + MemberEnd(c.next.Link?, fmt)
  }

  function NameEnd(fmt: bool): seq<byte> {
    [COLON] + Only(fmt, [TAB])
  }

  function MemberEnd(more: bool, fmt: bool): seq<byte> {
    Only(more, [COMMA]) + Only(fmt, [NEWLINE])
  }

  // ----- what texts do not hold

  lemma {:induction false} DigitsShort(n: nat, width: nat)
    requires n < Ten(width) && width > 0
    ensures |Digits(n)| <= width && 0 !in Digits(n)
  {
    if n >= 10 {
      DigitsShort(n / 10, width - 1);
    }
  }

  function Ten(width: nat): nat {
    if width == 0 then 1 else 10 * Ten(width - 1)
  }

  lemma {:induction false} NumberShort(n: int)
    requires INT_MIN <= n <= INT_MAX
    ensures |NumberText(n)| <= 11 && 0 !in NumberText(n)
  {
    assert Ten(10) == 10000000000 by {
      assert Ten(2) == 100;
      assert Ten(4) == 10000;
      assert Ten(6) == 1000000;
      assert Ten(8) == 100000000;
    }
    DigitsShort(if n < 0 then -n else n, 10);
  }

  lemma {:induction false} EscapeNulFree(s: seq<byte>)
    requires 0 !in s
    ensures 0 !in Escape(s)
  {
    if s != [] {
      EscapeNulFree(s[1..]);
    }
  }

  lemma {:induction false} QuotedNulFree(s: seq<byte>)
    requires 0 !in s
    ensures 0 !in Quoted(s)
  {
    EscapeNulFree(s);
  }

  /** A value's text is a C string: it holds no NUL. */
  lemma {:induction false} NulFree(t: Json, depth: nat, fmt: bool)
    requires Holdable(t)
    ensures 0 !in Text(t, depth, fmt)
    decreases t, 1
  {
    match t
    case Number(n) => NumberShort(n);
    case String(s) => QuotedNulFree(s);
    case Array(child) => ItemsNulFree(child, depth + 1, fmt);
    case Object(child) => MembersNulFree(child, depth + 1, fmt);
    case _ =>
  }

  lemma {:induction false} ItemsNulFree(c: Chain, depth: nat, fmt: bool)
    requires Items(c)
    ensures 0 !in ItemsText(c, depth, fmt)
    decreases c, 0
  {
    if c.Link? {
      NulFree(c.value, depth, fmt);
      ItemsNulFree(c.next, depth, fmt);
    }
  }

  lemma {:induction false} MembersNulFree(c: Chain, depth: nat, fmt: bool)
    requires Members(c)
    ensures 0 !in MembersText(c, depth, fmt)
    decreases c, 0
  {
    if c.Link? {
      QuotedNulFree(c.name);
      NulFree(c.value, depth, fmt);
      MembersNulFree(c.next, depth, fmt);
    }
  }

  // ----- texts in a buffer

  /** The bytes e stand in s at this position. */
  predicate Has(s: seq<byte>, at: nat, e: seq<byte>) {
    at + |e| <= |s| && SameUpTo(s, at, e, |e|)
  }

  /** The first n of them do. */
  predicate SameUpTo(s: seq<byte>, at: nat, e: seq<byte>, n: nat)
    requires n <= |e| && at + |e| <= |s|
  {
    n == 0 || (SameUpTo(s, at, e, n - 1) && s[at + n - 1] == e[n - 1])
  }

  lemma {:induction false} SameAt(s: seq<byte>, at: nat, e: seq<byte>, n: nat, k: nat)
    requires k < n <= |e| && at + |e| <= |s| && SameUpTo(s, at, e, n)
    ensures s[at + k] == e[k]
    decreases n
  {
    if k < n - 1 {
      SameAt(s, at, e, n - 1, k);
    }
  }

  lemma {:induction false} HasAt(s: seq<byte>, at: nat, e: seq<byte>, k: nat)
    requires Has(s, at, e) && k < |e|
    ensures s[at + k] == e[k]
  {
    SameAt(s, at, e, |e|, k);
  }

  lemma {:induction false} SameWhen(s: seq<byte>, at: nat, e: seq<byte>, n: nat)
    requires n <= |e| && at + |e| <= |s|
    requires forall k :: 0 <= k < n ==> s[at + k] == e[k]
    ensures SameUpTo(s, at, e, n)
    decreases n
  {
    if n > 0 {
      SameWhen(s, at, e, n - 1);
      assert s[at + (n - 1)] == e[n - 1];
    }
  }

  /** Texts that follow each other. */
  lemma {:induction false} HasParts(s: seq<byte>, at: nat, a: seq<byte>, b: seq<byte>)
    requires Has(s, at, a + b)
    ensures Has(s, at, a) && Has(s, at + |a|, b)
  {
    forall k | 0 <= k < |a|
      ensures s[at + k] == a[k]
    {
      HasAt(s, at, a + b, k);
    }
    SameWhen(s, at, a, |a|);
    var mid := at + |a|;
    forall k | 0 <= k < |b|
      ensures s[mid + k] == b[k]
    {
      HasAt(s, at, a + b, |a| + k);
    }
    SameWhen(s, mid, b, |b|);
  }

  lemma {:induction false} HasOne(s: seq<byte>, at: nat, c: byte)
    requires Has(s, at, [c])
    ensures at < |s| && s[at] == c
  {
    HasAt(s, at, [c], 0);
  }

  lemma {:induction false} HasAll(s: seq<byte>)
    ensures Has(s, 0, s)
  {
    SameWhen(s, 0, s, |s|);
  }
}
