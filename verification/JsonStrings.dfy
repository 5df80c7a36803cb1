/** String literals: parse_string, and the characters it transcodes (ext/cJSON/cJSON.c:201-335). */
module JsonStrings {
  import opened Prelude

  /** The outcome of parsing a piece of text at some position. `Unmodelled` stands for numbers with a
      fraction, an exponent or more than 32 bits, and for a string that ends within an escape. */
  datatype Parsed<+T> = Parsed(value: T, end: nat) | Malformed(at: nat) | Unmodelled

  /** The character at a position of a C string. */
  function Peek(s: seq<byte>, i: nat): byte {
    if i < |s| then s[i] else 0
  }

  const LETTER_U: byte := 117

  // ----- code points

  function HexValue(c: byte): (r: Option<nat>)
    ensures r.Some? ==> r.value < 16
  {
    if 48 <= c <= 57 then Some(c - 48)
    else if 65 <= c <= 70 then Some(10 + c - 65)
    else if 97 <= c <= 102 then Some(10 + c - 97)
    else None
  }

  /** Four hexadecimal digits; 0 when they are not that. */
  function Hex4(s: seq<byte>, p: nat): (r: nat)
    ensures r < 0x10000
  {
    var a, b, c, d := HexValue(Peek(s, p)), HexValue(Peek(s, p + 1)), HexValue(Peek(s, p + 2)), HexValue(Peek(s, p + 3));
    if a.Some? && b.Some? && c.Some? && d.Some? then 4096 * a.value + 256 * b.value + 16 * c.value + d.value else 0
  }

  predicate HighSurrogate(u: nat) {
    0xD800 <= u <= 0xDBFF
  }

  predicate LowSurrogate(u: nat) {
    0xDC00 <= u <= 0xDFFF
  }

  /** RFC 8259 section 7: a surrogate pair stands for one code point beyond the first 65536. */
  function Combined(high: nat, low: nat): (r: nat)
    requires HighSurrogate(high) && LowSurrogate(low)
    ensures 0x10000 <= r < 0x110000
  {
    0x10000 + (high - 0xD800) * 0x400 + (low - 0xDC00)
  }

  /** RFC 3629 section 3. */
  function Utf8(cp: nat): (r: seq<byte>)
    requires cp < 0x110000
    ensures 1 <= |r| <= 4
  {
    var a := cp / 64;
    var b := a / 64;
    if cp < 0x80 then [cp]
    else if cp < 0x800 then [0xC0 + a, 0x80 + cp % 64]
    else if cp < 0x10000 then [0xE0 + b, 0x80 + a % 64, 0x80 + cp % 64]
    else [0xF0 + b / 64, 0x80 + b % 64, 0x80 + a % 64, 0x80 + cp % 64]
  }

  function Digit64(c: byte): int {
    c as int - 0x80
  }

  /** What a UTF-8 sequence stands for. */
  function FromUtf8(r: seq<byte>): int {
    if |r| == 1 then r[0] as int
    else if |r| == 2 then (r[0] as int - 0xC0) * 64 + Digit64(r[1])
    else if |r| == 3 then ((r[0] as int - 0xE0) * 64 + Digit64(r[1])) * 64 + Digit64(r[2])
    else if |r| == 4 then (((r[0] as int - 0xF0) * 64 + Digit64(r[1])) * 64 + Digit64(r[2])) * 64 + Digit64(r[3])
    else -1
  }

  /** The first byte tells the length, and the others are continuations. */
  ghost predicate WellFormed(r: seq<byte>) {
    && r != []
    && |r| == (if r[0] < 0x80 then 1 else if r[0] < 0xE0 then 2 else if r[0] < 0xF0 then 3 else 4)
    && (|r| > 1 ==> 0xC0 <= r[0] && 0x80 <= r[1] < 0xC0)
    && (|r| > 2 ==> 0x80 <= r[2] < 0xC0)
    && (|r| > 3 ==> 0x80 <= r[3] < 0xC0)
  }

  /** The sequence is well formed and stands for the code point. */
  lemma {:induction false} Utf8Stands(cp: nat)
    requires cp < 0x110000
    ensures WellFormed(Utf8(cp)) && FromUtf8(Utf8(cp)) == cp
  {
  }

  /** No shorter sequence stands for it. */
  lemma {:induction false} Utf8Shortest(cp: nat, r: seq<byte>)
    requires cp < 0x110000 && WellFormed(r) && FromUtf8(r) == cp
    ensures |Utf8(cp)| <= |r|
  {
  }

  /** The bit operations of the code, in terms of arithmetic. */
  lemma ContinuationBits(u: bv32)
    ensures (u | 0x80) & 0xBF == 0x80 + (u & 0x3F)
    ensures u == (u >> 6) * 64 + (u & 0x3F) && (u & 0x3F) < 64
  {
  }

  lemma FirstByteBits(u: bv8)
    ensures u < 0x20 ==> (u | 0xC0) == u + 0xC0
    ensures u < 0x10 ==> (u | 0xE0) == u + 0xE0
    ensures u < 0x08 ==> (u | 0xF0) == u + 0xF0
  {
  }

  lemma SurrogateBits(high: bv32, low: bv32)
    requires 0xD800 <= high <= 0xDBFF && 0xDC00 <= low <= 0xDFFF
    ensures (((high & 0x3FF) << 10) | (low & 0x3FF)) == (high - 0xD800) * 0x400 + (low - 0xDC00)
  {
  }

  // ----- parsing

  /** Where the first loop stops: at a quote or at the end of the text, past every escaped character. It
      may run past the end, when the text ends with a backslash. */
  function StringEnd(s: seq<byte>, p: nat): (r: nat)
    requires p <= |s|
    ensures p <= r <= |s| + 1
    ensures r <= |s| ==> Peek(s, r) == QUOTE || Peek(s, r) == 0
    decreases |s| - p
  {
    if Peek(s, p) == QUOTE || Peek(s, p) == 0 then p
    else if s[p] != BACKSLASH then StringEnd(s, p + 1)
    else if p + 1 == |s| then |s| + 1
    else StringEnd(s, p + 2)
  }

  /** How often that loop turns, which is the room that is made for the string. */
  function Counted(s: seq<byte>, p: nat): nat
    requires p <= |s|
    decreases |s| - p
  {
    if Peek(s, p) == QUOTE || Peek(s, p) == 0 then 0
    else if s[p] != BACKSLASH then 1 + Counted(s, p + 1)
    else if p + 1 == |s| then 1
    else 1 + Counted(s, p + 2)
  }

  function Unletter(c: byte): byte {
    match c
    case 98 => 8
    case 102 => 12
    case 110 => 10
    case 114 => 13
    case 116 => 9
    case _ => c
  }

  /** What one \u escape, or a pair of them, stands for, and its size; `p` is where its `u` is. */
  datatype Unicode = Unicode(cp: nat, size: nat)

  function ReadUnicode(s: seq<byte>, p: nat, end: nat): (r: Option<Unicode>)
    ensures r.Some? ==> r.value.cp < 0x110000 && r.value.size > 0
  {
    var u := Hex4(s, p + 1);
    if p + 4 >= end || LowSurrogate(u) || u == 0 then None
    else if !HighSurrogate(u) then Some(Unicode(u, 5))
    else if p + 10 > end || Peek(s, p + 5) != BACKSLASH || Peek(s, p + 6) != LETTER_U then None
    else
      var low := Hex4(s, p + 7);
      if !LowSurrogate(low) then None else Some(Unicode(Combined(u, low), 11))
  }

  function Prepend(r: seq<byte>, rest: Option<seq<byte>>): Option<seq<byte>> {
    if rest.Some? then Some(r + rest.value) else None
  }

  /** The string that the literal's characters from p up to its end stand for. */
  function Unescape(s: seq<byte>, p: nat, end: nat): Option<seq<byte>>
    requires end <= |s|
    decreases end - p
  {
    if p >= end then Some([])
    else if s[p] != BACKSLASH then Prepend([s[p]], Unescape(s, p + 1, end))
    else if Peek(s, p + 1) != LETTER_U then Prepend([Unletter(Peek(s, p + 1))], Unescape(s, p + 2, end))
    else
      match ReadUnicode(s, p + 1, end)
      case None => None
      case Some(Unicode(cp, size)) => Prepend(Utf8(cp), Unescape(s, p + 1 + size, end))
  }

  function ParseString(s: seq<byte>, at: nat): (r: Parsed<seq<byte>>)
    requires at <= |s|
    ensures r.Parsed? ==> at < r.end <= |s|
  {
    if Peek(s, at) != QUOTE then Malformed(at)
    else
      var end := StringEnd(s, at + 1);
      if end > |s| then Unmodelled
      else
        match Unescape(s, at + 1, end)
        case None => Malformed(at)
        case Some(text) => Parsed(text, if Peek(s, end) == QUOTE then end + 1 else end)
  }

  // ----- the output fits

  predicate HexAt(s: seq<byte>, q: nat) {
    HexValue(Peek(s, q)).Some?
  }

  /** The loop counts hexadecimal digits one by one. */
  lemma {:induction false} PlainCount(s: seq<byte>, p: nat, k: nat)
    requires p + k <= |s|
    requires forall q :: p <= q < p + k ==> HexAt(s, q)
    ensures Counted(s, p) == k + Counted(s, p + k) && StringEnd(s, p) == StringEnd(s, p + k)
    decreases k
  {
    if k > 0 {
      assert HexAt(s, p);
      PlainCount(s, p + 1, k - 1);
    }
  }

  lemma {:induction false} Hex4Digits(s: seq<byte>, p: nat)
    requires Hex4(s, p) != 0
    ensures p + 4 <= |s| && forall q :: p <= q < p + 4 ==> HexAt(s, q)
  {
    assert HexValue(0).None?;
    assert Peek(s, p + 3) != 0;
  }

  // An escape is written with more characters than it produces bytes.

  /** A \u escape, or a pair, lies within the literal and is counted as more than its bytes. */
  lemma {:induction false} UnicodeFits(s: seq<byte>, p: nat, end: nat)
    requires p < end <= |s| && s[p] == BACKSLASH && Peek(s, p + 1) == LETTER_U && StringEnd(s, p) == end
    requires ReadUnicode(s, p + 1, end).Some?
    ensures var r := ReadUnicode(s, p + 1, end).value;
            && p + 1 + r.size <= end && StringEnd(s, p + 1 + r.size) == end
            && |Utf8(r.cp)| + Counted(s, p + 1 + r.size) <= Counted(s, p)
  {
    var r := ReadUnicode(s, p + 1, end).value;
    Hex4Digits(s, p + 2);
    PlainCount(s, p + 2, 4);
    if r.size == 11 {
      Hex4Digits(s, p + 8);
      PlainCount(s, p + 8, 4);
    }
  }

  /** The string never needs more room than was counted for it. */
  lemma {:induction false} UnescapeFits(s: seq<byte>, p: nat, end: nat)
    requires p <= end <= |s| && StringEnd(s, p) == end && Unescape(s, p, end).Some?
    ensures |Unescape(s, p, end).value| <= Counted(s, p)
    decreases end - p
  {
    if p < end {
      if s[p] != BACKSLASH {
        UnescapeFits(s, p + 1, end);
      } else if Peek(s, p + 1) != LETTER_U {
        UnescapeFits(s, p + 2, end);
      } else {
        UnicodeFits(s, p, end);
        UnescapeFits(s, p + 1 + ReadUnicode(s, p + 1, end).value.size, end);
      }
    }
  }

  // ----- the code

  /** parse_hex4 */
  method ParseHex4(str: seq<byte>, p: nat) returns (h: nat)
    ensures h == Hex4(str, p)
  {
    var d := HexValue(Peek(str, p));
    if d.None? {
      return 0;
    }
    h := d.value * 16;
    d := HexValue(Peek(str, p + 1));
    if d.None? {
      return 0;
    }
    h := (h + d.value) * 16;
    d := HexValue(Peek(str, p + 2));
    if d.None? {
      return 0;
    }
    h := (h + d.value) * 16;
    d := HexValue(Peek(str, p + 3));
    if d.None? {
      return 0;
    }
    h := h + d.value;
  }

  /** The case 'u': the code point, and where its escape ends. */
  method ReadEscape(str: seq<byte>, start: nat, end: nat) returns (uc: nat, ptr: nat, ok: bool)
    ensures ok <==> ReadUnicode(str, start, end).Some?
    ensures ok ==> start <= ptr && ReadUnicode(str, start, end) == Some(Unicode(uc, ptr + 1 - start))
  {
    ptr, ok := start, false;
    uc := ParseHex4(str, ptr + 1);
    ptr := ptr + 4;
    if ptr >= end || 0xDC00 <= uc <= 0xDFFF || uc == 0 {
      return;
    }
    if 0xD800 <= uc <= 0xDBFF {
      if ptr + 6 > end || Peek(str, ptr + 1) != BACKSLASH || Peek(str, ptr + 2) != LETTER_U {
        return;
      }
      var uc2 := ParseHex4(str, ptr + 3);
      ptr := ptr + 6;
      if uc2 < 0xDC00 || uc2 > 0xDFFF {
        return;
      }
      uc := 0x10000 + ((uc - 0xD800) * 0x400 + (uc2 - 0xDC00));
    }
    ok := true;
  }

  /** (uc | 0x80) & 0xBF */
  function Continuation(uc: nat): byte {
    0x80 + uc % 64
  }

  /** Write the code point's bytes from the last to the first. */
  method WriteUtf8(codePoint: nat, out: array<byte>, at: nat) returns (ptr2: nat)
    requires codePoint < 0x110000 && at + |Utf8(codePoint)| <= out.Length
    modifies out
    ensures ptr2 == at + |Utf8(codePoint)|
    ensures out[..ptr2] == old(out[..at]) + Utf8(codePoint)
  {
    var uc := codePoint;
    var len := 4;
    if uc < 0x80 {
      len := 1;
    } else if uc < 0x800 {
      len := 2;
    } else if uc < 0x10000 {
      len := 3;
    }
    ptr2 := at + len;
    if len == 4 {
      ptr2 := ptr2 - 1;
      out[ptr2] := Continuation(uc);
      uc := uc / 64;
    }
    if len >= 3 {
      ptr2 := ptr2 - 1;
      out[ptr2] := Continuation(uc);
      uc := uc / 64;
    }
    if len >= 2 {
      ptr2 := ptr2 - 1;
      out[ptr2] := Continuation(uc);
      uc := uc / 64;
    }
    ptr2 := ptr2 - 1;
    var mark := if len == 1 then 0 else if len == 2 then 0xC0 else if len == 3 then 0xE0 else 0xF0;
    out[ptr2] := mark + uc;
    ptr2 := ptr2 + len;
  }

  /** The first loop: where the literal ends, and the room that its string needs. */
  method FindStringEnd(str: seq<byte>, from: nat) returns (endPtr: nat, len: nat)
    requires from <= |str|
    ensures endPtr == StringEnd(str, from) && len == Counted(str, from)
  {
    endPtr, len := from, 0;
    while endPtr <= |str| && Peek(str, endPtr) != QUOTE && Peek(str, endPtr) != 0
      invariant from <= endPtr <= |str| + 1
      invariant endPtr <= |str| ==> StringEnd(str, endPtr) == StringEnd(str, from) && len + Counted(str, endPtr) == Counted(str, from)
      invariant endPtr > |str| ==> endPtr == StringEnd(str, from) && len == Counted(str, from)
      decreases |str| + 1 - endPtr
    {
      len := len + 1;
      if str[endPtr] == BACKSLASH {
        endPtr := endPtr + 1;
      }
      endPtr := endPtr + 1;
    }
  }

  /** One character or escape at p takes the output from `done` to `more`, and the input to `next`. */
  ghost predicate Turned(str: seq<byte>, p: nat, next: nat, end: nat, done: seq<byte>, more: seq<byte>)
    requires p < end <= |str|
  {
    if str[p] != BACKSLASH then next == p + 1 && more == done + [str[p]]
    else if Peek(str, p + 1) != LETTER_U then next == p + 2 && more == done + [Unletter(Peek(str, p + 1))]
    else
      && ReadUnicode(str, p + 1, end).Some?
      && var r := ReadUnicode(str, p + 1, end).value;
         next == p + 1 + r.size && more == done + Utf8(r.cp)
  }

  lemma {:induction false} Unescaped(str: seq<byte>, p: nat, next: nat, end: nat, done: seq<byte>, more: seq<byte>)
    requires p < end <= |str| && p < next && Turned(str, p, next, end, done, more)
    ensures Prepend(done, Unescape(str, p, end)) == Prepend(more, Unescape(str, next, end))
  {
    var rest := Unescape(str, next, end);
    if rest.Some? {
      assert more + rest.value == done + (more[|done|..] + rest.value);
    }
  }

  /** The body of the second loop. */
  method Turn(str: seq<byte>, start: nat, end: nat, out: array<byte>, at: nat) returns (ok: bool, ptr: nat, ptr2: nat)
    requires start < end <= |str| && end == StringEnd(str, start) && at + Counted(str, start) < out.Length
    modifies out
    ensures !ok ==> Unescape(str, start, end).None?
    ensures ok ==>
              && start < ptr <= end && StringEnd(str, ptr) == end && ptr2 + Counted(str, ptr) < out.Length
              && Turned(str, start, ptr, end, old(out[..at]), out[..ptr2])
  {
    ptr, ptr2, ok := start, at, true;
    if str[ptr] != BACKSLASH {
      out[ptr2] := str[ptr];
      ptr2 := ptr2 + 1;
    } else {
      ptr := ptr + 1;
      if Peek(str, ptr) == LETTER_U {
        var uc;
        uc, ptr, ok := ReadEscape(str, ptr, end);
        if !ok {
          return;
        }
        UnicodeFits(str, start, end);
        ptr2 := WriteUtf8(uc, out, ptr2);
      } else {
        out[ptr2] := Unletter(Peek(str, ptr));
        ptr2 := ptr2 + 1;
      }
    }
    ptr := ptr + 1;
  }

  /** The second loop: the string is written into the room that was made for it. */
  method Transcribe(str: seq<byte>, from: nat, end: nat, out: array<byte>) returns (ok: bool, ptr2: nat)
    requires from <= end <= |str| && end == StringEnd(str, from) && out.Length == Counted(str, from) + 1
    modifies out
    ensures ok <==> Unescape(str, from, end).Some?
    ensures ok ==> ptr2 < out.Length && Unescape(str, from, end) == Some(out[..ptr2])
  {
    var ptr := from;
    ptr2, ok := 0, true;
    ghost var done := [];
    PrependNothing(done, Unescape(str, from, end));
    while ptr < end
      invariant from <= ptr <= end && StringEnd(str, ptr) == end
      invariant ptr2 + Counted(str, ptr) < out.Length && done == out[..ptr2]
      invariant Unescape(str, from, end) == Prepend(done, Unescape(str, ptr, end))
      decreases end - ptr
    {
      ghost var before, p := done, ptr;
      ok, ptr, ptr2 := Turn(str, ptr, end, out, ptr2);
      if !ok {
        return;
      }
      done := out[..ptr2];
      Unescaped(str, p, ptr, end, before, done);
    }
    assert done + [] == done;
  }

  lemma {:induction false} PrependNothing(none: seq<byte>, rest: Option<seq<byte>>)
    requires none == []
    ensures Prepend(none, rest) == rest
  {
    if rest.Some? {
      assert none + rest.value == rest.value;
    }
  }

  /** parse_string */
  method ParseStringLiteral(str: seq<byte>, at: nat) returns (r: Parsed<seq<byte>>)
    requires at <= |str|
    ensures r == ParseString(str, at)
  {
    if Peek(str, at) != QUOTE {
      return Malformed(at);
    }
    var endPtr, len := FindStringEnd(str, at + 1);
    if endPtr > |str| {
      return Unmodelled;
    }
    var out := new byte[len + 1];
    var ok, ptr2 := Transcribe(str, at + 1, endPtr, out);
    if !ok {
      return Malformed(at);
    }
    out[ptr2] := 0;
    var ptr := if Peek(str, endPtr) == QUOTE then endPtr + 1 else endPtr;
    r := Parsed(out[..ptr2], ptr);
  }
}
