/** The printer that allocates the text of every value (ext/cJSON/cJSON.c:338-420, 476-478, 613-706, 760-900).
    A printed text is the part of the allocated bytes before their NUL. */
module JsonPrint {
  import opened Prelude
  import opened JsonText

  // ----- writing

  /** memcpy, strcpy, or characters written one after another. */
  method Put(out: array<byte>, at: nat, bytes: seq<byte>) returns (end: nat)
    requires at + |bytes| <= out.Length
    modifies out
    ensures end == at + |bytes| && out[..end] == old(out[..at]) + bytes
  {
    forall k | 0 <= k < |bytes| {
      out[at + k] := bytes[k];
    }
    end := at + |bytes|;
  }

  /** A byte that is written only under a condition. */
  method PutIf(cond: bool, out: array<byte>, at: nat, c: byte) returns (end: nat)
    requires at + |Only(cond, [c])| <= out.Length
    modifies out
    ensures end == at + |Only(cond, [c])| && out[..end] == old(out[..at]) + Only(cond, [c])
  {
    end := at;
    if cond {
      out[end] := c;
      end := end + 1;
    } else {
      assert out[..at] + [] == out[..at];
    }
  }

  method PutIndent(cond: bool, out: array<byte>, at: nat, depth: nat) returns (end: nat)
    requires at + |Only(cond, Tabs(depth))| <= out.Length
    modifies out
    ensures end == at + |Only(cond, Tabs(depth))| && out[..end] == old(out[..at]) + Only(cond, Tabs(depth))
  {
    end := at;
    if cond {
      end := PutTabs(out, at, depth);
    } else {
      assert out[..at] + [] == out[..at];
    }
  }

  /** The indentation: one tab for each level of depth. */
  method PutTabs(out: array<byte>, at: nat, depth: nat) returns (end: nat)
    requires at + depth <= out.Length
    modifies out
    ensures end == at + depth && out[..end] == old(out[..at]) + Tabs(depth)
  {
    end := at;
    var j := 0;
    while j < depth
      invariant 0 <= j <= depth && end == at + j
      invariant out[..end] == old(out[..at]) + Tabs(j)
    {
      out[end] := TAB;
      end := end + 1;
      j := j + 1;
    }
  }

  // ----- strings

  /** The first loop: does any character need an escape? */
  method NeedsEscape(str: seq<byte>) returns (flag: bool)
    ensures !flag ==> Escape(str) == str
  {
    flag := false;
    var ptr := 0;
    while ptr < |str|
      invariant 0 <= ptr <= |str|
      invariant !flag ==> NoEscapes(str, ptr)
    {
      if str[ptr] < 32 || str[ptr] == QUOTE || str[ptr] == BACKSLASH {
        flag := true;
      }
      ptr := ptr + 1;
    }
    if !flag {
      EscapeNothing(str);
    }
  }

  ghost predicate NoEscapes(str: seq<byte>, n: nat)
    requires n <= |str|
  {
    forall k :: 0 <= k < n ==> str[k] >= 32 && str[k] != QUOTE && str[k] != BACKSLASH
  }

  lemma {:induction false} EscapeNothing(str: seq<byte>)
    requires NoEscapes(str, |str|)
    ensures Escape(str) == str
  {
    if str != [] {
      EscapeNothing(str[1..]);
      assert str == [str[0]] + str[1..];
    }
  }

  /** The second loop: the length of the escaped text. */
  method EscapedLength(str: seq<byte>) returns (len: nat)
    ensures len == |Escape(str)|
  {
    len := 0;
    var ptr := 0;
    while ptr < |str|
      invariant 0 <= ptr <= |str|
      invariant len + |Escape(str[ptr..])| == |Escape(str)|
    {
      var token := str[ptr];
      assert str[ptr..][1..] == str[ptr + 1..];
      len := len + 1;
      if token in [34, 92, 8, 12, 10, 13, 9] {
        len := len + 1;
      } else if token < 32 {
        len := len + 5;
      }
      ptr := ptr + 1;
    }
  }

  /** The third loop: one character, escaped. */
  method PutEscaped(out: array<byte>, at: nat, c: byte) returns (end: nat)
    requires at + |EscapeByte(c)| <= out.Length
    modifies out
    ensures end == at + |EscapeByte(c)| && out[..end] == old(out[..at]) + EscapeByte(c)
  {
    if c > 31 && c != QUOTE && c != BACKSLASH {
      end := Put(out, at, [c]);
    } else {
      match c
      case 92 => end := Put(out, at, [BACKSLASH, 92]);
      case 34 => end := Put(out, at, [BACKSLASH, 34]);
      case 8 => end := Put(out, at, [BACKSLASH, 98]);
      case 12 => end := Put(out, at, [BACKSLASH, 102]);
      case 10 => end := Put(out, at, [BACKSLASH, 110]);
      case 13 => end := Put(out, at, [BACKSLASH, 114]);
      case 9 => end := Put(out, at, [BACKSLASH, 116]);
      case _ => end := Put(out, at, [BACKSLASH, 117, 48, 48, HexDigit(c / 16), HexDigit(c % 16)]);
    }
  }

  /** The escaped text between its quotes, and its terminator: exactly as much as was counted. */
  method PutQuoted(out: array<byte>, at: nat, str: seq<byte>, flag: bool) returns (end: nat)
    requires at + |Quoted(str)| < out.Length && (!flag ==> Escape(str) == str)
    modifies out
    ensures end == at + |Quoted(str)| && out[..end] == old(out[..at]) + Quoted(str) && out[end] == 0
  {
    ghost var before := out[..at];
    end := Put(out, at, [QUOTE]);
    if !flag {
      end := Put(out, end, str);
    } else {
      end := PutAllEscaped(out, end, str);
    }
    end := Put(out, end, [QUOTE]);
    assert before + [QUOTE] + Escape(str) + [QUOTE] == before + Quoted(str);
    out[end] := 0;
  }

  method PutAllEscaped(out: array<byte>, at: nat, str: seq<byte>) returns (end: nat)
    requires at + |Escape(str)| <= out.Length
    modifies out
    ensures end == at + |Escape(str)| && out[..end] == old(out[..at]) + Escape(str)
  {
    ghost var goal := out[..at] + Escape(str);
    end := at;
    var ptr := 0;
    ghost var done := out[..at];
    while ptr < |str|
      invariant 0 <= ptr <= |str| && end <= out.Length && done == out[..end]
      invariant done + Escape(str[ptr..]) == goal
    {
      assert str[ptr..][1..] == str[ptr + 1..];
      assert done + (EscapeByte(str[ptr]) + Escape(str[ptr + 1..])) == done + EscapeByte(str[ptr]) + Escape(str[ptr + 1..]);
      end := PutEscaped(out, end, str[ptr]);
      done := out[..end];
      ptr := ptr + 1;
    }
    assert done + [] == done;
  }

  /** print_string_ptr with its own allocation. */
  method PrintStringPtr(str: seq<byte>) returns (text: seq<byte>)
    ensures text == Quoted(str)
  {
    var flag := NeedsEscape(str);
    var len := if flag then 0 else |str|;
    if flag {
      len := EscapedLength(str);
    }
    var out := new byte[len + 3];
    var end := PutQuoted(out, 0, str, flag);
    text := out[..end];
    assert out[..0] == [];
  }

  // ----- values

  function Size(t: Json): nat {
    match t
    case Array(child) => 1 + ChainSize(child)
    case Object(child) => 1 + ChainSize(child)
    case _ => 0
  }

  function ChainSize(c: Chain): nat {
    match c
    case End => 0
    case Link(_, value, next) => 1 + Size(value) + ChainSize(next)
  }

  /** The number of children. */
  function Count(c: Chain): nat {
    if c.End? then 0 else 1 + Count(c.next)
  }

  method NumEntries(child: Chain) returns (n: nat)
    ensures n == Count(child)
  {
    n := 0;
    var c := child;
    while c.Link?
      invariant n + Count(c) == Count(child)
      decreases c
    {
      n, c := n + 1, c.next;
    }
  }

  /** The texts collected for the children from `from` up to c. */
  ghost predicate Collected(entries: seq<seq<byte>>, i: nat, from: Chain, c: Chain, depth: nat, fmt: bool)
    decreases from
  {
    if i >= |entries| then i == |entries| && from == c
    else from.Link? && entries[i] == Text(from.value, depth, fmt) && Collected(entries, i + 1, from.next, c, depth, fmt)
  }

  lemma {:induction false} CollectedMore(entries: seq<seq<byte>>, i: nat, from: Chain, c: Chain, depth: nat, fmt: bool)
    requires c.Link? && Collected(entries, i, from, c, depth, fmt)
    ensures Collected(entries + [Text(c.value, depth, fmt)], i, from, c.next, depth, fmt)
    decreases from
  {
    if i < |entries| {
      CollectedMore(entries, i + 1, from.next, c, depth, fmt);
    }
  }

  /** The next text to compose is that of the next child. */
  lemma {:induction false} CollectedNext(entries: seq<seq<byte>>, i: nat, c: Chain, depth: nat, fmt: bool)
    requires Collected(entries, i, c, End, depth, fmt) && i <= |entries|
    ensures c.Link? <==> i < |entries|
    ensures c.Link? ==>
              && entries[i] == Text(c.value, depth, fmt) && Collected(entries, i + 1, c.next, End, depth, fmt)
              && (c.next.Link? <==> i + 1 < |entries|)
  {
    hide Text;
  }

  /** print_value without a buffer */
  method PrintValue(t: Json, depth: nat, fmt: bool) returns (text: seq<byte>)
    ensures text == Text(t, depth, fmt)
    decreases Size(t), 1
  {
    match t
    case Null => text := NULL_TEXT;
    case False => text := FALSE_TEXT;
    case True => text := TRUE_TEXT;
    case Number(n) => text := PrintNumber(n);
    case String(s) => text := PrintStringPtr(s);
    case Array(child) => text := PrintArray(child, depth, fmt);
    case Object(child) => text := PrintObject(child, depth, fmt);
  }

  /** print_number: zero is a special case, other integers go through sprintf's %d. */
  method PrintNumber(n: int) returns (text: seq<byte>)
    ensures text == NumberText(n)
  {
    text := if n == 0 then [48] else NumberText(n);
  }

  method PrintArray(child: Chain, depth: nat, fmt: bool) returns (text: seq<byte>)
    ensures text == Text(Array(child), depth, fmt)
    decreases 1 + ChainSize(child), 0
  {
    var numentries := NumEntries(child);
    if numentries == 0 {
      return [OPEN_BRACKET, CLOSE_BRACKET];
    }
    var entries, len := [], 5;
    var c := child;
    while c.Link?
      invariant ChainSize(c) <= ChainSize(child)
      invariant Collected(entries, 0, child, c, depth + 1, fmt)
      invariant len + |ItemsText(c, depth + 1, fmt)| >= 5 + |ItemsText(child, depth + 1, fmt)|
      decreases c
    {
      var ret := PrintValue(c.value, depth + 1, fmt);
      CollectedMore(entries, 0, child, c, depth + 1, fmt);
      entries := entries + [ret];
      len := len + |ret| + 2 + if fmt then 1 else 0;
      c := c.next;
    }
    text := ComposeArray(entries, len, child, depth, fmt);
  }

  /** The text is composed in the room of len bytes. */
  method ComposeArray(entries: seq<seq<byte>>, len: nat, ghost child: Chain, ghost depth: nat, fmt: bool) returns (text: seq<byte>)
    requires Collected(entries, 0, child, End, depth + 1, fmt) && len >= 5 + |ItemsText(child, depth + 1, fmt)|
    ensures text == Text(Array(child), depth, fmt)
  {
    hide Text, ItemsText;
    ghost var goal := [OPEN_BRACKET] + ItemsText(child, depth + 1, fmt);
    var out := new byte[len];
    assert out[..0] == [];
    var ptr := Put(out, 0, [OPEN_BRACKET]);
    var i := 0;
    ghost var c, done := child, out[..ptr];
    while i < |entries|
      invariant 0 <= i <= |entries| && Collected(entries, i, c, End, depth + 1, fmt)
      invariant ptr <= len && done == out[..ptr] && done + ItemsText(c, depth + 1, fmt) == goal
    {
      assert c.next.Link? <==> i != |entries| - 1;
      ItemsStep(done, c, depth + 1, fmt);
      ptr := Put(out, ptr, entries[i]);
      ptr := PutIf(i != |entries| - 1, out, ptr, COMMA);
      ptr := PutIf(i != |entries| - 1 && fmt, out, ptr, SPACE);
      i := i + 1;
      c, done := c.next, out[..ptr];
    }
    NoItems(done, depth + 1, fmt);
    ptr := Put(out, ptr, [CLOSE_BRACKET]);
    out[ptr] := 0;
    text := out[..ptr];
    ArrayText(child, depth, fmt);
  }

  lemma {:induction false} NoItems(done: seq<byte>, depth: nat, fmt: bool)
    ensures done + ItemsText(End, depth, fmt) == done
  {
  }

  lemma {:induction false} ArrayText(child: Chain, depth: nat, fmt: bool)
    ensures Text(Array(child), depth, fmt) == [OPEN_BRACKET] + ItemsText(child, depth + 1, fmt) + [CLOSE_BRACKET]
  {
  }

  lemma {:induction false} ItemsStep(done: seq<byte>, c: Chain, depth: nat, fmt: bool)
    requires c.Link?
    ensures done + ItemsText(c, depth, fmt)
         == done + Text(c.value, depth, fmt) + Only(c.next.Link?, [COMMA]) + Only(c.next.Link? && fmt, [SPACE]) + ItemsText(c.next, depth, fmt)
  {
    hide Text, Only;
  }

  ghost predicate NamesCollected(names: seq<seq<byte>>, i: nat, from: Chain, c: Chain)
    decreases from
  {
    if i >= |names| then i == |names| && from == c
    else from.Link? && names[i] == Quoted(from.name) && NamesCollected(names, i + 1, from.next, c)
  }

  lemma {:induction false} NamesCollectedMore(names: seq<seq<byte>>, i: nat, from: Chain, c: Chain)
    requires c.Link? && NamesCollected(names, i, from, c)
    ensures NamesCollected(names + [Quoted(c.name)], i, from, c.next)
    decreases from
  {
    if i < |names| {
      NamesCollectedMore(names, i + 1, from.next, c);
    }
  }

  lemma {:induction false} NamesCollectedNext(names: seq<seq<byte>>, i: nat, c: Chain)
    requires NamesCollected(names, i, c, End) && i < |names|
    ensures c.Link? && names[i] == Quoted(c.name) && NamesCollected(names, i + 1, c.next, End)
  {
    hide Quoted;
  }

  method PrintObject(child: Chain, depth: nat, fmt: bool) returns (text: seq<byte>)
    ensures text == Text(Object(child), depth, fmt)
    decreases 1 + ChainSize(child), 0
  {
    hide Text, MembersText, Quoted, Collected, NamesCollected;
    NoneCollected(child, depth + 1, fmt);
    var numentries := NumEntries(child);
    if numentries == 0 {
      text := PrintEmptyObject(depth, fmt);
      return;
    }
    var names, entries := [], [];
    var len: nat := 7 + if fmt then depth + 1 else 0;
    var c := child;
    while c.Link?
      invariant ChainSize(c) <= ChainSize(child)
      invariant NamesCollected(names, 0, child, c) && Collected(entries, 0, child, c, depth + 1, fmt)
      invariant |names| == |entries|
      invariant len + |MembersText(c, depth + 1, fmt)| >= 7 + (if fmt then depth + 1 else 0) + |MembersText(child, depth + 1, fmt)|
      decreases c
    {
      MemberLength(c, depth + 1, fmt);
      var str := PrintStringPtr(c.name);
      var ret := PrintValue(c.value, depth + 1, fmt);
      NamesCollectedMore(names, 0, child, c);
      CollectedMore(entries, 0, child, c, depth + 1, fmt);
      names, entries := names + [str], entries + [ret];
      len := len + |ret| + |str| + 2 + if fmt then 2 + (depth + 1) else 0;
      c := c.next;
    }
    NoMembers([], depth + 1, fmt);
    text := ComposeObject(names, entries, len, child, depth, fmt);
  }

  lemma {:induction false} NoneCollected(child: Chain, depth: nat, fmt: bool)
    ensures Collected([], 0, child, child, depth, fmt) && NamesCollected([], 0, child, child)
  {
  }

  /** The room that is counted for one member is enough. */
  lemma {:induction false} MemberLength(c: Chain, depth: nat, fmt: bool)
    requires c.Link?
    ensures |MembersText(c, depth, fmt)|
         <= |Text(c.value, depth, fmt)| + |Quoted(c.name)| + 2 + (if fmt then 2 + depth else 0) + |MembersText(c.next, depth, fmt)|
  {
    hide Text, Quoted, Tabs;
  }

  method PrintEmptyObject(depth: nat, fmt: bool) returns (text: seq<byte>)
    ensures text == Text(Object(End), depth, fmt)
  {
    var out := new byte[if fmt then depth + 4 else 3];
    assert out[..0] == [];
    var ptr := Put(out, 0, [OPEN_BRACE]);
    if fmt {
      ptr := Put(out, ptr, [NEWLINE]);
      ptr := PutTabs(out, ptr, depth);
    }
    ptr := Put(out, ptr, [CLOSE_BRACE]);
    out[ptr] := 0;
    text := out[..ptr];
  }

  method ComposeObject(names: seq<seq<byte>>, entries: seq<seq<byte>>, len: nat, ghost child: Chain, depth: nat, fmt: bool) returns (text: seq<byte>)
    requires NamesCollected(names, 0, child, End) && Collected(entries, 0, child, End, depth + 1, fmt) && |names| == |entries|
    requires len >= 7 + (if fmt then depth + 1 else 0) + |MembersText(child, depth + 1, fmt)|
    ensures text == Text(Object(child), depth, fmt)
  {
    hide Text, MembersText, MemberText, Member, Only, Tabs, Collected, NamesCollected;
    ghost var goal := [OPEN_BRACE] + Only(fmt, [NEWLINE]) + MembersText(child, depth + 1, fmt);
    var out := new byte[len];
    assert out[..0] == [];
    ObjectText(child, depth, fmt);
    var ptr := Put(out, 0, [OPEN_BRACE]);
    ptr := PutIf(fmt, out, ptr, NEWLINE);
    var i := 0;
    ghost var c, done := child, out[..ptr];
    while i < |entries|
      invariant 0 <= i <= |entries|
      invariant NamesCollected(names, i, c, End) && Collected(entries, i, c, End, depth + 1, fmt)
      invariant ptr <= len && done == out[..ptr] && done + MembersText(c, depth + 1, fmt) == goal
    {
      CollectedNext(entries, i, c, depth + 1, fmt);
      NamesCollectedNext(names, i, c);
      MembersStep(done, c, depth + 1, fmt);
      ptr := ComposeMember(out, ptr, names[i], entries[i], i != |entries| - 1, depth + 1, fmt);
      i := i + 1;
      c, done := c.next, out[..ptr];
    }
    CollectedNext(entries, i, c, depth + 1, fmt);
    NoMembers(done, depth + 1, fmt);
    ptr := PutIndent(fmt, out, ptr, depth);
    ptr := Put(out, ptr, [CLOSE_BRACE]);
    out[ptr] := 0;
    text := out[..ptr];
  }

  lemma {:induction false} NoMembers(done: seq<byte>, depth: nat, fmt: bool)
    ensures done + MembersText(End, depth, fmt) == done
  {
  }

  lemma {:induction false} ObjectText(child: Chain, depth: nat, fmt: bool)
    ensures Text(Object(child), depth, fmt)
         == [OPEN_BRACE] + Only(fmt, [NEWLINE]) + MembersText(child, depth + 1, fmt) + Only(fmt, Tabs(depth)) + [CLOSE_BRACE]
    ensures |Only(fmt, [NEWLINE])| + |Only(fmt, Tabs(depth))| == if fmt then depth + 1 else 0
  {
  }

  /** One member: its name and its value, as printed before. */
  method ComposeMember(out: array<byte>, at: nat, name: seq<byte>, entry: seq<byte>, more: bool, depth: nat, fmt: bool) returns (ptr: nat)
    requires at + |Member(name, entry, more, depth, fmt)| <= out.Length
    modifies out
    ensures ptr == at + |Member(name, entry, more, depth, fmt)|
    ensures out[..ptr] == old(out[..at]) + Member(name, entry, more, depth, fmt)
  {
    hide Only, Tabs;
    ghost var before := out[..at];
    MemberParts(before, name, entry, more, depth, fmt);
    ptr := PutIndent(fmt, out, at, depth);
    ptr := Put(out, ptr, name);
    ptr := Put(out, ptr, [COLON]);
    ptr := PutIf(fmt, out, ptr, TAB);
    ptr := Put(out, ptr, entry);
    ptr := PutIf(more, out, ptr, COMMA);
    ptr := PutIf(fmt, out, ptr, NEWLINE);
  }

  lemma {:induction false} MemberParts(before: seq<byte>, name: seq<byte>, entry: seq<byte>, more: bool, depth: nat, fmt: bool)
    ensures before + Member(name, entry, more, depth, fmt)
         == before + Only(fmt, Tabs(depth)) + name + [COLON] + Only(fmt, [TAB]) + entry + Only(more, [COMMA]) + Only(fmt, [NEWLINE])
    ensures |Member(name, entry, more, depth, fmt)|
         == |Only(fmt, Tabs(depth))| + |name| + 1 + |Only(fmt, [TAB])| + |entry| + |Only(more, [COMMA])| + |Only(fmt, [NEWLINE])|
  {
    hide Tabs;
  }

  function Member(name: seq<byte>, entry: seq<byte>, more: bool, depth: nat, fmt: bool): seq<byte> {
    Only(fmt, Tabs(depth)) + name + NameEnd(fmt) + entry + MemberEnd(more, fmt)
  }

  lemma {:induction false} MembersStep(done: seq<byte>, c: Chain, depth: nat, fmt: bool)
    requires c.Link?
    ensures done + MembersText(c, depth, fmt)
         == done + Member(Quoted(c.name), Text(c.value, depth, fmt), c.next.Link?, depth, fmt) + MembersText(c.next, depth, fmt)
  {
    hide Text, Quoted, Only, Tabs, NameEnd, MemberEnd;
  }

  /** cJSON_Print and cJSON_PrintUnformatted */
  method Print(t: Json, fmt: bool) returns (text: seq<byte>)
    ensures text == Text(t, 0, fmt)
  {
    text := PrintValue(t, 0, fmt);
  }
}
