/** The printer that writes into one buffer, which grows when it is full (ext/cJSON/cJSON.c:127-169, 480-486,
    and the branches with a buffer of 338-420 and 516-900). */
module JsonBuffer {
  import opened Prelude
  import opened JsonText
  import opened JsonPrint

  // ----- sizes

  /** pow2gt, on the 32-bit integers that it works on. */
  function Pow2Gt(x: bv32): bv32 {
    var a := x - 1;
    var b := a | (a >> 1);
    var c := b | (b >> 2);
    var d := c | (c >> 4);
    var e := d | (d >> 8);
    var f := e | (e >> 16);
    f + 1
  }

  /** It rounds up to a power of two, the smallest one, for sizes up to 2^30. */
  lemma {:induction false} Pow2GtRoundsUp(x: bv32)
    requires 1 <= x <= 0x4000_0000
    ensures var r := Pow2Gt(x); r >= x && r & (r - 1) == 0 && r >> 1 < x
  {
  }

  /** The same on integers of any size, as RoundsUp shows. */
  function RoundUp(x: nat): (r: nat)
    ensures x <= r && (x > 1 ==> r < 2 * x)
  {
    if x <= 1 then 1 else 2 * RoundUp((x + 1) / 2)
  }

  function Int(x: bv32): int {
    x as int
  }

  lemma {:induction false} Doubled(x: bv32)
    requires x < 0x8000_0000
    ensures Int(x << 1) == 2 * Int(x)
  {
  }

  lemma {:induction false} DoubledOne(x: bv32)
    requires x < 0x8000_0000
    ensures Int((x << 1) | 1) == 2 * Int(x) + 1
  {
  }

  lemma {:induction false} EvenNext(x: bv32, h: bv32)
    requires x == h << 1
    ensures x + 1 == (h << 1) | 1
  {
  }

  lemma {:induction false} OddNext(x: bv32, h: bv32)
    requires x == (h << 1) | 1
    ensures x + 1 == (h + 1) << 1
  {
  }

  lemma {:induction false} EvenStep(x: bv32, h: bv32)
    requires h < 0x8000_0000 && x == h << 1
    ensures Int(x + 1) == Int(x) + 1
  {
    hide Int;
    EvenNext(x, h);
    Doubled(h);
    DoubledOne(h);
  }

  lemma {:induction false} OddStep(x: bv32, h: bv32)
    requires h < 0x7fff_ffff && x == (h << 1) | 1 && Int(h + 1) == Int(h) + 1
    ensures Int(x + 1) == Int(x) + 1
  {
    hide Int;
    OddNext(x, h);
    DoubledOne(h);
    Doubled(h + 1);
  }

  lemma {:induction false} Split(x: bv32) returns (h: bv32)
    ensures h == x >> 1
    ensures x == h << 1 || x == (h << 1) | 1
  {
    h := x >> 1;
  }

  lemma {:induction false} Room(x: bv32)
    ensures x >> 1 < 0x8000_0000
    ensures x < 0x8000_0000 ==> x >> 1 < 0x4000_0000
    ensures x > 0 ==> x >> 1 < x
  {
  }

  lemma {:induction false} Next(x: bv32)
    requires x < 0x8000_0000
    ensures Int(x + 1) == Int(x) + 1
    decreases x
  {
    hide Int;
    var h := Split(x);
    Room(x);
    if x == h << 1 {
      EvenStep(x, h);
    } else {
      Next(h);
      OddStep(x, h);
    }
  }

  lemma {:induction false} Halved(x: bv32)
    ensures Int(x >> 1) == Int(x) / 2
  {
    hide Int;
    var h := Split(x);
    Room(x);
    Doubled(h);
    DoubledOne(h);
  }

  /** Rounding up is twice the rounding up of half the size. */
  lemma {:induction false} Pow2GtHalf(x: bv32)
    requires 1 < x <= 0x4000_0000
    ensures Pow2Gt(x) == Pow2Gt((x + 1) >> 1) << 1
  {
  }

  lemma {:induction false} Pow2GtBound(x: bv32)
    requires 1 <= x <= 0x4000_0000
    ensures Pow2Gt(x) <= 0x4000_0000
  {
  }

  lemma {:induction false} Smaller(x: bv32) returns (h: bv32)
    requires 1 < x <= 0x4000_0000
    ensures h == (x + 1) >> 1
    ensures 1 <= h < x && h <= 0x4000_0000
  {
    h := (x + 1) >> 1;
  }

  lemma {:induction false} OneRoundsUp()
    ensures Int(1) == 1 && Pow2Gt(1) == 1
  {
  }

  lemma {:induction false} AboveOne(x: bv32)
    requires x > 1
    ensures Int(x) > 1
  {
  }

  lemma {:induction false} RoundsUpStep(x: bv32)
    requires 1 < x <= 0x4000_0000 && Pow2Gt((x + 1) >> 1) <= 0x4000_0000
    requires Int((x + 1) >> 1) >= 0 && Int(Pow2Gt((x + 1) >> 1)) == RoundUp(Int((x + 1) >> 1))
    ensures Int(x) >= 0 && Int(Pow2Gt(x)) == RoundUp(Int(x))
  {
    hide Pow2Gt, Int;
    AboveOne(x);
    Pow2GtHalf(x);
    Next(x);
    Halved(x + 1);
    Doubled(Pow2Gt((x + 1) >> 1));
  }

  /** Both round up to the same power of two. */
  lemma {:induction false} RoundsUp(x: bv32)
    requires 1 <= x <= 0x4000_0000
    ensures Pow2Gt(x) as int == RoundUp(x as int)
  {
    RoundsUpInt(x);
  }

  lemma {:induction false} RoundsUpInt(x: bv32)
    requires 1 <= x <= 0x4000_0000
    ensures Int(x) >= 0 && Int(Pow2Gt(x)) == RoundUp(Int(x))
    decreases x
  {
    hide Pow2Gt, Int;
    if x == 1 {
      OneRoundsUp();
    } else {
      var h := Smaller(x);
      RoundsUpInt(h);
      Pow2GtBound(h);
      RoundsUpStep(x);
    }
  }

  class PrintBuffer {
    var buffer: array<byte>
    var length: nat
    var offset: nat

    ghost predicate Valid()
      reads this, buffer
    {
      length == buffer.Length && offset <= length
    }

    constructor (prebuffer: nat)
      ensures Valid() && offset == 0 && fresh(buffer)
    {
      buffer, length, offset := new byte[prebuffer], prebuffer, 0;
    }

    /** Behind what was there before, the buffer holds a text and its terminator, and the offset points into
        the text. */
    ghost predicate Holds(before: seq<byte>, text: seq<byte>)
      reads this, buffer
    {
      var end := |before| + |text|;
      && Valid() && end < buffer.Length && |before| <= offset <= end
      && buffer[..end] == before + text && buffer[end] == 0
    }

    /** Make room for `needed` bytes from the offset on, and keep what has been written. */
    method Ensure(needed: nat)
      requires Valid()
      modifies this`buffer, this`length
      ensures Valid() && offset + needed <= buffer.Length && (buffer == old(buffer) || fresh(buffer))
      ensures buffer[..offset] == old(buffer[..offset])
      ensures buffer.Length == if offset + needed <= old(length) then old(length) else RoundUp(offset + needed)
      ensures buffer == old(buffer) <==> offset + needed <= old(length)
    {
      if offset + needed <= length {
        return;
      }
      var newsize := RoundUp(offset + needed);
      var newbuffer := new byte[newsize];
      forall k | 0 <= k < length {
        newbuffer[k] := buffer[k];
      }
      assert newbuffer[..offset] == buffer[..offset];
      buffer, length := newbuffer, newsize;
    }

    /** The offset behind the text that has just been printed: where its terminator is. */
    method Update(ghost before: seq<byte>, ghost text: seq<byte>)
      requires Holds(before, text) && 0 !in text
      modifies this`offset
      ensures offset == |before| + |text| && Valid() && buffer[..offset] == before + text
    {
      ghost var end := |before| + |text|;
      forall k | offset <= k < end
        ensures buffer[k] != 0
      {
        assert buffer[..end][k] == (before + text)[k] == text[k - |before|];
      }
      var n := offset;
      while buffer[n] != 0
        invariant offset <= n <= end
        decreases end - n
      {
        n := n + 1;
      }
      offset := n;
    }

    /** A text and its terminator. */
    method PutText(text: seq<byte>)
      requires Valid() && offset + |text| < buffer.Length
      modifies buffer
      ensures Holds(old(buffer[..offset]), text)
    {
      var end := Put(buffer, offset, text);
      buffer[end] := 0;
    }

    /** A text, behind which the offset moves. The terminator is written only when the code does so. */
    method Advance(text: seq<byte>, terminate: bool)
      requires Valid() && offset + |text| + (if terminate then 1 else 0) <= buffer.Length
      modifies this`offset, buffer
      ensures Valid() && offset == old(offset) + |text| && buffer[..offset] == old(buffer[..offset]) + text
    {
      var end := Put(buffer, offset, text);
      if terminate {
        buffer[end] := 0;
      }
      offset := end;
    }

    /** print_string_ptr */
    method PrintStringPtr(str: seq<byte>)
      requires Valid()
      modifies this, buffer
      ensures (buffer == old(buffer) || fresh(buffer)) && offset == old(offset)
      ensures Holds(old(buffer[..offset]), Quoted(str))
    {
      var flag := NeedsEscape(str);
      var len := if flag then 0 else |str|;
      if flag {
        len := EscapedLength(str);
      }
      Ensure(len + 3);
      var end := PutQuoted(buffer, offset, str, flag);
    }

    /** print_number */
    method PrintNumber(n: int)
      requires Valid() && INT_MIN <= n <= INT_MAX
      modifies this, buffer
      ensures (buffer == old(buffer) || fresh(buffer)) && offset == old(offset)
      ensures Holds(old(buffer[..offset]), NumberText(n))
    {
      NumberShort(n);
      if n == 0 {
        Ensure(2);
        PutText([48]);
      } else {
        Ensure(21);
        PutText(NumberText(n));
      }
    }

    /** print_value: the text stands behind what was printed before. The result is where the returned pointer
        points: for an object with members, printed with format, the depth stands in for the offset. At the top
        both are 0. */
    method PrintValue(t: Json, depth: nat, fmt: bool) returns (start: nat)
      requires Valid() && Holdable(t)
      modifies this, buffer
      ensures buffer == old(buffer) || fresh(buffer)
      ensures Holds(old(buffer[..offset]), Text(t, depth, fmt))
      ensures start == if fmt && t.Object? && t.child.Link? then depth else old(offset)
      decreases Size(t), 1
    {
      start := offset;
      match t
      case Null =>
        Ensure(5);
        PutText(NULL_TEXT);
      case False =>
        Ensure(6);
        PutText(FALSE_TEXT);
      case True =>
        Ensure(5);
        PutText(TRUE_TEXT);
      case Number(n) => PrintNumber(n);
      case String(s) => PrintStringPtr(s);
      case Array(child) => start := PrintArray(child, depth, fmt);
      case Object(child) => start := PrintObject(child, depth, fmt);
    }

    /** print_array */
    method PrintArray(child: Chain, depth: nat, fmt: bool) returns (start: nat)
      requires Valid() && Items(child)
      modifies this, buffer
      ensures buffer == old(buffer) || fresh(buffer)
      ensures Holds(old(buffer[..offset]), Text(Array(child), depth, fmt)) && start == old(offset)
      decreases 1 + ChainSize(child), 0
    {
      hide Text, ItemsText, Items;
      start := offset;
      var numentries := NumEntries(child);
      if numentries == 0 {
        PrintEmptyArray(depth, fmt);
        return;
      }
      ghost var before := buffer[..offset];
      Ensure(1);
      Advance([OPEN_BRACKET], false);
      PrintItems(child, depth, fmt);
      Ensure(2);
      PutText([CLOSE_BRACKET]);
      Bracketed(before, child, depth, fmt);
    }

    method PrintEmptyArray(ghost depth: nat, ghost fmt: bool)
      requires Valid()
      modifies this, buffer
      ensures (buffer == old(buffer) || fresh(buffer)) && offset == old(offset)
      ensures Holds(old(buffer[..offset]), Text(Array(End), depth, fmt))
    {
      assert Text(Array(End), depth, fmt) == [OPEN_BRACKET, CLOSE_BRACKET];
      Ensure(3);
      PutText([OPEN_BRACKET, CLOSE_BRACKET]);
    }

    static lemma {:induction false} Bracketed(before: seq<byte>, child: Chain, depth: nat, fmt: bool)
      ensures before + [OPEN_BRACKET] + ItemsText(child, depth + 1, fmt) + [CLOSE_BRACKET] == before + Text(Array(child), depth, fmt)
      ensures |Text(Array(child), depth, fmt)| == |ItemsText(child, depth + 1, fmt)| + 2
    {
      hide ItemsText;
    }

    /** The loop of print_array. */
    method PrintItems(child: Chain, depth: nat, fmt: bool)
      requires Valid() && Items(child)
      modifies this, buffer
      ensures Valid() && (buffer == old(buffer) || fresh(buffer)) && old(offset) <= offset
      ensures buffer[..offset] == old(buffer[..offset]) + ItemsText(child, depth + 1, fmt)
      decreases ChainSize(child), 3
    {
      hide Text, ItemsText;
      ghost var done := buffer[..offset];
      ghost var goal := done + ItemsText(child, depth + 1, fmt);
      var c := child;
      while c.Link?
        invariant ChainSize(c) <= ChainSize(child) && Items(c)
        invariant Valid() && (buffer == old(buffer) || fresh(buffer)) && old(offset) <= offset
        invariant done == buffer[..offset] && done + ItemsText(c, depth + 1, fmt) == goal
        decreases c
      {
        ItemsStep(done, c, depth + 1, fmt);
        PrintItem(c, depth, fmt);
        c, done := c.next, buffer[..offset];
      }
      NoItems(done, depth + 1, fmt);
    }

    /** One turn of the loop of print_array. */
    method PrintItem(c: Chain, depth: nat, fmt: bool)
      requires Valid() && c.Link? && Items(c)
      modifies this, buffer
      ensures Valid() && (buffer == old(buffer) || fresh(buffer))
      ensures old(offset) <= offset
      ensures buffer[..offset] == old(buffer[..offset]) + Text(c.value, depth + 1, fmt)
                + Only(c.next.Link?, [COMMA]) + Only(c.next.Link? && fmt, [SPACE])
      decreases ChainSize(c), 2
    {
      hide Text;
      ghost var before := buffer[..offset];
      NulFree(c.value, depth + 1, fmt);
      var ptr := PrintValue(c.value, depth + 1, fmt);
      Update(before, Text(c.value, depth + 1, fmt));
      ghost var done := buffer[..offset];
      if c.next.Link? {
        var len := if fmt then 2 else 1;
        Ensure(len + 1);
        Advance(if fmt then [COMMA, SPACE] else [COMMA], true);
        assert done + [COMMA, SPACE] == done + [COMMA] + [SPACE] && done + [COMMA] + [] == done + [COMMA];
      } else {
        assert done + [] + [] == done;
      }
    }

    /** print_object */
    method PrintObject(child: Chain, depth: nat, fmt: bool) returns (start: nat)
      requires Valid() && Members(child)
      modifies this, buffer
      ensures buffer == old(buffer) || fresh(buffer)
      ensures Holds(old(buffer[..offset]), Text(Object(child), depth, fmt))
      ensures start == if fmt && child.Link? then depth else old(offset)
      decreases 1 + ChainSize(child), 0
    {
      hide Text, MembersText, Member, Only, Tabs;
      ghost var before := buffer[..offset];
      start := offset;
      ObjectText(child, depth, fmt);
      var numentries := NumEntries(child);
      if numentries == 0 {
        PrintEmptyObject(depth, fmt);
        return;
      }
      OpenObject(fmt);
      ghost var done := buffer[..offset];
      ghost var goal := done + MembersText(child, depth + 1, fmt);
      var c := child;
      while c.Link?
        invariant ChainSize(c) <= ChainSize(child) && Members(c)
        invariant Valid() && (buffer == old(buffer) || fresh(buffer))
        invariant done == buffer[..offset] && done + MembersText(c, depth + 1, fmt) == goal
        decreases c
      {
        MembersStep(done, c, depth + 1, fmt);
        PrintMember(c, depth + 1, fmt);
        c, done := c.next, buffer[..offset];
      }
      NoMembers(done, depth + 1, fmt);
      CloseObject(depth, fmt);
      if fmt {
        start := depth;  // the loop that writes the tabs has used the same variable
      }
      Closing(before, child, depth, fmt);
    }

    static lemma {:induction false} Closing(before: seq<byte>, child: Chain, depth: nat, fmt: bool)
      ensures before + ([OPEN_BRACE] + Only(fmt, [NEWLINE])) + MembersText(child, depth + 1, fmt) + (Only(fmt, Tabs(depth)) + [CLOSE_BRACE])
           == before + Text(Object(child), depth, fmt)
      ensures |Text(Object(child), depth, fmt)|
           == |[OPEN_BRACE] + Only(fmt, [NEWLINE])| + |MembersText(child, depth + 1, fmt)| + |Only(fmt, Tabs(depth)) + [CLOSE_BRACE]|
    {
      hide Only, Tabs, MembersText;
    }

    method PrintEmptyObject(depth: nat, fmt: bool)
      requires Valid()
      modifies this, buffer
      ensures buffer == old(buffer) || fresh(buffer)
      ensures Holds(old(buffer[..offset]), Text(Object(End), depth, fmt))
    {
      hide Only, Tabs;
      EmptyObject(buffer[..offset], depth, fmt);
      Ensure(if fmt then depth + 4 else 3);
      var ptr := Put(buffer, offset, [OPEN_BRACE]);
      ptr := PutIf(fmt, buffer, ptr, NEWLINE);
      ptr := PutIndent(fmt, buffer, ptr, depth);
      ptr := Put(buffer, ptr, [CLOSE_BRACE]);
      buffer[ptr] := 0;
    }

    static lemma {:induction false} EmptyObject(before: seq<byte>, depth: nat, fmt: bool)
      ensures before + Text(Object(End), depth, fmt)
           == before + [OPEN_BRACE] + Only(fmt, [NEWLINE]) + Only(fmt, Tabs(depth)) + [CLOSE_BRACE]
      ensures |Text(Object(End), depth, fmt)| == |Only(fmt, [NEWLINE])| + |Only(fmt, Tabs(depth))| + 2
           == if fmt then depth + 3 else 2
    {
      hide Tabs;
      assert MembersText(End, depth + 1, fmt) == [];
    }

    method OpenObject(fmt: bool)
      requires Valid()
      modifies this, buffer
      ensures Valid() && (buffer == old(buffer) || fresh(buffer))
      ensures buffer[..offset] == old(buffer[..offset]) + ([OPEN_BRACE] + Only(fmt, [NEWLINE]))
    {
      var len := if fmt then 2 else 1;
      Ensure(len + 1);
      Advance(if fmt then [OPEN_BRACE, NEWLINE] else [OPEN_BRACE], true);
    }

    /** One turn of the loop of print_object, at the depth of the members. */
    method PrintMember(c: Chain, depth: nat, fmt: bool)
      requires Valid() && c.Link? && Members(c)
      modifies this, buffer
      ensures Valid() && (buffer == old(buffer) || fresh(buffer))
      ensures buffer[..offset] == old(buffer[..offset]) + Member(Quoted(c.name), Text(c.value, depth, fmt), c.next.Link?, depth, fmt)
      decreases ChainSize(c), 2
    {
      hide Text, Quoted, Tabs, Only, Member;
      ghost var before := buffer[..offset];
      MemberParts(before, Quoted(c.name), Text(c.value, depth, fmt), c.next.Link?, depth, fmt);
      PrintName(c.name, depth, fmt);
      before := buffer[..offset];
      NulFree(c.value, depth, fmt);
      var ptr := PrintValue(c.value, depth, fmt);
      Update(before, Text(c.value, depth, fmt));
      EndMember(c.next.Link?, fmt);
    }

    /** The indentation, the name, the colon and the tab. */
    method PrintName(name: seq<byte>, depth: nat, fmt: bool)
      requires Valid() && 0 !in name
      modifies this, buffer
      ensures Valid() && (buffer == old(buffer) || fresh(buffer))
      ensures buffer[..offset] == old(buffer[..offset]) + Only(fmt, Tabs(depth)) + Quoted(name) + [COLON] + Only(fmt, [TAB])
    {
      hide Quoted, Tabs;
      ghost var before := buffer[..offset];
      assert before + [] == before;
      if fmt {
        Ensure(depth);
        var ptr := PutTabs(buffer, offset, depth);
        offset := offset + depth;
      }
      before := buffer[..offset];
      PrintStringPtr(name);
      QuotedNulFree(name);
      Update(before, Quoted(name));
      before := buffer[..offset];
      var len := if fmt then 2 else 1;
      Ensure(len);
      Advance(if fmt then [COLON, TAB] else [COLON], false);
      assert before + [COLON, TAB] == before + [COLON] + [TAB] && before + [COLON] + [] == before + [COLON];
    }

    method EndMember(more: bool, fmt: bool)
      requires Valid()
      modifies this, buffer
      ensures Valid() && (buffer == old(buffer) || fresh(buffer))
      ensures buffer[..offset] == old(buffer[..offset]) + Only(more, [COMMA]) + Only(fmt, [NEWLINE])
    {
      var len := (if fmt then 1 else 0) + if more then 1 else 0;
      Ensure(len + 1);
      ghost var before := buffer[..offset];
      var ptr := PutIf(more, buffer, offset, COMMA);
      ptr := PutIf(fmt, buffer, ptr, NEWLINE);
      buffer[ptr] := 0;
      offset := offset + len;
    }

    method CloseObject(depth: nat, fmt: bool)
      requires Valid()
      modifies this, buffer
      ensures (buffer == old(buffer) || fresh(buffer)) && offset == old(offset)
      ensures Holds(old(buffer[..offset]), Only(fmt, Tabs(depth)) + [CLOSE_BRACE])
    {
      Ensure(if fmt then depth + 2 else 2);
      ghost var before := buffer[..offset];
      var ptr := PutIndent(fmt, buffer, offset, depth);
      ptr := Put(buffer, ptr, [CLOSE_BRACE]);
      buffer[ptr] := 0;
      assert before + Only(fmt, Tabs(depth)) + [CLOSE_BRACE] == before + (Only(fmt, Tabs(depth)) + [CLOSE_BRACE]);
    }
  }

  /** cJSON_PrintBuffered: whatever the initial size, the buffer that is returned holds the same text as the
      other printer makes, from its first byte on. */
  method PrintBuffered(t: Json, prebuffer: nat, fmt: bool) returns (buffer: array<byte>, start: nat)
    requires Holdable(t)
    ensures start == 0 && |Text(t, 0, fmt)| < buffer.Length
    ensures buffer[..|Text(t, 0, fmt)|] == Text(t, 0, fmt) && buffer[|Text(t, 0, fmt)|] == 0
    ensures fresh(buffer)
  {
    var p := new PrintBuffer(prebuffer);
    start := p.PrintValue(t, 0, fmt);
    buffer := p.buffer;
    assert [] + Text(t, 0, fmt) == Text(t, 0, fmt);
  }
}
