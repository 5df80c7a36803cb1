/** The CSV format of the bundled SQLite shell (ext/sqlite/shell.c): what output_csv writes, and what
    csv_read_one_field reads. */
module Csv {
  import opened Prelude

  const EOF: int := -1
  const LINE_FEED: int := 10
  const CARRIAGE_RETURN: int := 13
  const DOUBLE_QUOTE: int := 34

  // ----- writing

  /** The table needCsvQuote: all but the printable ASCII characters, and three of those. */
  predicate NeedsCsvQuote(c: byte) {
    c <= 32 || c == 34 || c == 39 || c >= 127
  }

  /** The test of output_csv at one character. A separator of several characters is compared with the
      beginning of the field. */
  predicate Special(z: seq<byte>, i: nat, sep: seq<byte>)
    requires i < |z|
  {
    NeedsCsvQuote(z[i]) || (sep != [] && z[i] == sep[0] && (|sep| == 1 || sep <= z))
  }

  predicate Quotes(z: seq<byte>, sep: seq<byte>) {
    z == [] || exists i :: 0 <= i < |z| && Special(z, i, sep)
  }

  /** Every quote doubled. */
  function Doubled(z: seq<byte>): seq<byte> {
    if z == [] then [] else (if z[0] == QUOTE then [QUOTE, QUOTE] else [z[0]]) + Doubled(z[1..])
  }

  function Encode(z: seq<byte>, sep: seq<byte>): seq<byte> {
    if Quotes(z, sep) then [QUOTE] + Doubled(z) + [QUOTE] else z
  }

  type Row = seq<seq<byte>>

  /** What the shell ends a row with. */
  const CRLF: seq<byte> := [RETURN, NEWLINE]

  function WrittenRow(row: Row, sep: seq<byte>, end: seq<byte>): seq<byte>
    requires row != []
  {
    if |row| == 1 then Encode(row[0], sep) + end
    else Encode(row[0], sep) + sep + WrittenRow(row[1..], sep, end)
  }

  /** Every row has at least one column. */
  ghost predicate Rows(rows: seq<Row>) {
    forall i :: 0 <= i < |rows| ==> rows[i] != []
  }

  /** The rows with one end behind each but the last, and another behind that. */
  function Written(rows: seq<Row>, sep: seq<byte>, end: seq<byte>, last: seq<byte>): seq<byte>
    requires Rows(rows)
  {
    if rows == [] then []
    else WrittenRow(rows[0], sep, if |rows| == 1 then last else end) + Written(rows[1..], sep, end, last)
  }

  /** A field of printable characters that are neither blanks, quotes nor apostrophes stands as it is, unless it is
      empty or holds the separator. (A longer separator counts when its first character is in the field and the
      field starts with all of it.) Every other field is longer when it is written: it is quoted. */
  lemma {:induction false} QuotedWhen(z: seq<byte>, sep: seq<byte>)
    ensures Encode(z, sep) == z <==>
              && z != [] && (forall i :: 0 <= i < |z| ==> 33 <= z[i] <= 126 && z[i] != 34 && z[i] != 39)
              && (sep == [] || sep[0] !in z || (|sep| > 1 && !(sep <= z)))
    ensures Encode(z, sep) != z ==> Encode(z, sep) == [34] + Doubled(z) + [34]
  {
    DoubledLonger(z);
    if Quotes(z, sep) {
      assert |Encode(z, sep)| > |z|;
      if z != [] {
        var i :| 0 <= i < |z| && Special(z, i, sep);
      }
    } else {
      forall i | 0 <= i < |z|
        ensures 33 <= z[i] <= 126 && z[i] != 34 && z[i] != 39
        ensures sep == [] || sep[0] != z[i] || (|sep| > 1 && !(sep <= z))
      {
        assert !Special(z, i, sep);
      }
    }
  }

  lemma {:induction false} DoubledLonger(z: seq<byte>)
    ensures |Doubled(z)| >= |z|
  {
    if z != [] {
      DoubledLonger(z[1..]);
    }
  }

  /** The part of the shell's state that is concerned, in csv mode. Fields are C strings without their
      terminators. */
  class ShellState {
    var out: seq<byte>
    const colSeparator: seq<byte>

    constructor (colSeparator: seq<byte>)
      ensures out == [] && this.colSeparator == colSeparator
    {
      out, this.colSeparator := [], colSeparator;
    }

    /** output_csv */
    method OutputCsv(z: seq<byte>, bSep: bool)
      requires 0 !in z
      modifies this
      ensures out == old(out) + Encode(z, colSeparator) + if bSep then colSeparator else []
    {
      var i := 0;
      while i < |z|
        invariant 0 <= i <= |z|
        invariant forall k :: 0 <= k < i ==> !Special(z, k, colSeparator)
      {
        if Special(z, i, colSeparator) {
          break;
        }
        i := i + 1;
      }
      if i < |z| {
        i := 0;
      }
      if i == 0 {
        PutQuoted(z);
      } else {
        out := out + z;
      }
      if bSep {
        out := out + colSeparator;
      }
    }

    /** The branch that quotes. */
    method PutQuoted(z: seq<byte>)
      modifies this
      ensures out == old(out) + ([QUOTE] + Doubled(z) + [QUOTE])
    {
      var i := 0;
      out := out + [QUOTE];
      assert z[0..] == z;
      while i < |z|
        invariant 0 <= i <= |z|
        invariant out + Doubled(z[i..]) == old(out) + [QUOTE] + Doubled(z)
      {
        assert z[i..][1..] == z[i + 1..];
        if z[i] == QUOTE {
          out := out + [QUOTE];
        }
        out := out + [z[i]];
        i := i + 1;
      }
      assert z[i..] == [] && out + [] == out;
      assert old(out) + [QUOTE] + Doubled(z) + [QUOTE] == old(out) + ([QUOTE] + Doubled(z) + [QUOTE]);
      out := out + [QUOTE];
    }

    /** One row of a query's result (shell.c:980-985). */
    method OutputRow(row: Row)
      requires row != [] && forall i :: 0 <= i < |row| ==> 0 !in row[i]
      modifies this
      ensures out == old(out) + WrittenRow(row, colSeparator, [RETURN, NEWLINE])
    {
      hide Encode;
      var i := 0;
      while i < |row|
        invariant 0 <= i <= |row|
        invariant i < |row| ==> out + WrittenRow(row[i..], colSeparator, CRLF) == old(out) + WrittenRow(row, colSeparator, CRLF)
        invariant i == |row| ==> out + CRLF == old(out) + WrittenRow(row, colSeparator, CRLF)
      {
        assert i + 1 < |row| ==> row[i..][1..] == row[i + 1..];
        OutputCsv(row[i], i < |row| - 1);
        i := i + 1;
      }
      out := out + CRLF;
    }

    method OutputTable(rows: seq<Row>)
      requires Rows(rows) && forall i, j :: 0 <= i < |rows| && 0 <= j < |rows[i]| ==> 0 !in rows[i][j]
      modifies this
      ensures out == old(out) + Written(rows, colSeparator, CRLF, CRLF)
    {
      hide WrittenRow;
      var i := 0;
      while i < |rows|
        invariant 0 <= i <= |rows|
        invariant out + Written(rows[i..], colSeparator, CRLF, CRLF) == old(out) + Written(rows, colSeparator, CRLF, CRLF)
      {
        assert rows[i..][1..] == rows[i + 1..];
        OutputRow(rows[i]);
        i := i + 1;
      }
    }
  }

  // ----- reading

  /** A `char` stored in an `int`: bytes from 128 on become negative. */
  function Signed(c: byte): (r: int)
    ensures -128 <= r < 128 && (r - c) % 256 == 0
  {
    if c < 128 then c else c - 256
  }

  /** fgetc */
  function Get(s: seq<byte>, at: nat): int {
    if at < |s| then s[at] else EOF
  }

  /** The value of a field, the character that ended it, and where the input then stands. */
  datatype FieldRead = FieldRead(value: seq<byte>, term: int, pos: nat)

  /** What the loop knows about the last two characters. */
  ghost predicate Consistent(z: seq<byte>, pc: int, ppc: int) {
    && (pc == DOUBLE_QUOTE ==> z != [] && z[|z| - 1] == QUOTE)
    && (pc == CARRIAGE_RETURN && ppc == DOUBLE_QUOTE ==> |z| >= 2 && z[|z| - 2] == QUOTE)
  }

  /** What comes before the last quote. */
  function UpToQuote(z: seq<byte>): (r: seq<byte>)
    requires QUOTE in z
    ensures r + [QUOTE] <= z
  {
    var n := |z| - 1;
    if z[n] == QUOTE then z[..n] else assert z == z[..n] + [z[n]]; UpToQuote(z[..n])
  }

  /** The character ends a quoted field. */
  predicate Closes(c: int, pc: int, ppc: int, cSep: int, rSep: int) {
    || (c == cSep && pc == DOUBLE_QUOTE)
    || (c == rSep && pc == DOUBLE_QUOTE)
    || (c == rSep && pc == CARRIAGE_RETURN && ppc == DOUBLE_QUOTE)
    || (c == EOF && pc == DOUBLE_QUOTE)
  }

  function Next(s: seq<byte>, at: nat): nat {
    if at < |s| then at + 1 else at
  }

  /** The rest of a quoted field, when z has been collected and pc and ppc are the last two characters. */
  function Quoted(s: seq<byte>, at: nat, cSep: int, rSep: int, z: seq<byte>, pc: int, ppc: int): (r: FieldRead)
    requires at <= |s| && Consistent(z, pc, ppc)
    ensures at <= r.pos <= |s|
    decreases |s| - at
  {
    var c := Get(s, at);
    if c == DOUBLE_QUOTE && pc == DOUBLE_QUOTE then Quoted(s, at + 1, cSep, rSep, z, 0, ppc)
    else if Closes(c, pc, ppc, cSep, rSep) then FieldRead(UpToQuote(z), c, Next(s, at))
    else if c == EOF then FieldRead(z, c, at)
    else Quoted(s, at + 1, cSep, rSep, z + [c], c, pc)
  }

  /** One step of it. */
  lemma {:induction false} QuotedStep(s: seq<byte>, at: nat, cSep: int, rSep: int, z: seq<byte>, pc: int, ppc: int)
    requires at <= |s| && Consistent(z, pc, ppc)
    ensures var c := Get(s, at);
            Quoted(s, at, cSep, rSep, z, pc, ppc) ==
            if c == DOUBLE_QUOTE && pc == DOUBLE_QUOTE then Quoted(s, at + 1, cSep, rSep, z, 0, ppc)
            else if Closes(c, pc, ppc, cSep, rSep) then FieldRead(UpToQuote(z), c, Next(s, at))
            else if c == EOF then FieldRead(z, c, at)
            else Quoted(s, at + 1, cSep, rSep, z + [c], c, pc)
  {
  }

  function Unquoted(s: seq<byte>, at: nat, cSep: int, rSep: int, z: seq<byte>): (r: FieldRead)
    requires at <= |s|
    ensures at <= r.pos <= |s|
    decreases |s| - at
  {
    var c := Get(s, at);
    if c != EOF && c != cSep && c != rSep then Unquoted(s, at + 1, cSep, rSep, z + [c])
    else if c == rSep && z != [] && z[|z| - 1] == RETURN then FieldRead(z[..|z| - 1], c, Next(s, at))
    else FieldRead(z, c, Next(s, at))
  }

  /** One field; none at the end of the input. */
  function ReadField(s: seq<byte>, at: nat, cSep: int, rSep: int): (r: Option<FieldRead>)
    requires at <= |s|
    ensures r.Some? <==> at < |s|
    ensures r.Some? ==> at < r.value.pos <= |s|
  {
    if at == |s| then None
    else if s[at] == QUOTE then Some(Quoted(s, at + 1, cSep, rSep, [], 0, 0))
    else
      var r := Unquoted(s, at, cSep, rSep, []);
      UnquotedMoves(s, at, cSep, rSep, []);
      Some(r)
  }

  lemma {:induction false} UnquotedMoves(s: seq<byte>, at: nat, cSep: int, rSep: int, z: seq<byte>)
    requires at < |s|
    ensures at < Unquoted(s, at, cSep, rSep, z).pos
  {
  }

  /** A field and the character that ended it. */
  datatype Item = Item(value: seq<byte>, term: int)

  /** All fields up to the end of the input. */
  function ReadAll(s: seq<byte>, at: nat, cSep: int, rSep: int): seq<Item>
    requires at <= |s|
    decreases |s| - at
  {
    match ReadField(s, at, cSep, rSep)
    case None => []
    case Some(r) => [Item(r.value, r.term)] + ReadAll(s, r.pos, cSep, rSep)
  }

  /** How many of the bytes from a to b end a line. */
  function LineEnds(s: seq<byte>, a: nat, b: nat, rSep: int): nat
    requires a <= b <= |s|
  {
    if a == b then 0 else LineEnds(s, a, b - 1, rSep) + if s[b - 1] as int == rSep then 1 else 0
  }

  lemma {:induction false} NoLineEnds(s: seq<byte>, a: nat, rSep: int)
    requires a <= |s|
    ensures LineEnds(s, a, a, rSep) == 0
  {
  }

  lemma {:induction false} LineEndsFirst(s: seq<byte>, a: nat, b: nat, rSep: int)
    requires a < b <= |s|
    ensures LineEnds(s, a, b, rSep) == LineEnds(s, a + 1, b, rSep) + if s[a] as int == rSep then 1 else 0
  {
    if a + 1 < b {
      LineEndsFirst(s, a, b - 1, rSep);
    }
  }

  /** The import context; `pos` is where its input stands. */
  class ImportCtx {
    const input: seq<byte>
    const cColSep: int
    const cRowSep: int
    var pos: nat
    var z: array<byte>
    var n: nat
    var nLine: nat
    var cTerm: int

    ghost predicate Valid()
      reads this
    {
      pos <= |input| && n < z.Length
    }

    constructor (input: seq<byte>, colSep: byte, rowSep: byte)
      ensures Valid() && fresh(z) && pos == 0 && n == 1 && nLine == 1
      ensures this.input == input && cColSep == Signed(colSep) && cRowSep == Signed(rowSep)
    {
      this.input, cColSep, cRowSep := input, Signed(colSep), Signed(rowSep);
      pos, n, nLine, cTerm := 0, 0, 1, 0;
      z := new byte[0];
      new;
      ImportAppendChar(0);
    }

    method GetChar() returns (c: int)
      requires pos <= |input|
      modifies this`pos
      ensures c == Get(input, old(pos)) && pos == Next(input, old(pos))
    {
      c := EOF;
      if pos < |input| {
        c := input[pos];
        pos := pos + 1;
      }
    }

    /** import_append_char: there is always room for one more byte, the terminator. */
    method ImportAppendChar(c: byte)
      requires n <= z.Length
      modifies this`n, this`z, z
      ensures z == old(z) || fresh(z)
      ensures n == old(n) + 1 < z.Length
      ensures z[..n] == old(z[..n]) + [c]
    {
      if n + 1 >= z.Length {
        var grown := new byte[z.Length + z.Length + 100];
        forall k | 0 <= k < z.Length {
          grown[k] := z[k];
        }
        assert grown[..n] == z[..n];
        z := grown;
      }
      z[n] := c;
      n := n + 1;
    }

    /** csv_read_one_field */
    method CsvReadOneField() returns (r: Option<seq<byte>>)
      requires Valid()
      modifies this, z
      ensures Valid() && (z == old(z) || fresh(z))
      ensures match ReadField(input, old(pos), cColSep, cRowSep)
              case None => r == None && pos == old(pos) && cTerm == EOF
              case Some(f) => r == Some(f.value) && pos == f.pos && cTerm == f.term && z[n] == 0
      ensures cRowSep != DOUBLE_QUOTE && cRowSep != EOF ==>
                nLine == old(nLine) + LineEnds(input, old(pos), pos, cRowSep)
    {
      n := 0;
      ghost var start := pos;
      var c := GetChar();
      if c == EOF {
        cTerm := EOF;
        return None;
      }
      if c == DOUBLE_QUOTE {
        ReadQuoted();
      } else {
        UnquotedMoves(input, start, cColSep, cRowSep, []);
        ReadUnquoted(c, start);
      }
      LineEndsFirst(input, start, pos, cRowSep);
      z[n] := 0;
      r := Some(z[..n]);
    }

    /** fgetc, counting the lines that have ended since `start`. */
    method GetCounted(ghost start: nat) returns (c: int)
      requires start <= pos <= |input|
      modifies this`pos, this`nLine
      ensures c == Get(input, old(pos)) && pos == Next(input, old(pos))
      ensures cRowSep != EOF ==>
                nLine - old(nLine) == LineEnds(input, start, pos, cRowSep) - LineEnds(input, start, old(pos), cRowSep)
    {
      c := GetChar();
      if c == cRowSep {
        nLine := nLine + 1;
      }
    }

    method ReadQuoted()
      requires Valid() && n == 0
      modifies this, z
      ensures Valid() && (z == old(z) || fresh(z))
      ensures FieldRead(z[..n], cTerm, pos) == Quoted(input, old(pos), cColSep, cRowSep, [], 0, 0)
      ensures old(pos) <= pos && (cRowSep != EOF ==> nLine == old(nLine) + LineEnds(input, old(pos), pos, cRowSep))
    {
      hide UpToQuote, Quoted, LineEnds;
      var pc, ppc := 0, 0;
      NoLineEnds(input, pos, cRowSep);
      ghost var got := [];
      while true
        invariant Valid() && (z == old(z) || fresh(z))
        invariant got == z[..n] && Consistent(got, pc, ppc)
        invariant Quoted(input, pos, cColSep, cRowSep, got, pc, ppc) == Quoted(input, old(pos), cColSep, cRowSep, [], 0, 0)
        invariant old(pos) <= pos && (cRowSep != EOF ==> nLine == old(nLine) + LineEnds(input, old(pos), pos, cRowSep))
        decreases |input| - pos
      {
        QuotedStep(input, pos, cColSep, cRowSep, got, pc, ppc);
        var c := GetCounted(old(pos));
        if c == DOUBLE_QUOTE && pc == DOUBLE_QUOTE {
          pc := 0;
          continue;
        }
        if Closes(c, pc, ppc, cColSep, cRowSep) {
          BackToQuote();
          cTerm := c;
          break;
        }
        if c == EOF {
          cTerm := c;
          break;
        }
        ImportAppendChar(c);
        got := got + [c];
        ppc := pc;
        pc := c;
      }
    }

    /** Go back over what has been collected, up to the last quote. */
    method BackToQuote()
      requires n < z.Length && QUOTE in z[..n]
      modifies this`n
      ensures n < old(n) && z[..n] == UpToQuote(z[..old(n)])
    {
      assert z[..n][..n - 1] == z[..n - 1];
      n := n - 1;
      while z[n] != QUOTE
        invariant n < old(n) && (z[n] == QUOTE || QUOTE in z[..n])
        decreases n
        invariant UpToQuote(z[..old(n)]) == if z[n] == QUOTE then z[..n] else UpToQuote(z[..n])
      {
        assert z[..n][..n - 1] == z[..n - 1];
        n := n - 1;
      }
    }

    method ReadUnquoted(first: int, ghost start: nat)
      requires Valid() && n == 0 && start < |input| && first == Get(input, start) && pos == start + 1
      modifies this, z
      ensures Valid() && (z == old(z) || fresh(z))
      ensures FieldRead(z[..n], cTerm, pos) == Unquoted(input, start, cColSep, cRowSep, [])
      ensures start <= pos && (cRowSep != EOF ==> nLine == old(nLine) + LineEnds(input, start, pos, cRowSep))
    {
      var c := first;
      ghost var at := start;
      assert z[..n] == [];
      while c != EOF && c != cColSep && c != cRowSep
        invariant Valid() && (z == old(z) || fresh(z))
        invariant start <= at <= |input| && c == Get(input, at) && pos == Next(input, at)
        invariant Unquoted(input, at, cColSep, cRowSep, z[..n]) == Unquoted(input, start, cColSep, cRowSep, [])
        invariant nLine == old(nLine) && (cRowSep != EOF ==> LineEnds(input, start, at, cRowSep) == 0)
        decreases |input| - at
      {
        ImportAppendChar(c);
        at := pos;
        c := GetChar();
      }
      ghost var all := z[..n];
      if c == cRowSep {
        nLine := nLine + 1;
        if n > 0 && z[n - 1] == RETURN {
          n := n - 1;
          assert z[..n] == all[..n];
        }
      }
      cTerm := c;
    }
  }

  // ----- the round trip

  /** The bytes e stand in the input at this position. */
  ghost predicate Has(s: seq<byte>, at: nat, e: seq<byte>) {
    at + |e| <= |s| && forall k :: 0 <= k < |e| ==> s[at + k] == e[k]
  }

  lemma {:induction false} HasParts(s: seq<byte>, at: nat, a: seq<byte>, b: seq<byte>)
    requires Has(s, at, a + b)
    ensures Has(s, at, a) && Has(s, at + |a|, b)
  {
    forall k | 0 <= k < |a|
      ensures s[at + k] == a[k]
    {
      assert (a + b)[k] == a[k];
    }
    forall k | 0 <= k < |b|
      ensures s[at + |a| + k] == b[k]
    {
      assert (a + b)[|a| + k] == b[k] && s[at + (|a| + k)] == (a + b)[|a| + k];
    }
  }

  /** Separators for reading: any two characters but the quote and the carriage return. The column
      separator may be one that no byte matches. */
  predicate Readable(cSep: int) {
    cSep != DOUBLE_QUOTE && cSep != CARRIAGE_RETURN && cSep != LINE_FEED && cSep < 256
  }

  /** Inside the quotes, the doubled field comes back, whatever it contains. */
  lemma {:induction false} DoubledReads(s: seq<byte>, at: nat, cSep: int, x: seq<byte>, z: seq<byte>, pc: int, ppc: int)
    returns (pc': int, ppc': int)
    requires Has(s, at, Doubled(x)) && pc != DOUBLE_QUOTE && ppc != DOUBLE_QUOTE
    ensures pc' != DOUBLE_QUOTE && ppc' != DOUBLE_QUOTE && Consistent(z + x, pc', ppc')
    ensures Quoted(s, at, cSep, LINE_FEED, z, pc, ppc)
         == Quoted(s, at + |Doubled(x)|, cSep, LINE_FEED, z + x, pc', ppc')
    decreases |x|
  {
    if x == [] {
      assert z + x == z;
      pc', ppc' := pc, ppc;
    } else {
      assert z + x == z + [x[0]] + x[1..];
      if x[0] == QUOTE {
        HasParts(s, at, [QUOTE, QUOTE], Doubled(x[1..]));
        assert s[at] == [QUOTE, QUOTE][0] && s[at + 1] == [QUOTE, QUOTE][1];
        pc', ppc' := DoubledReads(s, at + 2, cSep, x[1..], z + [QUOTE], 0, pc);
      } else {
        HasParts(s, at, [x[0]], Doubled(x[1..]));
        assert s[at] == [x[0]][0];
        pc', ppc' := DoubledReads(s, at + 1, cSep, x[1..], z + [x[0]], x[0], pc);
      }
    }
  }

  /** How a field ends: with a separator, at the end of a row, with or without a carriage return, or at the end of the input. */
  ghost predicate Ended(s: seq<byte>, at: nat, cSep: int, term: int, pos: nat) {
    || (Get(s, at) == cSep == term && term >= 0 && pos == at + 1)
    || (Get(s, at) == LINE_FEED == term && pos == at + 1)
    || (Get(s, at) == CARRIAGE_RETURN && Get(s, at + 1) == LINE_FEED == term && pos == at + 2)
    || (at == |s| == pos && term == EOF)
  }

  lemma {:induction false} QuotedReads(s: seq<byte>, at: nat, cSep: int, x: seq<byte>, term: int, pos: nat)
    requires Readable(cSep) && Has(s, at, [QUOTE] + Doubled(x) + [QUOTE])
    requires Ended(s, at + |Doubled(x)| + 2, cSep, term, pos)
    ensures ReadField(s, at, cSep, LINE_FEED) == Some(FieldRead(x, term, pos))
  {
    HasParts(s, at, [QUOTE] + Doubled(x), [QUOTE]);
    HasParts(s, at, [QUOTE], Doubled(x));
    assert s[at + 0] == [QUOTE][0];
    var end := at + 1 + |Doubled(x)|;
    assert s[end + 0] == [QUOTE][0];
    var pc, ppc := DoubledReads(s, at + 1, cSep, x, [], 0, 0);
    assert [] + x == x;
    ClosingQuote(s, end, cSep, x, pc, ppc);
    if Get(s, end + 1) == CARRIAGE_RETURN {
      ClosesRow(s, end + 1, cSep, x, pc);
    } else {
      ClosesField(s, end + 1, cSep, x, pc, term);
    }
  }

  lemma {:induction false} ClosingQuote(s: seq<byte>, at: nat, cSep: int, x: seq<byte>, pc: int, ppc: int)
    requires Readable(cSep) && at < |s| && s[at] == QUOTE && pc != DOUBLE_QUOTE && Consistent(x, pc, ppc)
    ensures Quoted(s, at, cSep, LINE_FEED, x, pc, ppc) == Quoted(s, at + 1, cSep, LINE_FEED, x + [QUOTE], DOUBLE_QUOTE, pc)
  {
  }

  /** The separator, a line feed or the end of the input, right behind the closing quote. */
  lemma {:induction false} ClosesField(s: seq<byte>, at: nat, cSep: int, x: seq<byte>, ppc: int, term: int)
    requires Readable(cSep) && at <= |s| && Get(s, at) == term && (term == cSep || term == LINE_FEED || term == EOF)
    ensures Quoted(s, at, cSep, LINE_FEED, x + [QUOTE], DOUBLE_QUOTE, ppc) == FieldRead(x, term, Next(s, at))
  {
  }

  lemma {:induction false} ClosesRow(s: seq<byte>, at: nat, cSep: int, x: seq<byte>, ppc: int)
    requires Readable(cSep) && at + 1 < |s| && s[at] == RETURN && s[at + 1] == NEWLINE
    ensures Quoted(s, at, cSep, LINE_FEED, x + [QUOTE], DOUBLE_QUOTE, ppc) == FieldRead(x, LINE_FEED, at + 2)
  {
    var z := x + [QUOTE];
    assert Quoted(s, at, cSep, LINE_FEED, z, DOUBLE_QUOTE, ppc)
        == Quoted(s, at + 1, cSep, LINE_FEED, z + [RETURN], CARRIAGE_RETURN, DOUBLE_QUOTE);
    assert (z + [RETURN])[..|z|] == z;
    assert UpToQuote(z + [RETURN]) == UpToQuote(z) == x;
  }

  /** A field that is written as it is. */
  ghost predicate Plain(x: seq<byte>, cSep: int) {
    x != [] && forall k :: 0 <= k < |x| ==> !NeedsCsvQuote(x[k]) && x[k] as int != cSep
  }

  lemma {:induction false} UnquotedReads(s: seq<byte>, at: nat, cSep: int, x: seq<byte>, k: nat)
    requires Plain(x, cSep) && k <= |x| && Has(s, at, x)
    ensures Unquoted(s, at, cSep, LINE_FEED, []) == Unquoted(s, at + k, cSep, LINE_FEED, x[..k])
    decreases k
  {
    if k > 0 {
      UnquotedReads(s, at, cSep, x, k - 1);
      assert s[at + (k - 1)] == x[k - 1];
      assert x[..k] == x[..k - 1] + [x[k - 1]];
    }
  }

  lemma {:induction false} PlainReads(s: seq<byte>, at: nat, cSep: int, x: seq<byte>, term: int, pos: nat)
    requires Readable(cSep) && Plain(x, cSep) && Has(s, at, x) && Ended(s, at + |x|, cSep, term, pos)
    ensures ReadField(s, at, cSep, LINE_FEED) == Some(FieldRead(x, term, pos))
  {
    UnquotedReads(s, at, cSep, x, |x|);
    assert s[at + 0] == x[0] && x[..|x|] == x;
    var end := at + |x|;
    if Get(s, end) == CARRIAGE_RETURN {
      assert (x + [RETURN])[..|x|] == x;
      assert Unquoted(s, end, cSep, LINE_FEED, x) == Unquoted(s, end + 1, cSep, LINE_FEED, x + [RETURN]);
    } else {
      assert x[|x| - 1] != RETURN;
    }
  }

  /** One field comes back, with the character that follows it. */
  lemma {:induction false} FieldReads(s: seq<byte>, at: nat, sep: byte, x: seq<byte>, term: int, pos: nat)
    requires Usual(sep) && Has(s, at, Encode(x, [sep])) && Ended(s, at + |Encode(x, [sep])|, Signed(sep), term, pos)
    ensures ReadField(s, at, Signed(sep), LINE_FEED) == Some(FieldRead(x, term, pos))
  {
    if Quotes(x, [sep]) {
      QuotedReads(s, at, Signed(sep), x, term, pos);
    } else {
      forall k | 0 <= k < |x|
        ensures !NeedsCsvQuote(x[k]) && x[k] as int != Signed(sep)
      {
        assert !Special(x, k, [sep]);
      }
      PlainReads(s, at, Signed(sep), x, term, pos);
    }
  }

  /** A separator of one character other than the quote, the carriage return and the line feed. */
  predicate Usual(sep: byte) {
    sep != 0 && sep != QUOTE && sep != RETURN && sep != NEWLINE
  }

  /** The fields of a row, and what follows each: the separator, as the reader stores it, or the row's end. */
  function RowItems(row: Row, sep: byte, term: int): seq<Item>
    requires row != []
  {
    if |row| == 1 then [Item(row[0], term)] else [Item(row[0], Signed(sep))] + RowItems(row[1..], sep, term)
  }

  function Items(rows: seq<Row>, sep: byte, last: int): seq<Item>
    requires Rows(rows)
  {
    if rows == [] then [] else RowItems(rows[0], sep, if |rows| == 1 then last else LINE_FEED) + Items(rows[1..], sep, last)
  }

  /** What may end a row, but nothing only at the end of the input. */
  predicate EndsLine(end: seq<byte>) {
    end == [NEWLINE] || end == [RETURN, NEWLINE]
  }

  /** What the reader says ended the row. */
  function TermOf(end: seq<byte>): int {
    if end == [] then EOF else LINE_FEED
  }

  lemma {:induction false} RowReads(s: seq<byte>, at: nat, sep: byte, row: Row, end: seq<byte>)
    requires row != [] && Usual(sep) && (sep < 128 || |row| == 1) && Has(s, at, WrittenRow(row, [sep], end))
    requires EndsLine(end) || (end == [] && at + |WrittenRow(row, [sep], end)| == |s|)
    ensures ReadAll(s, at, Signed(sep), LINE_FEED)
         == RowItems(row, sep, TermOf(end)) + ReadAll(s, at + |WrittenRow(row, [sep], end)|, Signed(sep), LINE_FEED)
    decreases |row|
  {
    hide ReadField, ReadAll, Encode, Has, Ended, Signed, EndsLine;
    var e := Encode(row[0], [sep]);
    if |row| == 1 {
      HasParts(s, at, e, end);
      EndsRow(s, at + |e|, Signed(sep), end);
      FieldReads(s, at, sep, row[0], TermOf(end), at + |e| + |end|);
      FirstItem(s, at, Signed(sep), FieldRead(row[0], TermOf(end), at + |e| + |end|));
    } else {
      var rest := WrittenRow(row[1..], [sep], end);
      HasParts(s, at, e + [sep], rest);
      HasParts(s, at, e, [sep]);
      EndsField(s, at + |e|, sep);
      FieldReads(s, at, sep, row[0], Signed(sep), at + |e| + 1);
      FirstItem(s, at, Signed(sep), FieldRead(row[0], Signed(sep), at + |e| + 1));
      RowReads(s, at + |e| + 1, sep, row[1..], end);
      Prepend(Item(row[0], Signed(sep)), RowItems(row[1..], sep, TermOf(end)), ReadAll(s, at + |e| + 1 + |rest|, Signed(sep), LINE_FEED));
    }
  }

  lemma {:induction false} FirstItem(s: seq<byte>, at: nat, cSep: int, r: FieldRead)
    requires at <= |s| && ReadField(s, at, cSep, LINE_FEED) == Some(r)
    ensures at < r.pos <= |s| && ReadAll(s, at, cSep, LINE_FEED) == [Item(r.value, r.term)] + ReadAll(s, r.pos, cSep, LINE_FEED)
  {
    hide ReadField;
  }

  lemma {:induction false} EndsRow(s: seq<byte>, at: nat, cSep: int, end: seq<byte>)
    requires Has(s, at, end) && (EndsLine(end) || (end == [] && at == |s|))
    ensures Ended(s, at, cSep, TermOf(end), at + |end|)
  {
    assert forall k :: 0 <= k < |end| ==> s[at + k] == end[k];
    if EndsLine(end) {
      assert s[at + 0] == end[0];
      assert |end| == 2 ==> s[at + 1] == end[1];
    }
  }

  lemma {:induction false} EndsField(s: seq<byte>, at: nat, sep: byte)
    requires Has(s, at, [sep]) && sep < 128
    ensures Ended(s, at, Signed(sep), Signed(sep), at + 1)
  {
    assert s[at + 0] == [sep][0];
  }

  lemma {:induction false} Prepend(item: Item, a: seq<Item>, b: seq<Item>)
    ensures [item] + (a + b) == [item] + a + b
  {
  }

  lemma {:induction false} TableReads(s: seq<byte>, at: nat, sep: byte, rows: seq<Row>, end: seq<byte>, last: seq<byte>)
    requires Rows(rows) && Usual(sep) && (sep < 128 || OneColumn(rows)) && EndsLine(end) && (last == [] || EndsLine(last))
    requires Has(s, at, Written(rows, [sep], end, last)) && at + |Written(rows, [sep], end, last)| == |s|
    ensures ReadAll(s, at, Signed(sep), LINE_FEED) == Items(rows, sep, TermOf(last))
    decreases |rows|
  {
    hide EndsLine, WrittenRow, RowItems, Has, Signed, Written, Items, ReadAll, Rows, OneColumn, TermOf;
    if rows == [] {
      NoRows(s, at, sep, rows, end, last);
    } else {
      var e, rest := FirstRow(sep, rows, end, last);
      HasParts(s, at, WrittenRow(rows[0], [sep], e), Written(rest, [sep], end, last));
      RowReads(s, at, sep, rows[0], e);
      TableReads(s, at + |WrittenRow(rows[0], [sep], e)|, sep, rest, end, last);
    }
  }

  lemma {:induction false} NoRows(s: seq<byte>, at: nat, sep: byte, rows: seq<Row>, end: seq<byte>, last: seq<byte>)
    requires rows == [] && at + |Written(rows, [sep], end, last)| == |s|
    ensures ReadAll(s, at, Signed(sep), LINE_FEED) == Items(rows, sep, TermOf(last))
  {
  }

  lemma {:induction false} FirstRow(sep: byte, rows: seq<Row>, end: seq<byte>, last: seq<byte>) returns (e: seq<byte>, rest: seq<Row>)
    requires rows != [] && Rows(rows) && EndsLine(end) && (last == [] || EndsLine(last))
    ensures rest == rows[1..] && rows[0] != [] && Rows(rest) && (OneColumn(rows) ==> OneColumn(rest) && |rows[0]| == 1)
    ensures e == if rest == [] then last else end
    ensures Written(rows, [sep], end, last) == WrittenRow(rows[0], [sep], e) + Written(rest, [sep], end, last)
    ensures Items(rows, sep, TermOf(last)) == RowItems(rows[0], sep, TermOf(e)) + Items(rest, sep, TermOf(last))
    ensures rest == [] ==> Written(rest, [sep], end, last) == []
  {
    hide WrittenRow, RowItems;
    e, rest := if |rows| == 1 then last else end, rows[1..];
  }

  ghost predicate OneColumn(rows: seq<Row>) {
    forall i :: 0 <= i < |rows| ==> |rows[i]| == 1
  }

  /** The CSV round trip: reading what was written gives back the same fields and the same row ends exactly
      when the separator is an ASCII character, or is never needed. (A byte from 128 on becomes negative
      when the reader stores it, and then no character equals it.) It does not matter whether rows end with CR LF,
      as written, or with LF alone, and whether the last row ends at all: then the end of the input ends it. */
  lemma {:induction false} RoundTrip(rows: seq<Row>, sep: byte, end: seq<byte>, last: seq<byte>)
    requires Rows(rows) && Usual(sep)
    requires (end == [NEWLINE] || end == [RETURN, NEWLINE]) && (last == [] || last == [NEWLINE] || last == [RETURN, NEWLINE])
    ensures var items := Items(rows, sep, if last == [] then EOF else LINE_FEED);
            ReadAll(Written(rows, [sep], end, last), 0, Signed(sep), Signed(NEWLINE)) == items <==> sep < 128 || OneColumn(rows)
  {
    var s := Written(rows, [sep], end, last);
    if sep < 128 || OneColumn(rows) {
      TableReads(s, 0, sep, rows, end, last);
    } else {
      var items := ReadAll(s, 0, Signed(sep), LINE_FEED);
      ItemsEnd(rows, sep, TermOf(last));
      NeverSeparated(s, 0, Signed(sep));
    }
  }

  /** A table of several columns has separators, which do not come last. */
  lemma {:induction false} ItemsEnd(rows: seq<Row>, sep: byte, last: int)
    requires rows != [] && Rows(rows)
    ensures var items := Items(rows, sep, last);
            && items != []
            && (!OneColumn(rows) ==> exists k :: 0 <= k < |items| - 1 && items[k].term == Signed(sep))
    decreases |rows|
  {
    var term := if |rows| == 1 then last else LINE_FEED;
    RowItemsEnd(rows[0], sep, term);
    var first := RowItems(rows[0], sep, term);
    if |rows| == 1 {
      assert Items(rows, sep, last) == first;
    } else {
      ItemsEnd(rows[1..], sep, last);
      var rest := Items(rows[1..], sep, last);
      if |rows[0]| > 1 {
        assert Items(rows, sep, last)[0].term == Signed(sep);
      } else if !OneColumn(rows) {
        assert !OneColumn(rows[1..]);
        var k :| 0 <= k < |rest| - 1 && rest[k].term == Signed(sep);
        assert Items(rows, sep, last)[|first| + k].term == Signed(sep);
      }
    }
  }

  lemma {:induction false} RowItemsEnd(row: Row, sep: byte, term: int)
    requires row != []
    ensures var items := RowItems(row, sep, term);
            items != [] && (|row| > 1 ==> |items| > 1 && items[0].term == Signed(sep))
    decreases |row|
  {
    if |row| > 1 {
      RowItemsEnd(row[1..], sep, term);
    }
  }

  /** Only the last item can have ended with something that is not a byte. */
  ghost predicate BytesEnd(items: seq<Item>) {
    forall k :: 0 <= k < |items| && items[k].term < 0 ==> k == |items| - 1
  }

  /** A field ends with a byte or at the end of the input, after which there is no other. */
  lemma {:induction false} NeverSeparated(s: seq<byte>, at: nat, cSep: int)
    requires at <= |s| && cSep < 0
    ensures BytesEnd(ReadAll(s, at, cSep, LINE_FEED))
    decreases |s| - at
  {
    if at < |s| {
      var r := ReadField(s, at, cSep, LINE_FEED).value;
      if s[at] == QUOTE {
        QuotedTerm(s, at + 1, cSep, [], 0, 0);
      } else {
        UnquotedTerm(s, at, cSep, []);
      }
      NeverSeparated(s, r.pos, cSep);
      assert ReadAll(s, |s|, cSep, LINE_FEED) == [];
      OneMoreEnds(Item(r.value, r.term), ReadAll(s, r.pos, cSep, LINE_FEED));
    }
  }

  lemma {:induction false} OneMoreEnds(item: Item, rest: seq<Item>)
    requires BytesEnd(rest) && (item.term < 0 ==> rest == [])
    ensures BytesEnd([item] + rest)
  {
  }

  lemma {:induction false} QuotedTerm(s: seq<byte>, at: nat, cSep: int, z: seq<byte>, pc: int, ppc: int)
    requires at <= |s| && Consistent(z, pc, ppc)
    ensures var r := Quoted(s, at, cSep, LINE_FEED, z, pc, ppc);
            r.term < 0 ==> r.pos == |s|
    decreases |s| - at
  {
    var c := Get(s, at);
    if c == DOUBLE_QUOTE && pc == DOUBLE_QUOTE {
      QuotedTerm(s, at + 1, cSep, z, 0, ppc);
    } else if !Closes(c, pc, ppc, cSep, LINE_FEED) && c != EOF {
      QuotedTerm(s, at + 1, cSep, z + [c], c, pc);
    }
  }

  lemma {:induction false} UnquotedTerm(s: seq<byte>, at: nat, cSep: int, z: seq<byte>)
    requires at <= |s|
    ensures var r := Unquoted(s, at, cSep, LINE_FEED, z);
            r.term < 0 ==> r.pos == |s|
    decreases |s| - at
  {
    var c := Get(s, at);
    if c != EOF && c != cSep && c != LINE_FEED {
      UnquotedTerm(s, at + 1, cSep, z + [c]);
    }
  }

  /** Read fields until there is none. */
  method ReadFields(input: seq<byte>, colSep: byte, rowSep: byte) returns (items: seq<Item>)
    ensures items == ReadAll(input, 0, Signed(colSep), Signed(rowSep))
  {
    var p := new ImportCtx(input, colSep, rowSep);
    items := [];
    while true
      invariant p.Valid() && fresh(p) && fresh(p.z)
      invariant p.input == input && p.cColSep == Signed(colSep) && p.cRowSep == Signed(rowSep)
      invariant items + ReadAll(input, p.pos, Signed(colSep), Signed(rowSep)) == ReadAll(input, 0, Signed(colSep), Signed(rowSep))
      decreases |input| - p.pos
    {
      ghost var before, at := items, p.pos;
      var z := p.CsvReadOneField();
      if z == None {
        assert items + [] == items;
        return;
      }
      items := items + [Item(z.value, p.cTerm)];
      Prepend(Item(z.value, p.cTerm), [], ReadAll(input, p.pos, Signed(colSep), Signed(rowSep)));
    }
  }

  /** Write a table and read it: the fields and row ends are the same exactly when the separator is an ASCII
      character, or is never needed. */
  method ExportThenImport(rows: seq<Row>, sep: byte) returns (items: seq<Item>)
    requires Rows(rows) && Usual(sep)
    requires forall i, j :: 0 <= i < |rows| && 0 <= j < |rows[i]| ==> 0 !in rows[i][j]
    ensures items == Items(rows, sep, LINE_FEED) <==> sep < 128 || OneColumn(rows)
  {
    var shell := new ShellState([sep]);
    shell.OutputTable(rows);
    assert [] + Written(rows, [sep], CRLF, CRLF) == Written(rows, [sep], CRLF, CRLF);
    items := ReadFields(shell.out, sep, NEWLINE);
    RoundTrip(rows, sep, CRLF, CRLF);
  }
}
