/** What the line table and the index tables say about the text: which lines are saved, under which
    number, and what their extents hold (src/LineFinder.cpp:24-47, src/Index.cpp:306-319, 649-656, 716-726). */
module SavedLines {
  import opened Prelude
  import opened TextLines
  import opened Indexing
  import opened IndexTables

  /** The positions, among the lines, of those that are saved. A line is numbered one more than the lines
      saved before it. */
  function Kept(cfg: Config, ls: seq<Line>): (r: seq<nat>)
    ensures forall n :: 0 <= n < |r| ==> r[n] < |ls|
    ensures forall m, n :: 0 <= m < n < |r| ==> r[m] < r[n]
  {
    if ls == [] then []
    else
      var j := |ls| - 1;
      var before := Kept(cfg, ls[..j]);
      if Saves(cfg, |before| + 1, ls[j]) then before + [j] else before
  }

  /** Where line j starts. */
  function Start(ls: seq<Line>, j: nat): nat
    requires j <= |ls|
  {
    |Join(ls[..j])|
  }

  /** Where the extent of the n-th saved line ends: at the next saved line, or behind the last line. */
  function Until(cfg: Config, ls: seq<Line>, n: nat): (r: nat)
    requires 1 <= n <= |Kept(cfg, ls)|
    ensures Kept(cfg, ls)[n - 1] < r <= |ls|
  {
    if n < |Kept(cfg, ls)| then Kept(cfg, ls)[n] else |ls|
  }

  /** The lines that are skipped are saved under their own numbers, and no later line gets such a number. */
  lemma {:induction false} SkippedAreKept(cfg: Config, ls: seq<Line>)
    ensures |ls| <= cfg.skipFirst ==> |Kept(cfg, ls)| == |ls|
    ensures |ls| > cfg.skipFirst ==> |Kept(cfg, ls)| >= cfg.skipFirst
  {
    if ls != [] {
      SkippedAreKept(cfg, ls[..|ls| - 1]);
    }
  }

  /** Which lines a sparse index leaves out: a line is saved exactly when it is one of the skipped ones, all
      lines are, or some indexer finds a key on it. */
  lemma {:induction false} KeptWhen(cfg: Config, ls: seq<Line>, j: nat)
    ensures j in Kept(cfg, ls) <==>
              && j < |ls|
              && (|| j < cfg.skipFirst || cfg.saveAllLines
                  || exists i :: 0 <= i < |cfg.indexers| && cfg.indexers[i].find(ls[j]) != [])
  {
    if ls != [] {
      KeptWhen(cfg, ls[..|ls| - 1], j);
      SkippedAreKept(cfg, ls[..|ls| - 1]);
    }
  }

  // ----- joined lines

  lemma {:induction false} JoinConcat(a: seq<Line>, b: seq<Line>)
    ensures Join(a + b) == Join(a) + Join(b)
    decreases |b|
  {
    if b == [] {
      assert a + b == a;
    } else {
      var n := |b| - 1;
      assert (a + b)[..|a| + n] == a + b[..n];
      JoinConcat(a, b[..n]);
    }
  }

  lemma {:induction false} JoinOne(l: Line)
    ensures Join([l]) == l + [NEWLINE]
  {
    assert [l][..0] == [];
  }

  lemma {:induction false} JoinSlice(ls: seq<Line>, a: nat, b: nat)
    requires a <= b <= |ls|
    ensures Start(ls, a) <= Start(ls, b) <= |Join(ls)|
    ensures Join(ls)[Start(ls, a)..Start(ls, b)] == Join(ls[a..b])
  {
    assert ls[..b] == ls[..a] + ls[a..b] && ls == ls[..b] + ls[b..];
    JoinConcat(ls[..a], ls[a..b]);
    JoinConcat(ls[..b], ls[b..]);
  }

  lemma {:induction false} StartsGrow(ls: seq<Line>, a: nat, b: nat)
    requires a < b <= |ls|
    ensures Start(ls, a) + |ls[a]| + 1 <= Start(ls, b)
  {
    JoinSlice(ls, a, b);
    FirstOf(ls[a..b]);
  }

  /** Joined lines start with the first of them and its newline. */
  lemma {:induction false} FirstOf(ls: seq<Line>)
    requires ls != []
    ensures ls[0] + [NEWLINE] <= Join(ls)
    ensures |ls| == 1 ==> Join(ls) == ls[0] + [NEWLINE]
  {
    assert ls == [ls[0]] + ls[1..];
    JoinConcat([ls[0]], ls[1..]);
    JoinOne(ls[0]);
    assert |ls| == 1 ==> ls[1..] == [];
  }

  /** All lines joined are the text, and one byte more after a last line without a newline. */
  lemma {:induction false} JoinAll(s: seq<byte>)
    ensures Join(AllLines(s)) == if Tail(s) == [] then s else s + [NEWLINE]
  {
    Rejoin(s);
    if Tail(s) == [] {
      assert Join(Lines(s)) + [] == Join(Lines(s));
    } else {
      JoinConcat(Lines(s), [Tail(s)]);
      JoinOne(Tail(s));
      assert Join(Lines(s)) + (Tail(s) + [NEWLINE]) == (Join(Lines(s)) + Tail(s)) + [NEWLINE];
    }
  }

  // ----- the scan

  /** The call for line j. */
  function CallOf(cfg: Config, ls: seq<Line>, j: nat): Call
    requires j < |ls|
  {
    Call(|Kept(cfg, ls[..j])| + 1, Start(ls, j), ls[j])
  }

  /** The calls are made once for each line, in order, with its offset and the number it would have. */
  ghost predicate CallsFit(cfg: Config, ls: seq<Line>, calls: seq<Call>) {
    |calls| == |ls| && forall j :: 0 <= j < |ls| ==> calls[j] == CallOf(cfg, ls, j)
  }

  ghost predicate OffsetsFit(ls: seq<Line>, kept: seq<nat>, offsets: seq<nat>) {
    && |offsets| == |kept|
    && forall n :: 0 <= n < |kept| ==> kept[n] < |ls| && offsets[n] == Start(ls, kept[n])
  }

  /** The scan makes these calls and saves exactly these offsets. */
  lemma {:induction false} ScanFits(cfg: Config, ls: seq<Line>)
    requires ScanLines(cfg, ls).Some?
    ensures var sc := ScanLines(cfg, ls).value;
            sc.next == |Join(ls)| && CallsFit(cfg, ls, sc.calls) && OffsetsFit(ls, Kept(cfg, ls), sc.offsets)
  {
    if ls != [] {
      var j := |ls| - 1;
      ScanFits(cfg, ls[..j]);
      var before := ScanLines(cfg, ls[..j]).value;
      CallsFitMore(cfg, ls, before.calls);
      OffsetsFitMore(ls, Kept(cfg, ls[..j]), before.offsets);
    }
  }

  lemma {:induction false} CallsFitMore(cfg: Config, ls: seq<Line>, calls: seq<Call>)
    requires ls != [] && CallsFit(cfg, ls[..|ls| - 1], calls)
    ensures CallsFit(cfg, ls, calls + [CallOf(cfg, ls, |ls| - 1)])
  {
    var init := ls[..|ls| - 1];
    forall j | 0 <= j < |init|
      ensures calls[j] == CallOf(cfg, ls, j)
    {
      assert calls[j] == CallOf(cfg, init, j);
      assert init[..j] == ls[..j];
    }
  }

  lemma {:induction false} OffsetsFitMore(ls: seq<Line>, kept: seq<nat>, offsets: seq<nat>)
    requires ls != [] && OffsetsFit(ls[..|ls| - 1], kept, offsets)
    ensures OffsetsFit(ls, kept, offsets)
    ensures OffsetsFit(ls, kept + [|ls| - 1], offsets + [Start(ls, |ls| - 1)])
  {
    var init := ls[..|ls| - 1];
    forall n | 0 <= n < |kept|
      ensures kept[n] < |ls| && offsets[n] == Start(ls, kept[n])
    {
      assert init[..kept[n]] == ls[..kept[n]];
    }
  }

  // ----- conservation of lines

  /** Row n of the line table. */
  function RowOf(sc: Scan, n: nat): LineRow
    requires 1 <= n <= |sc.offsets|
  {
    LineRowOf(sc.offsets + [sc.next], n)
  }

  /** The rows of the line table: they tile what follows the first saved line, and the extent of each is
      its own line and the lines up to the next saved one, with their newlines. */
  lemma {:induction false} Extents(cfg: Config, ls: seq<Line>, sc: Scan, n: nat)
    requires ScanLines(cfg, ls) == Some(sc) && 1 <= n <= |Kept(cfg, ls)|
    ensures var kept, until := Kept(cfg, ls), Until(cfg, ls, n);
            && |sc.offsets| == |kept| && kept[n - 1] < until <= |ls|
            && var row := RowOf(sc, n);
               && row.offset == Start(ls, kept[n - 1])
               && row.length > |ls[kept[n - 1]]|
               && row.offset + row.length == Start(ls, until) <= |Join(ls)|
               && Join(ls)[row.offset..row.offset + row.length] == Join(ls[kept[n - 1]..until])
               && (n == |kept| ==> row.offset + row.length == |Join(ls)|)
               && (n < |kept| ==> row.offset + row.length == RowOf(sc, n + 1).offset)
  {
    ScanFits(cfg, ls);
    var kept := Kept(cfg, ls);
    assert ls[..|ls|] == ls;
    JoinSlice(ls, kept[n - 1], Until(cfg, ls, n));
    StartsGrow(ls, kept[n - 1], Until(cfg, ls, n));
  }

  /** The bytes of the joined lines that row n stands for. */
  function ExtentOf(ls: seq<Line>, sc: Scan, n: nat): seq<byte>
    requires 1 <= n <= |sc.offsets|
  {
    var from, length := RowOf(sc, n).offset, RowOf(sc, n).length;
    if 0 <= length && from + length <= |Join(ls)| then Join(ls)[from..from + length] else []
  }

  /** The extents of the rows from the n-th on, one after another. */
  function ExtentsFrom(ls: seq<Line>, sc: Scan, n: nat): seq<byte>
    requires 1 <= n
    decreases |sc.offsets| - n
  {
    if n > |sc.offsets| then [] else ExtentOf(ls, sc, n) + ExtentsFrom(ls, sc, n + 1)
  }

  /** Nothing of the text is lost or repeated from the first saved line on: the extents make it up. */
  lemma {:induction false} ExtentsMakeText(cfg: Config, ls: seq<Line>, sc: Scan, n: nat)
    requires ScanLines(cfg, ls) == Some(sc) && 1 <= n <= |Kept(cfg, ls)|
    ensures |sc.offsets| == |Kept(cfg, ls)| && Start(ls, Kept(cfg, ls)[n - 1]) <= |Join(ls)|
    ensures ExtentsFrom(ls, sc, n) == Join(ls)[Start(ls, Kept(cfg, ls)[n - 1])..]
    decreases |Kept(cfg, ls)| - n
  {
    hide Kept, ScanLines, Join, RowOf, Start, ExtentOf;
    var until := NextExtent(cfg, ls, sc, n);
    if n < |Kept(cfg, ls)| {
      ExtentsMakeText(cfg, ls, sc, n + 1);
    }
    SliceThenRest(Join(ls), Start(ls, Kept(cfg, ls)[n - 1]), until);
  }

  lemma {:induction false} NextExtent(cfg: Config, ls: seq<Line>, sc: Scan, n: nat) returns (until: nat)
    requires ScanLines(cfg, ls) == Some(sc) && 1 <= n <= |Kept(cfg, ls)|
    ensures |sc.offsets| == |Kept(cfg, ls)| && Start(ls, Kept(cfg, ls)[n - 1]) <= until <= |Join(ls)|
    ensures ExtentOf(ls, sc, n) == Join(ls)[Start(ls, Kept(cfg, ls)[n - 1])..until]
    ensures until == if n < |Kept(cfg, ls)| then Start(ls, Kept(cfg, ls)[n]) else |Join(ls)|
  {
    hide Kept, ScanLines, Join, Start, LineRowOf;
    Extents(cfg, ls, sc, n);
    until := RowOf(sc, n).offset + RowOf(sc, n).length;
  }

  lemma {:induction false} SliceThenRest(s: seq<byte>, a: nat, b: int)
    requires a <= b <= |s|
    ensures s[a..b] + s[b..] == s[a..]
  {
  }

  /** Without sparse mode every line is saved under its own number. */
  lemma {:induction false} AllKept(cfg: Config, ls: seq<Line>)
    requires cfg.saveAllLines
    ensures Kept(cfg, ls) == seq(|ls|, j => j)
  {
    if ls != [] {
      AllKept(cfg, ls[..|ls| - 1]);
    }
  }

  /** The slice that is delivered for a row: the first line of its extent, and after a newline the others.
      The last byte of the extent, a newline that may not even be there, is left out. */
  ghost predicate Delivers(s: seq<byte>, offset: nat, length: int, extent: seq<Line>) {
    && extent != [] && 0 < length && offset < |s| && offset + length - 1 <= |s|
    && var text := s[offset..offset + length - 1];
       && text + [NEWLINE] == Join(extent)
       && extent[0] <= text
       && (|extent| == 1 ==> text == extent[0])
  }

  lemma {:induction false} Delivery(cfg: Config, s: seq<byte>, sc: Scan, n: nat)
    requires ScanLines(cfg, AllLines(s)) == Some(sc) && 1 <= n <= |Kept(cfg, AllLines(s))|
    ensures var ls := AllLines(s);
            var j, until := Kept(cfg, ls)[n - 1], Until(cfg, ls, n);
            && |sc.offsets| == |Kept(cfg, ls)| && j < until <= |ls|
            && Delivers(s, RowOf(sc, n).offset, RowOf(sc, n).length, ls[j..until])
  {
    hide AllLines, Kept, ScanLines, Join, Delivers, Tail, LineRowOf;
    var ls := AllLines(s);
    var j := Kept(cfg, ls)[n - 1];
    Extents(cfg, ls, sc, n);
    JoinAll(s);
    StartsWithin(s, j);
    var row := RowOf(sc, n);
    ExtentText(s, Join(ls), row.offset, row.length, ls[j..Until(cfg, ls, n)]);
  }

  lemma {:induction false} ExtentText(s: seq<byte>, joined: seq<byte>, offset: nat, length: int, extent: seq<Line>)
    requires joined == s || joined == s + [NEWLINE]
    requires extent != [] && offset < |s| && 0 < length && offset + length <= |joined|
    requires joined[offset..offset + length] == Join(extent)
    ensures Delivers(s, offset, length, extent)
  {
    FirstOf(extent);
    EndsInNewline(extent);
    WithoutLast(s, joined, offset, length, Join(extent));
    PrefixWithoutLast(extent[0], s[offset..offset + length - 1], Join(extent));
  }

  lemma {:induction false} PrefixWithoutLast(first: seq<byte>, text: seq<byte>, joined: seq<byte>)
    requires first + [NEWLINE] <= joined && text + [NEWLINE] == joined
    ensures first <= text
    ensures first + [NEWLINE] == joined ==> text == first
  {
    assert forall k :: 0 <= k < |first| ==> first[k] == (first + [NEWLINE])[k] == text[k];
  }

  lemma {:induction false} EndsInNewline(ls: seq<Line>)
    requires ls != []
    ensures |Join(ls)| > 0 && Join(ls)[|Join(ls)| - 1] == NEWLINE
  {
  }

  /** Every line starts before the end of the text: a last line that is counted with one byte more is
      not empty. */
  lemma {:induction false} StartsWithin(s: seq<byte>, j: nat)
    requires j < |AllLines(s)|
    ensures Start(AllLines(s), j) < |s|
  {
    var ls := AllLines(s);
    var last := |ls| - 1;
    JoinAll(s);
    assert ls[..|ls|] == ls;
    StartsGrow(ls, last, |ls|);
    if j < last {
      StartsGrow(ls, j, last);
    }
  }

  lemma {:induction false} WithoutLast(s: seq<byte>, joined: seq<byte>, offset: nat, length: int, extent: seq<byte>)
    requires joined == s || joined == s + [NEWLINE]
    requires length > 0 && offset + length <= |joined| && joined[offset..offset + length] == extent
    requires extent[|extent| - 1] == NEWLINE && offset + length - 1 <= |s|
    ensures s[offset..offset + length - 1] + [NEWLINE] == extent
  {
    assert extent == joined[offset..offset + length - 1] + [joined[offset + length - 1]];
    assert joined[offset..offset + length - 1] == s[offset..offset + length - 1];
  }
}
