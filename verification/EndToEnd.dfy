/** Building an index and reading lines through it, against cutting the decompressed text into lines. */
module EndToEnd {
  import opened Prelude
  import opened Deflate
  import opened FilePlan
  import opened Layout
  import opened TextLines
  import opened Indexing
  import opened IndexTables
  import opened IndexBuilding
  import opened Resuming
  import opened IndexReading
  import opened SavedLines
  import Zlib

  /** Lines a to b - 1, with newlines between them. */
  function Between(ls: seq<Line>, a: nat, b: nat): seq<byte>
    requires a < b <= |ls|
  {
    if a + 1 == b then ls[a] else Between(ls, a, b - 1) + [NEWLINE] + ls[b - 1]
  }

  lemma {:induction false} BetweenJoins(ls: seq<Line>, a: nat, b: nat)
    requires a < b <= |ls|
    ensures Between(ls, a, b) + [NEWLINE] == Join(ls[a..b])
  {
    var init := ls[a..b - 1];
    assert ls[a..b] == init + [ls[b - 1]];
    JoinConcat(init, [ls[b - 1]]);
    JoinOne(ls[b - 1]);
    if a + 1 == b {
      assert init == [];
    } else {
      BetweenJoins(ls, a, b - 1);
    }
  }

  /** The n-th saved line, and the lines up to the next saved one. */
  function LineText(cfg: Config, ls: seq<Line>, n: nat): seq<byte>
    requires 1 <= n <= |Kept(cfg, ls)|
  {
    Between(ls, Kept(cfg, ls)[n - 1], Until(cfg, ls, n))
  }

  /** What requesting a line should deliver. */
  function Wanted(cfg: Config, ls: seq<Line>, n: nat): seq<Delivered> {
    if 1 <= n <= |Kept(cfg, ls)| then [Delivered(n, Start(ls, Kept(cfg, ls)[n - 1]), LineText(cfg, ls, n))] else []
  }

  function AllWanted(cfg: Config, ls: seq<Line>, lines: seq<nat>): seq<Delivered> {
    if lines == [] then [] else AllWanted(cfg, ls, lines[..|lines| - 1]) + Wanted(cfg, ls, lines[|lines| - 1])
  }

  /** A requested line lies in member m of the file, and is not too long. */
  ghost predicate InMember(pl: Plan, cfg: Config, ls: seq<Line>, n: nat, m: nat) {
    1 <= n <= |Kept(cfg, ls)| ==>
      && m < |pl.outs|
      && |LineText(cfg, ls, n)| + 1 < MAX_LENGTH
      && var from := Start(ls, Kept(cfg, ls)[n - 1]);
         pl.Base(m) <= from < pl.Base(m + 1) && from + |LineText(cfg, ls, n)| <= pl.Base(m + 1)
  }

  /** Every requested line lies in the member named for it. */
  ghost predicate AllInMember(pl: Plan, cfg: Config, ls: seq<Line>, lines: seq<nat>, ms: seq<nat>) {
    |ms| == |lines| && forall k :: 0 <= k < |lines| ==> InMember(pl, cfg, ls, lines[k], ms[k])
  }

  predicate Saved(cfg: Config, ls: seq<Line>, n: nat) {
    1 <= n <= |Kept(cfg, ls)|
  }

  /** Where the n-th saved line starts, and the place that reading it reaches. */
  function From(cfg: Config, ls: seq<Line>, n: nat): nat
    requires Saved(cfg, ls, n)
  {
    Start(ls, Kept(cfg, ls)[n - 1])
  }

  function Reached(cfg: Config, ls: seq<Line>, n: nat): nat
    requires Saved(cfg, ls, n)
  {
    From(cfg, ls, n) + |LineText(cfg, ls, n)| + 1
  }

  /** The last request for a line that is saved, or -1. */
  function LastSaved(cfg: Config, ls: seq<Line>, lines: seq<nat>): (j: int)
    ensures -1 <= j < |lines| && (j >= 0 ==> Saved(cfg, ls, lines[j]))
  {
    if lines == [] then -1
    else if Saved(cfg, ls, lines[|lines| - 1]) then |lines| - 1
    else LastSaved(cfg, ls, lines[..|lines| - 1])
  }

  /** Request k starts in a later member than the one served before it, and less than a block behind the place
      reached then. */
  ghost predicate Hops(pl: Plan, cfg: Config, ls: seq<Line>, blockSize: nat, lines: seq<nat>, ms: seq<nat>, k: nat)
    requires k < |lines| == |ms|
  {
    var j := LastSaved(cfg, ls, lines[..k]);
    && j >= 0 && Saved(cfg, ls, lines[k]) && ms[j] < |pl.outs|
    && Reached(cfg, ls, lines[j]) <= pl.Base(ms[j] + 1) <= From(cfg, ls, lines[k]) < Reached(cfg, ls, lines[j]) + blockSize
  }

  /** The same, from a place before the end of the member. */
  ghost predicate SurelyHops(pl: Plan, cfg: Config, ls: seq<Line>, blockSize: nat, lines: seq<nat>, ms: seq<nat>, k: nat)
    requires k < |lines| == |ms|
  {
    Hops(pl, cfg, ls, blockSize, lines, ms, k)
    && Reached(cfg, ls, lines[LastSaved(cfg, ls, lines[..k])]) < pl.Base(ms[LastSaved(cfg, ls, lines[..k])] + 1)
  }

  ghost predicate NeverHops(pl: Plan, cfg: Config, ls: seq<Line>, blockSize: nat, lines: seq<nat>, ms: seq<nat>)
    requires |lines| == |ms|
  {
    forall k :: 0 <= k < |lines| ==> !Hops(pl, cfg, ls, blockSize, lines, ms, k)
  }

  ghost predicate NeverSurelyHops(pl: Plan, cfg: Config, ls: seq<Line>, blockSize: nat, lines: seq<nat>, ms: seq<nat>)
    requires |lines| == |ms|
  {
    forall k :: 0 <= k < |lines| ==> !SurelyHops(pl, cfg, ls, blockSize, lines, ms, k)
  }

  /** Requests that stay in one member never hop, whatever the block size. */
  lemma {:induction false} OneMember(pl: Plan, cfg: Config, ls: seq<Line>, blockSize: nat, lines: seq<nat>, ms: seq<nat>, m: nat)
    requires AllInMember(pl, cfg, ls, lines, ms) && forall k :: 0 <= k < |ms| ==> ms[k] == m
    ensures NeverHops(pl, cfg, ls, blockSize, lines, ms)
  {
    forall k | 0 <= k < |lines|
      ensures !Hops(pl, cfg, ls, blockSize, lines, ms, k)
    {
      assert InMember(pl, cfg, ls, lines[k], ms[k]);
    }
  }

  /** Without sparse mode, line n is the n-th line. */
  lemma {:induction false} NonSparse(cfg: Config, ls: seq<Line>, n: nat)
    requires cfg.saveAllLines
    ensures |Kept(cfg, ls)| == |ls|
    ensures Wanted(cfg, ls, n) == if 1 <= n <= |ls| then [Delivered(n, Start(ls, n - 1), ls[n - 1])] else []
  {
    AllKept(cfg, ls);
  }

  /** In a file of one member the only condition left is the length. */
  lemma {:induction false} SingleMember(pl: Plan, cfg: Config, n: nat)
    requires pl.Valid() && |pl.outs| == 1
    requires ScanLines(cfg, AllLines(pl.text)).Some?
    ensures InMember(pl, cfg, AllLines(pl.text), n, 0) <==>
              (1 <= n <= |Kept(cfg, AllLines(pl.text))| ==> |LineText(cfg, AllLines(pl.text), n)| + 1 < 64 * 1024 * 1024)
  {
    var ls := AllLines(pl.text);
    if 1 <= n <= |Kept(cfg, ls)| {
      RowText(cfg, pl.text, ScanLines(cfg, ls).value, n);
    }
  }

  lemma {:induction false} SameBefore(a: seq<byte>, b: seq<byte>)
    requires a + [NEWLINE] == b + [NEWLINE]
    ensures a == b
  {
    assert (a + [NEWLINE])[..|a|] == a && (b + [NEWLINE])[..|b|] == b;
  }

  /** A row of the line table in terms of the lines. */
  lemma {:induction false} RowText(cfg: Config, text: seq<byte>, sc: Scan, n: nat)
    requires ScanLines(cfg, AllLines(text)) == Some(sc) && 1 <= n <= |Kept(cfg, AllLines(text))|
    ensures |sc.offsets| == |Kept(cfg, AllLines(text))|
    ensures var row, ls := RowOf(sc, n), AllLines(text);
            && row.offset == Start(ls, Kept(cfg, ls)[n - 1]) < |text|
            && row.length == |LineText(cfg, ls, n)| + 1 && row.offset + row.length - 1 <= |text|
            && text[row.offset..row.offset + row.length - 1] == LineText(cfg, ls, n)
  {
    Delivery(cfg, text, sc, n);
    Extents(cfg, AllLines(text), sc, n);
    var ls, row := AllLines(text), RowOf(sc, n);
    BetweenJoins(ls, Kept(cfg, ls)[n - 1], Until(cfg, ls, n));
    SameBefore(text[row.offset..row.offset + row.length - 1], LineText(cfg, ls, n));
  }

  /** The rows that describe a file let the reader find its lines. */
  lemma {:induction false} DescribedIsIndexed(codec: Codec, s: seq<byte>, every: nat, cfg: Config, b: Built)
    requires Describes(b, PlanOf(codec, s), every, cfg, PlanOf(codec, s).text)
    ensures IndexReading.Indexed(codec, s, PlanOf(codec, s), every, IndexRows(b.accessPoints, b.lineOffsets))
  {
    var pl := PlanOf(codec, s);
    PlanDecodes(codec, s);
    var ls := AllLines(pl.text);
    var sc := ScanLines(cfg, ls).value;
    ScanFits(cfg, ls);
    forall n | n in b.lineOffsets
      ensures LineWithin(b.lineOffsets[n], |pl.text|)
    {
      RowText(cfg, pl.text, sc, n);
    }
    if |pl.text| == 0 {
      var marks := pl.Marking().FileMarks(every);
      assert forall key :: key in b.accessPoints ==> IsKey(pl, marks, 0, key);
      assert b.accessPoints.Keys == {};
    }
  }

  /** The index holds the line table of its text. */
  ghost predicate Opened(ix: Index, cfg: Config, sc: Scan) {
    && ix.pl.Valid() && ScanLines(cfg, AllLines(ix.pl.text)) == Some(sc)
    && ix.rows.lineOffsets == LineTable(sc.offsets + [sc.next], |sc.offsets|)
  }

  /** What the index answers for a line that has a row. */
  lemma {:induction false} AnswerOfRow(ix: Index, row: LineRow, n: nat, text: seq<byte>)
    requires n in ix.rows.lineOffsets && ix.rows.lineOffsets[n] == row
    requires row.length == |text| + 1 && row.offset < |ix.pl.text| && row.offset + |text| <= |ix.pl.text|
    requires ix.pl.text[row.offset..row.offset + |text|] == text
    ensures ix.Answer(n) == [Delivered(n, row.offset, text)]
  {
  }

  /** And where it must lie. */
  lemma {:induction false} RowLiesIn(ix: Index, row: LineRow, n: nat, m: nat)
    requires ix.pl.Valid() && n in ix.rows.lineOffsets && ix.rows.lineOffsets[n] == row
    requires m < |ix.pl.outs| && ix.pl.Base(m) <= row.offset < ix.pl.Base(m + 1)
    requires 0 < row.length < MAX_LENGTH && row.offset + row.length - 1 <= ix.pl.Base(m + 1)
    ensures ix.LiesIn(n, m)
  {
    ix.pl.BeginsGrow(m + 1, |ix.pl.outs|);
  }

  /** What the index answers is what is wanted, and lies where the line lies. */
  lemma {:induction false} AnswerIsWanted(ix: Index, cfg: Config, sc: Scan, n: nat, m: nat)
    requires Opened(ix, cfg, sc)
    ensures ix.Answer(n) == Wanted(cfg, AllLines(ix.pl.text), n)
    ensures InMember(ix.pl, cfg, AllLines(ix.pl.text), n, m) ==> ix.LiesIn(n, m)
  {
    var ls := AllLines(ix.pl.text);
    ScanFits(cfg, ls);
    if 1 <= n <= |sc.offsets| {
      var row, text := WantedRow(cfg, ix.pl.text, sc, n);
      AnswerOfRow(ix, row, n, text);
      if InMember(ix.pl, cfg, ls, n, m) {
        RowLiesIn(ix, row, n, m);
      }
    }
  }

  lemma {:induction false} WantedRow(cfg: Config, s: seq<byte>, sc: Scan, n: nat) returns (row: LineRow, text: seq<byte>)
    requires ScanLines(cfg, AllLines(s)) == Some(sc) && 1 <= n <= |Kept(cfg, AllLines(s))|
    ensures n <= |sc.offsets| && row == LineRowOf(sc.offsets + [sc.next], n)
    ensures text == LineText(cfg, AllLines(s), n) && row.offset == Start(AllLines(s), Kept(cfg, AllLines(s))[n - 1])
    ensures row.length == |text| + 1 && row.offset < |s| && row.offset + |text| <= |s|
    ensures s[row.offset..row.offset + |text|] == text
  {
    RowText(cfg, s, sc, n);
    row, text := RowOf(sc, n), LineText(cfg, AllLines(s), n);
  }

  lemma {:induction false} AnswersAreWanted(ix: Index, cfg: Config, sc: Scan, lines: seq<nat>)
    requires Opened(ix, cfg, sc)
    ensures ix.Answers(lines) == AllWanted(cfg, AllLines(ix.pl.text), lines)
  {
    hide AllLines, Wanted, Opened;
    if lines != [] {
      AnswersAreWanted(ix, cfg, sc, lines[..|lines| - 1]);
      AnswerIsWanted(ix, cfg, sc, lines[|lines| - 1], 0);
    }
  }

  lemma {:induction false} AllLieWhereWanted(ix: Index, cfg: Config, sc: Scan, lines: seq<nat>, ms: seq<nat>)
    requires Opened(ix, cfg, sc) && AllInMember(ix.pl, cfg, AllLines(ix.pl.text), lines, ms)
    ensures ix.AllIn(lines, ms)
  {
    hide AllLines, Wanted, InMember, Opened;
    forall k | 0 <= k < |lines|
      ensures ix.LiesIn(lines[k], ms[k])
    {
      AnswerIsWanted(ix, cfg, sc, lines[k], ms[k]);
    }
  }

  /** The index has a row exactly for a saved line, from its start to the place that reading it reaches. */
  lemma {:induction false} RowIsSaved(ix: Index, cfg: Config, sc: Scan, n: nat)
    requires Opened(ix, cfg, sc)
    ensures var ls := AllLines(ix.pl.text);
            && (ix.Has(n) <==> Saved(cfg, ls, n))
            && (ix.Has(n) ==> ix.rows.lineOffsets[n].offset == From(cfg, ls, n) && ix.EndOf(n) == Reached(cfg, ls, n))
  {
    ScanFits(cfg, AllLines(ix.pl.text));
    if 1 <= n <= |sc.offsets| {
      var row, text := WantedRow(cfg, ix.pl.text, sc, n);
    }
  }

  lemma {:induction false} LastIsSaved(ix: Index, cfg: Config, sc: Scan, lines: seq<nat>)
    requires Opened(ix, cfg, sc)
    ensures ix.LastServed(lines) == LastSaved(cfg, AllLines(ix.pl.text), lines)
  {
    hide AllLines, Saved, Opened;
    if lines != [] {
      RowIsSaved(ix, cfg, sc, lines[|lines| - 1]);
      LastIsSaved(ix, cfg, sc, lines[..|lines| - 1]);
    }
  }

  /** Hopping is what disturbs a run. */
  lemma {:induction false} HopsDisturb(ix: Index, cfg: Config, sc: Scan, lines: seq<nat>, ms: seq<nat>, k: nat)
    requires Opened(ix, cfg, sc) && k < |lines| == |ms|
    ensures ix.HazardAt(lines, ms, k) <==> Hops(ix.pl, cfg, AllLines(ix.pl.text), ix.blockSize, lines, ms, k)
    ensures ix.SureHazardAt(lines, ms, k) <==> SurelyHops(ix.pl, cfg, AllLines(ix.pl.text), ix.blockSize, lines, ms, k)
  {
    hide AllLines, Saved, Opened, From, Reached;
    LastIsSaved(ix, cfg, sc, lines[..k]);
    RowIsSaved(ix, cfg, sc, lines[k]);
    var j := LastSaved(cfg, AllLines(ix.pl.text), lines[..k]);
    if j >= 0 {
      RowIsSaved(ix, cfg, sc, lines[j]);
    }
  }

  /** What a run of requests comes to: `got` says how many bytes of each delivered line were decoded. */
  ghost predicate RunOutcome(pl: Plan, cfg: Config, blockSize: nat, lines: seq<nat>, ms: seq<nat>,
                             failure: Option<Error>, delivered: seq<Delivered>, got: seq<nat>) {
    var ls := AllLines(pl.text);
    AllInMember(pl, cfg, ls, lines, ms) ==>
      && (NeverHops(pl, cfg, ls, blockSize, lines, ms) ==> failure.None? && Index.AllDecoded(got))
      && (failure.None? && Index.AllDecoded(got) ==>
            delivered == AllWanted(cfg, ls, lines) && NeverSurelyHops(pl, cfg, ls, blockSize, lines, ms))
  }

  /** zindex, then zq: when the index can be built, a run of requests, each for a line that lies in one member,
      delivers what decompressing the file from the start and cutting the text at its newlines gives: each
      requested line that is saved, in the order requested, and nothing else. That holds as long as no request
      hops from one member to a later one less than a block away, and it fails when one hops from a place before
      the end of a member: then the call throws, or delivers a line of which nothing was decoded. */
  method BuildThenGetLines(codec: Codec, compressed: seq<byte>, indexEvery: nat, cfg: Config, blockSize: nat,
                           lines: seq<nat>, ghost ms: seq<nat>)
    returns (built: bool, failure: Option<Error>, matched: nat, delivered: seq<Delivered>, ghost got: seq<nat>)
    requires compressed != []
    ensures var pl := PlanOf(codec, compressed);
            && (built <==> Accepts(pl, Clean(codec, compressed), indexEvery, cfg, pl.text))
            && (built ==> RunOutcome(pl, cfg, blockSize, lines, ms, failure, delivered, got))
    ensures failure.None? ==> matched == |delivered| == |got|
  {
    var b := Build(codec, compressed, indexEvery, cfg);
    failure, matched, delivered, got := None, 0, [], [];
    built := b.Ok?;
    if built {
      failure, matched, delivered, got := OpenAndGetLines(codec, compressed, indexEvery, cfg, b.value, blockSize, lines, ms);
    }
  }

  method OpenAndGetLines(codec: Codec, compressed: seq<byte>, ghost indexEvery: nat, ghost cfg: Config, b: Built,
                         blockSize: nat, lines: seq<nat>, ghost ms: seq<nat>)
    returns (failure: Option<Error>, matched: nat, delivered: seq<Delivered>, ghost got: seq<nat>)
    requires Describes(b, PlanOf(codec, compressed), indexEvery, cfg, PlanOf(codec, compressed).text)
    ensures RunOutcome(PlanOf(codec, compressed), cfg, blockSize, lines, ms, failure, delivered, got)
    ensures failure.None? ==> matched == |delivered| == |got|
  {
    hide InMember, AllLines, Hops, SurelyHops, AllWanted;
    ghost var pl := PlanOf(codec, compressed);
    DescribedIsIndexed(codec, compressed, indexEvery, cfg, b);
    var file := new Zlib.File(compressed);
    var index := new Index(codec, file, IndexRows(b.accessPoints, b.lineOffsets), blockSize, pl, indexEvery);
    ghost var sc := ScanLines(cfg, AllLines(pl.text)).value;
    failure, matched, delivered, got := index.GetLines(lines, ms);
    RunIsWanted(index, cfg, sc, lines, ms, failure, delivered, got);
  }

  lemma {:induction false} RunIsWanted(ix: Index, cfg: Config, sc: Scan, lines: seq<nat>, ms: seq<nat>,
                                       failure: Option<Error>, delivered: seq<Delivered>, got: seq<nat>)
    requires Opened(ix, cfg, sc)
    requires ix.AllIn(lines, ms) && ix.Undisturbed(lines, ms, |lines|, None, 0) ==> failure.None? && Index.AllDecoded(got)
    requires ix.AllIn(lines, ms) && failure.None? && Index.AllDecoded(got) ==>
               delivered == ix.Answers(lines) && ix.NeverSure(lines, ms, |lines|, None, 0)
    ensures RunOutcome(ix.pl, cfg, ix.blockSize, lines, ms, failure, delivered, got)
  {
    hide InMember, AllLines, Hops, SurelyHops, AllWanted, Opened;
    if AllInMember(ix.pl, cfg, AllLines(ix.pl.text), lines, ms) {
      AllLieWhereWanted(ix, cfg, sc, lines, ms);
      AnswersAreWanted(ix, cfg, sc, lines);
      forall k | 0 <= k < |lines|
        ensures ix.HazardAt(lines, ms, k) <==> Hops(ix.pl, cfg, AllLines(ix.pl.text), ix.blockSize, lines, ms, k)
        ensures ix.SureHazardAt(lines, ms, k) <==> SurelyHops(ix.pl, cfg, AllLines(ix.pl.text), ix.blockSize, lines, ms, k)
      {
        HopsDisturb(ix, cfg, sc, lines, ms, k);
      }
    }
  }
}
