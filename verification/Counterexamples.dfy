/** Files for which building and reading fall short, whatever else is true of them. */
module Counterexamples {
  import opened Prelude
  import opened Deflate
  import opened Checkpoints
  import opened FilePlan
  import opened Layout
  import opened FixedCodes
  import opened TextLines
  import opened Indexing
  import opened IndexBuilding
  import opened IndexContents
  import IndexReading
  import opened SavedLines
  import opened EndToEnd

  // ----- a file that cannot be indexed

  lemma {:induction false} TwoMembersPlan(c: Codec, n: nat, trailer0: seq<byte>, trailer1: seq<byte>) returns (pl: Plan)
    requires Reads(c) && n > 0 && |trailer0| == |trailer1| == 8
    ensures var s := TwoMembers(n, trailer0, trailer1); pl == PlanOf(c, s) && Clean(c, s)
    ensures pl.Valid() && pl.outs == [[0, n, n], [n, 2 * n]] && pl.text == Repeat(NEWLINE, 2 * n)
  {
    hide TwoMembers, Reads;
    var s := TwoMembers(n, trailer0, trailer1);
    pl := PlanOf(c, s);
    TwoMembersParse(c, n, trailer0, trailer1);
    Offsets(n);
    TextOf(n);
    PlanOfValid(c, s);
  }

  /** It is not enough that no member is empty: for every spacing there is a gzip file of two non-empty members,
      the first ending in an empty block, that zlib accepts and that no configuration can index. */
  lemma {:induction false} ClashExample(c: Codec, every: nat, trailer0: seq<byte>, trailer1: seq<byte>, cfg: Config)
    requires Reads(c) && |trailer0| == |trailer1| == 8
    ensures var s := TwoMembers(every + 1, trailer0, trailer1);
            var pl := PlanOf(c, s);
            && Clean(c, s) && |pl.outs| == 2 && pl.Base(0) < pl.Base(1) < pl.Base(2)
            && !Accepts(pl, Clean(c, s), every, cfg, pl.text)
  {
    hide Accepts, Reads, TwoMembers, PlanOf, Clean;
    var pl := TwoMembersPlan(c, every + 1, trailer0, trailer1);
    FirstEnds(pl.Marking(), every + 1, every);
    AcceptsWhen(c, TwoMembers(every + 1, trailer0, trailer1), every, cfg);
  }

  /** The first member ends on its last checkpoint exactly when it is longer than the spacing. */
  lemma {:induction false} FirstEnds(sh: Shape, n: nat, every: nat)
    requires sh.Valid() && n > 0 && sh.outs == [[0, n, n], [n, 2 * n]]
    ensures sh.EndsOnMark(every, 0) <==> n > every
  {
    assert sh.MemberValid(0);
    assert sh.LastIn(every, 0, 1) == 0;
    assert sh.LastIn(every, 0, 2) == if n > every then 1 else 0;
    assert sh.LastIn(every, 0, 3) == if n > every then 1 else 0;
  }

  // ----- requests that cannot be served one after another

  function EmptyLines(n: nat): (r: seq<Line>)
    ensures |r| == n && forall i :: 0 <= i < n ==> r[i] == []
  {
    seq(n, i => [])
  }

  lemma {:induction false} NewlineLines(n: nat)
    ensures AllLines(Repeat(NEWLINE, n)) == EmptyLines(n) && Tail(Repeat(NEWLINE, n)) == []
  {
    if n > 0 {
      NewlineLines(n - 1);
      assert Repeat(NEWLINE, n)[..n - 1] == Repeat(NEWLINE, n - 1);
      assert EmptyLines(n) == EmptyLines(n - 1) + [[]];
    }
  }

  lemma {:induction false} EmptyLineStarts(n: nat, j: nat)
    requires j <= n
    ensures Start(EmptyLines(n), j) == j
  {
    var ls: seq<Line> := EmptyLines(n);
    if j > 0 {
      EmptyLineStarts(n, j - 1);
      assert ls[..j][..j - 1] == ls[..j - 1];
    }
  }

  /** A line of a file of empty lines. */
  lemma {:induction false} EmptyLine(cfg: Config, k: nat, n: nat)
    requires cfg.saveAllLines && 1 <= n <= k
    ensures var ls := EmptyLines(k);
            Saved(cfg, ls, n) && From(cfg, ls, n) == n - 1 && LineText(cfg, ls, n) == []
  {
    var ls: seq<Line> := EmptyLines(k);
    AllKept(cfg, ls);
    EmptyLineStarts(k, n - 1);
  }

  /** It is not enough that every line lies in one member. In a file of two members of n newlines each, lines n - 1
      and n + 2 can be read each for itself, but not one after the other, when the block size is 3 or more. Reading
      computes it from the access points: for this file it is (2 * n - 1) / 2. */
  lemma {:induction false} HopExample(c: Codec, n: nat, every: nat, trailer0: seq<byte>, trailer1: seq<byte>, blockSize: nat)
    requires Reads(c) && |trailer0| == |trailer1| == 8 && 2 <= n <= every && blockSize >= 3
    ensures BuildsButFails(c, TwoMembers(n, trailer0, trailer1), every, Config(0, true, []), blockSize, [n - 1, n + 2], [0, 1])
  {
    hide Accepts, Reads, TwoMembers, Clean, AllInMember, EmptyLines, PlanOf, From, EndToEnd.LineText, Kept, AlwaysFails;
    var pl := HopPlan(c, n, every, trailer0, trailer1);
    var cfg := Config(0, true, []);
    EmptyLine(cfg, 2 * n, n - 1);
    EmptyLine(cfg, 2 * n, n + 2);
    Hop(pl, cfg, n, AllLines(pl.text), blockSize);
    HoppingFails(pl, cfg, blockSize, [n - 1, n + 2], [0, 1]);
  }

  /** The file can be indexed, every request is for a line in one member, and the run of them cannot succeed. */
  ghost predicate BuildsButFails(c: Codec, s: seq<byte>, every: nat, cfg: Config, blockSize: nat, lines: seq<nat>, ms: seq<nat>) {
    var pl := PlanOf(c, s);
    && Accepts(pl, Clean(c, s), every, cfg, pl.text)
    && AllInMember(pl, cfg, AllLines(pl.text), lines, ms)
    && AlwaysFails(pl, cfg, blockSize, lines, ms)
  }

  /** However the decoder behaves, the run throws or delivers a line of which nothing was decoded. */
  ghost predicate AlwaysFails(pl: Plan, cfg: Config, blockSize: nat, lines: seq<nat>, ms: seq<nat>) {
    forall failure, delivered, got ::
      RunOutcome(pl, cfg, blockSize, lines, ms, failure, delivered, got) ==> failure.Some? || !IndexReading.Index.AllDecoded(got)
  }

  /** The file's plan, and that it can be indexed. */
  lemma {:induction false} HopPlan(c: Codec, n: nat, every: nat, trailer0: seq<byte>, trailer1: seq<byte>) returns (pl: Plan)
    requires Reads(c) && |trailer0| == |trailer1| == 8 && 0 < n <= every
    ensures pl == PlanOf(c, TwoMembers(n, trailer0, trailer1)) && AllLines(pl.text) == EmptyLines(2 * n)
    ensures |pl.outs| == 2 && pl.Base(0) == 0 && pl.Base(1) == n && pl.Base(2) == 2 * n
    ensures Accepts(pl, Clean(c, TwoMembers(n, trailer0, trailer1)), every, Config(0, true, []), pl.text)
  {
    hide Accepts, Reads, TwoMembers, EmptyLines, AllLines, Tail, PlanOf, Clean;
    pl := TwoMembersPlan(c, n, trailer0, trailer1);
    NewlineLines(2 * n);
    FirstEnds(pl.Marking(), n, every);
    AcceptsWhen(c, TwoMembers(n, trailer0, trailer1), every, Config(0, true, []));
  }

  lemma {:induction false} HoppingFails(pl: Plan, cfg: Config, blockSize: nat, lines: seq<nat>, ms: seq<nat>)
    requires AllInMember(pl, cfg, AllLines(pl.text), lines, ms)
    requires !NeverSurelyHops(pl, cfg, AllLines(pl.text), blockSize, lines, ms)
    ensures AlwaysFails(pl, cfg, blockSize, lines, ms)
  {
    hide AllInMember, NeverSurelyHops, NeverHops, AllLines, AllWanted;
  }

  lemma {:induction false} Hop(pl: Plan, cfg: Config, n: nat, ls: seq<Line>, blockSize: nat)
    requires |pl.outs| == 2 && pl.Base(0) == 0 && pl.Base(1) == n && pl.Base(2) == 2 * n && n >= 2 && blockSize >= 3
    requires Saved(cfg, ls, n - 1) && From(cfg, ls, n - 1) == n - 2 && EndToEnd.LineText(cfg, ls, n - 1) == []
    requires Saved(cfg, ls, n + 2) && From(cfg, ls, n + 2) == n + 1 && EndToEnd.LineText(cfg, ls, n + 2) == []
    ensures AllInMember(pl, cfg, ls, [n - 1, n + 2], [0, 1])
    ensures !NeverSurelyHops(pl, cfg, ls, blockSize, [n - 1, n + 2], [0, 1])
  {
    hide Kept, EndToEnd.LineText;
    var lines := [n - 1, n + 2];
    assert lines[..1] == [n - 1];
    assert LastSaved(cfg, ls, lines[..1]) == 0;
    assert SurelyHops(pl, cfg, ls, blockSize, lines, [0, 1], 1);
  }
}
