/** The tables of an index, keyed as the schema says (src/Index.cpp:484-514). */
module IndexTables {
  import opened Prelude
  import opened BitPacking
  import opened Deflate
  import opened Checkpoints
  import opened FilePlan

  /** A row of AccessPoints, whose key is its first text offset. */
  datatype AccessPoint = AccessPoint(end: nat, compressedOffset: nat, bitOffset: nat, window: seq<byte>)

  /** A row of LineOffsets, whose key is the line number. */
  datatype LineRow = LineRow(offset: nat, length: int)

  /** The row is the checkpoint: its compressed position is the boundary's, and its window recalls the
      text of the member up to it. */
  ghost predicate PointFits(pl: Plan, k: Mark, compressedOffset: nat, bitOffset: nat, window: seq<byte>) {
    && pl.Valid() && pl.Marking().IsMark(k) && pl.MemberOk(k.member)
    && var bit, out := pl.bits[k.member][k.block], pl.outs[k.member][k.block];
       && compressedOffset == BytesFor(bit) && bitOffset == 8 * compressedOffset - bit
       && |window| == WINDOW_SIZE
       && pl.Base(k.member) <= out <= |pl.text|
       && Recalls(window, pl.text[pl.Base(k.member)..out])
  }

  /** The row of checkpoint j is in the table. */
  ghost predicate HasPoint(pl: Plan, marks: seq<Mark>, j: nat, aps: map<nat, AccessPoint>)
    requires pl.Marking().AreMarks(marks) && j < |marks|
  {
    var sh := pl.Marking();
    && sh.Out(marks[j]) in aps
    && var ap := aps[sh.Out(marks[j])];
       && ap.end + 1 == sh.RangeEnd(marks, j)
       && PointFits(pl, marks[j], ap.compressedOffset, ap.bitOffset, ap.window)
  }

  ghost predicate IsKey(pl: Plan, marks: seq<Mark>, n: nat, key: nat)
    requires pl.Marking().AreMarks(marks) && n <= |marks|
  {
    exists j :: 0 <= j < n && pl.Marking().Out(marks[j]) == key
  }

  /** The table holds the rows of the first n checkpoints, and nothing else. */
  ghost predicate PointsFit(pl: Plan, marks: seq<Mark>, n: nat, aps: map<nat, AccessPoint>)
    requires pl.Marking().AreMarks(marks)
  {
    && n <= |marks|
    && (forall j :: 0 <= j < n ==> HasPoint(pl, marks, j, aps))
    && (forall key :: key in aps ==> IsKey(pl, marks, n, key))
  }

  /** Line n extends from its own offset to that of the next saved line, or to the end. */
  function LineRowOf(offsets: seq<nat>, n: nat): LineRow
    requires 1 <= n < |offsets|
  {
    var length: int := offsets[n] as int - offsets[n - 1] as int;
    LineRow(offsets[n - 1], length)
  }

  /** The line table from the offsets that the line finder ends with. */
  function LineTable(offsets: seq<nat>, count: nat): (r: map<nat, LineRow>)
    requires count < |offsets|
    ensures forall n :: n in r <==> 1 <= n <= count
    ensures forall n :: n in r ==> r[n] == LineRowOf(offsets, n)
  {
    map n: nat | 1 <= n <= count :: LineRowOf(offsets, n)
  }
}
