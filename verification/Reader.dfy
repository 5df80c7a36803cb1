/** Index::Impl::getLine and print (src/Index.cpp:298-304, 338-444). */
module IndexReading {
  import opened Prelude
  import opened BitPacking
  import opened Deflate
  import opened GzipFile
  import opened Checkpoints
  import opened FilePlan
  import opened Resuming
  import opened Zlib
  import opened RawZlib
  import opened IndexTables

  const READ_SIZE: nat := 16384
  const MAX_LENGTH: nat := 64 * 1024 * 1024

  /** A decoder part of the way through a member (CachedContext). */
  datatype Context = Context(
    uncompressedOffset: nat,
    input: seq<byte>,  // the last chunk read
    nextIn: nat,       // how much of it has been taken
    zs: RawStream)

  /** The decoder, its buffered input, the file position and the recorded offset all denote the same
      place in member i. */
  ghost predicate InStep(c: Context, file: File, pl: Plan, i: nat)
    reads c.zs, file
  {
    && c.zs.Valid() && c.zs.good && !c.zs.ended
    && InputInStep(c, file, pl, i) && TextInStep(c, pl, i)
  }

  ghost predicate InputInStep(c: Context, file: File, pl: Plan, i: nat)
    reads c.zs, file
  {
    && c.zs.Offered(c.input, c.nextIn)
    && (file.eof ==> file.pos == |file.bytes|)
    && var start := |file.bytes| - |c.zs.source|;
       && 0 <= start && IsPart(c.zs.source, file.bytes, start)
       && i + 1 < |pl.begins| && start + c.zs.size < pl.begins[i + 1] <= |file.bytes|
       && file.pos == start + c.zs.consumed + |c.input| - c.nextIn
  }

  ghost predicate TextInStep(c: Context, pl: Plan, i: nat)
    reads c.zs
  {
    && i < |pl.outs| && c.zs.produced <= c.uncompressedOffset
    && var origin := c.uncompressedOffset - c.zs.produced;
       pl.Base(i) <= origin && origin + |c.zs.plain| == pl.Base(i + 1) && IsPart(c.zs.plain, pl.text, origin)
  }

  // ----- a fresh context

  /** Seek to the checkpoint, and get the bits to prime the decoder with (src/Index.cpp:359-369). */
  method SeekAndPrime(file: File, co: nat, bo: nat) returns (primed: Option<seq<bool>>)
    requires bo < 8 && co <= |file.bytes| && (bo > 0 ==> co > 0)
    modifies file
    ensures primed == Some(Primed(file.bytes, co, bo)) && file.pos == co && !file.eof
  {
    if bo == 0 {
      file.Seek(co);
      return Some([]);
    }
    file.Seek(co - 1);
    var c := file.GetChar();
    if c == None {
      return None;
    }
    primed := Some(LowBits(ShiftRight(c.value, 8 - bo), bo));
  }

  /** What the decoder yields at a checkpoint. */
  lemma {:induction false} Resumption(codec: Codec, s: seq<byte>, pl: Plan, k: Mark, co: nat, bo: nat, window: seq<byte>) returns (width: nat)
    requires Decodes(codec, s, pl) && PointFits(pl, k, co, bo, window)
    ensures pl.Marking().IsMark(k) && k.member + 1 < |pl.begins|
    ensures bo < 8 && co <= |s| && (bo > 0 ==> co > 0)
    ensures var out, end := pl.Marking().Out(k), pl.Base(k.member + 1);
            && pl.Base(k.member) <= out <= end <= |pl.text|
            && RawDecode(codec, Primed(s, co, bo) + Bits(s[co..]), window) == Some(Raw(pl.text[out..end], width))
    ensures co + BytesBeyond(width, bo) < pl.begins[k.member + 1] <= |s| && |Primed(s, co, bo)| == bo
  {
    hide Recalls;
    assert CanResume(pl, k.member, k.block, window);
    width :| ResumesAt(codec, s, pl, k.member, k.block, window, width);
  }

  method NewContext(codec: Codec, file: File, uncompressedOffset: nat, co: nat, bo: nat, window: seq<byte>, ghost pl: Plan, ghost k: Mark)
    returns (r: Result<Context>)
    requires Decodes(codec, file.bytes, pl) && PointFits(pl, k, co, bo, window)
    requires uncompressedOffset == pl.Marking().Out(k)
    modifies file
    ensures r.Ok? && fresh(r.value.zs)
    ensures InStep(r.value, file, pl, k.member) && r.value.uncompressedOffset == uncompressedOffset
  {
    hide Decodes, PointFits, RawDecode, Bits, Primed, BytesBeyond, Recalls, InputInStep, TextInStep, IsPart;
    ghost var width := Resumption(codec, file.bytes, pl, k, co, bo, window);
    var primed := SeekAndPrime(file, co, bo);
    if primed == None {
      return Err(DataError);
    }
    var zs := new RawStream(codec, primed.value, file.bytes[co..], window);
    r := Ok(Context(uncompressedOffset, [], 0, zs));
    SliceIsPart(file.bytes, co, |file.bytes|);
    SliceIsPart(pl.text, uncompressedOffset, pl.Base(k.member + 1));
    StartInStep(r.value, file, pl, k.member, co);
  }

  /** A decoder that has not started yet stands where the file stands. */
  lemma {:induction false} StartInStep(c: Context, file: File, pl: Plan, i: nat, co: nat)
    requires c.zs.Valid() && c.zs.consumed == c.zs.produced == c.nextIn == 0 && c.input == []
    requires co <= |file.bytes| && c.zs.source == file.bytes[co..] && IsPart(c.zs.source, file.bytes, co)
    requires file.pos == co && !file.eof && i < |pl.outs|
    requires i + 1 < |pl.begins| && co + c.zs.size < pl.begins[i + 1] <= |file.bytes|
    requires pl.Base(i) <= c.uncompressedOffset && c.uncompressedOffset + |c.zs.plain| == pl.Base(i + 1)
    requires IsPart(c.zs.plain, pl.text, c.uncompressedOffset)
    ensures InputInStep(c, file, pl, i) && TextInStep(c, pl, i)
  {
  }

  // ----- filling one buffer

  /** What has been decoded so far is the text from o on. */
  ghost predicate Filled(out: seq<byte>, filled: nat, text: seq<byte>, o: nat) {
    filled <= |out| && o + filled <= |text| && forall k :: 0 <= k < filled ==> out[k] == text[o + k]
  }

  lemma {:induction false} FilledMore(w: seq<byte>, w': seq<byte>, filled: nat, text: seq<byte>, o: nat, plain: seq<byte>, from: nat, made: nat)
    requires Filled(w, filled, text, o) && Wrote(w, w', filled, plain, from, made) && filled + made <= |w|
    requires from <= o + filled && IsPart(plain, text, o + filled - from)
    ensures Filled(w', filled + made, text, o)
  {
  }

  /** Read the next chunk when the last is used up; false at the end of the file. */
  method Refill(c: Context, file: File, ghost pl: Plan, ghost i: nat) returns (ok: bool, c': Context)
    requires InStep(c, file, pl, i)
    modifies file
    ensures ok && c' == c.(input := c'.input, nextIn := c'.nextIn) && c'.nextIn < |c'.input|
    ensures InStep(c', file, pl, i)
  {
    ok, c' := true, c;
    if c.nextIn == |c.input| {
      ghost var start := |file.bytes| - |c.zs.source|;
      var chunk := file.Read(READ_SIZE);
      ok := chunk != [];
      SliceIsPart(file.bytes, start + c.zs.consumed, file.pos);
      PartOfPart(chunk, file.bytes, start + c.zs.consumed, c.zs.source, start);
      c' := c.(input := chunk, nextIn := 0);
    }
  }

  /** One call of inflate. */
  method Decode(c: Context, file: File, out: array<byte>, filled: nat, avail: nat, ghost pl: Plan, ghost i: nat, ghost o: nat)
    returns (status: Status, c': Context, made: nat)
    requires InStep(c, file, pl, i) && c.nextIn < |c.input| && filled < avail <= out.Length
    requires c.uncompressedOffset == o + filled && Filled(out[..], filled, pl.text, o)
    modifies c.zs, out
    ensures status == Running || status == StreamEnd
    ensures c'.zs == c.zs && made <= avail - filled && c.zs.Valid() && c.zs.good && c.zs.Left() < old(c.zs.Left())
    ensures status.StreamEnd? <==> c.zs.ended
    ensures InputInStep(c', file, pl, i) && TextInStep(c', pl, i) && c'.uncompressedOffset == o + filled + made
    ensures Filled(out[..], filled + made, pl.text, o)
  {
    ghost var w, from := out[..], c.zs.produced;
    var used;
    status, used, made := c.zs.Inflate(c.input, c.nextIn, out, filled, avail - filled);
    FilledMore(w, out[..], filled, pl.text, o, c.zs.plain, from, made);
    c' := c.(nextIn := c.nextIn + used, uncompressedOffset := c.uncompressedOffset + made);
  }

  /** The inner loop (src/Index.cpp:398-438): decode into the whole of `out[..avail]`, or up to the end
      of the member. No context is left when the member's end was met, which is an error while the
      line's start has not been reached. */
  method Pump(ctx: Context, file: File, out: array<byte>, avail: nat, skipping: bool, ghost pl: Plan, ghost i: nat)
    returns (r: Result<Option<Context>>, filled: nat)
    requires InStep(ctx, file, pl, i) && 0 < avail <= out.Length
    modifies file, ctx.zs, out
    ensures filled <= avail && ctx.uncompressedOffset + filled <= pl.Base(i + 1) <= |pl.text|
    ensures Filled(out[..], filled, pl.text, ctx.uncompressedOffset)
    ensures r.Ok? && r.value.Some? ==>
              && r.value.value.zs == ctx.zs && InStep(r.value.value, file, pl, i)
              && filled == avail && r.value.value.uncompressedOffset == ctx.uncompressedOffset + filled
    ensures r.Ok? && r.value.None? ==> !skipping && ctx.uncompressedOffset + filled == pl.Base(i + 1)
    ensures r.Err? ==> r.error == CrossesMember && skipping && ctx.uncompressedOffset + avail >= pl.Base(i + 1)
  {
    var c, ok, status, made := ctx, true, Running, 0;
    filled := 0;
    while true
      invariant c.zs == ctx.zs && InStep(c, file, pl, i)
      invariant filled < avail && c.uncompressedOffset == ctx.uncompressedOffset + filled
      invariant Filled(out[..], filled, pl.text, ctx.uncompressedOffset)
      decreases c.zs.Left()
    {
      ok, c := Refill(c, file, pl, i);
      if !ok {
        return Err(DataError), filled;
      }
      status, c, made := Decode(c, file, out, filled, avail, pl, i, ctx.uncompressedOffset);
      if status.Failed? {
        return Err(DataError), filled;
      }
      filled := filled + made;
      if status.StreamEnd? {
        // At the end of the file the context would be kept, but a trailer always follows.
        var atEof := c.nextIn == |c.input| && file.eof;
        return if atEof then Ok(Some(c)) else if skipping then Err(CrossesMember) else Ok(None), filled;
      }
      if filled == avail {
        return Ok(Some(c)), filled;
      }
    }
  }

  // ----- one line

  /** Skip to the line and decode it (src/Index.cpp:373-439); `got` bytes of it are decoded. A line that starts
      in the context's member comes out as the text says, as far as the member goes. One that starts behind the
      member's end throws. One that starts exactly at the end throws when something has to be skipped and the
      decoder reports the end too soon; otherwise a buffer is delivered into which nothing was decoded. */
  method Extract(ctx: Context, file: File, offset: nat, length: nat, ghost pl: Plan, ghost i: nat)
    returns (r: Result<seq<byte>>, kept: Option<Context>, ghost got: nat)
    requires InStep(ctx, file, pl, i) && ctx.uncompressedOffset <= offset && 0 < length
    modifies file, ctx.zs
    ensures offset < pl.Base(i + 1) && offset + length - 1 <= pl.Base(i + 1) ==> r == Ok(pl.text[offset..offset + length - 1])
    ensures offset < pl.Base(i + 1) ==> r.Ok? && got > 0
    ensures offset == pl.Base(i + 1) ==> r.Err? || (got == 0 && kept == None)
    ensures offset == pl.Base(i + 1) == ctx.uncompressedOffset ==> r.Ok?
    ensures offset > pl.Base(i + 1) ==> r.Err?
    ensures r.Err? ==> r.error == CrossesMember
    ensures kept.Some? ==> kept.value.zs == ctx.zs && InStep(kept.value, file, pl, i)
    ensures r.Ok? ==> if kept.Some? then kept.value.uncompressedOffset == offset + length else offset + length >= pl.Base(i + 1)
  {
    var lineBuf, discard := new byte[length], new byte[WINDOW_SIZE];
    var numToSkip: nat := offset - ctx.uncompressedOffset;
    var c := ctx;
    got := 0;
    while true
      invariant c.zs == ctx.zs && InStep(c, file, pl, i) && c.uncompressedOffset + numToSkip == offset
      invariant offset == ctx.uncompressedOffset ==> numToSkip == 0
      decreases numToSkip
    {
      var skipping := numToSkip > 0;
      var out := if skipping then discard else lineBuf;
      var avail: nat := if skipping then Min(numToSkip, WINDOW_SIZE) else length;
      var next, filled := Pump(c, file, out, avail, skipping, pl, i);
      got := filled;
      if next.Err? {
        return Err(next.error), None, got;
      }
      if !skipping {
        LineText(lineBuf[..], filled, pl.text, offset, length, pl.Base(i + 1));
        assert lineBuf[..][..length - 1] == lineBuf[..length - 1];
        return Ok(lineBuf[..length - 1]), next.value, got;
      }
      c := next.value.value;
      numToSkip := numToSkip - avail;
    }
  }

  lemma {:induction false} LineText(out: seq<byte>, filled: nat, text: seq<byte>, offset: nat, length: nat, end: nat)
    requires Filled(out, filled, text, offset) && 0 < length == |out| && end <= |text|
    requires filled == length || offset + filled == end
    ensures offset + length - 1 <= end ==> out[..length - 1] == text[offset..offset + length - 1]
  {
  }

  // ----- the index

  datatype Delivered = Delivered(line: nat, offset: nat, text: seq<byte>)

  datatype IndexRows = IndexRows(accessPoints: map<nat, AccessPoint>, lineOffsets: map<nat, LineRow>)

  /** A row of the lookup's join: the line, and an access point whose range holds its offset. */
  datatype Hit = Hit(row: LineRow, start: nat, point: AccessPoint)

  /** The access points are those of the file's checkpoints, lines lie within the text (the last may be
      counted with one byte more), and the file decodes as its plan says. */
  ghost predicate Indexed(codec: Codec, bytes: seq<byte>, pl: Plan, every: nat, rows: IndexRows) {
    && Decodes(codec, bytes, pl) && pl.Valid()
    && var marks := pl.Marking().FileMarks(every);
       && (|pl.text| > 0 ==> PointsFit(pl, marks, |marks|, rows.accessPoints))
       && (|pl.text| == 0 ==> rows.accessPoints == map[])
       && forall n :: n in rows.lineOffsets ==> LineWithin(rows.lineOffsets[n], |pl.text|)
  }

  ghost predicate LineWithin(row: LineRow, total: nat) {
    row.offset < total ==> 0 < row.length && row.offset + row.length - 1 <= total
  }

  /** The access point of a hit is a checkpoint in whose range the offset lies. */
  ghost predicate HitFits(pl: Plan, every: nat, h: Hit, j: nat) {
    && pl.Valid()
    && var sh := pl.Marking(); var marks := sh.FileMarks(every);
       && j < |marks| && sh.InRange(marks, j, h.row.offset) && h.start == sh.Out(marks[j])
       && PointFits(pl, marks[j], h.point.compressedOffset, h.point.bitOffset, h.point.window)
  }

  class Index {
    const codec: Codec
    const file: File
    const rows: IndexRows
    const blockSize: nat
    ghost const pl: Plan
    ghost const every: nat
    var cached: Option<Context>
    ghost var member: nat  // the member that the cached context decodes

    constructor (codec: Codec, file: File, rows: IndexRows, blockSize: nat, ghost pl: Plan, ghost every: nat)
      requires Indexed(codec, file.bytes, pl, every, rows)
      ensures Valid() && cached == None
      ensures this.codec == codec && this.file == file && this.rows == rows && this.blockSize == blockSize
      ensures this.pl == pl && this.every == every
    {
      this.codec, this.file, this.rows, this.blockSize := codec, file, rows, blockSize;
      this.pl, this.every := pl, every;
      cached, member := None, 0;
    }

    ghost function Streams(): set<object>
      reads this
    {
      if cached.Some? then {cached.value.zs} else {}
    }

    /** Cache transparency: a cached context denotes one place of the text, from which its decoder, its
        buffered input and the file position go on together. */
    ghost predicate Valid()
      reads this, file, Streams()
    {
      && Indexed(codec, file.bytes, pl, every, rows)
      && (cached.Some? ==> InStep(cached.value, file, pl, member))
    }

    /** offsetWithinRange */
    predicate WithinRange(c: Context, offset: nat) {
      c.uncompressedOffset <= offset && offset - c.uncompressedOffset < blockSize
    }

    /** The cached context is taken for this offset. */
    predicate Reuses(offset: nat)
      reads this
    {
      cached.Some? && WithinRange(cached.value, offset)
    }

    /** A context of member i is taken although the offset does not lie before the member's end. */
    ghost predicate StraysFrom(c: Option<Context>, i: nat, offset: nat) {
      c.Some? && WithinRange(c.value, offset) && i < |pl.outs| && pl.Base(i + 1) <= offset
    }

    ghost predicate Strays(offset: nat)
      reads this
    {
      StraysFrom(cached, member, offset)
    }

    /** The row that the query returns: the one whose access point's range holds the line's offset. */
    method Lookup(line: nat) returns (h: Option<Hit>, ghost j: nat)
      requires Valid()
      ensures h.Some? <==> Has(line)
      ensures h.Some? ==> h.value.row == rows.lineOffsets[line] && h.value.row.length > 0 && HitFits(pl, every, h.value, j)
      ensures h.Some? ==> forall key :: Covers(key, h.value.row.offset) <==> key == h.value.start
    {
      j := 0;
      if line !in rows.lineOffsets {
        return None, 0;
      }
      var row := rows.lineOffsets[line];
      var keys := set key | key in rows.accessPoints && key <= row.offset <= rows.accessPoints[key].end;
      if row.offset < |pl.text| {
        ghost var key := Covered(row.offset);
        assert key in keys;
      }
      if keys == {} {
        return None, 0;
      }
      var key :| key in keys;
      h := Some(Hit(row, key, rows.accessPoints[key]));
      j := Checkpoint(h.value);
      HitHas(line, h.value, j);
      ghost var only := Covered(row.offset);
      assert Covers(key, row.offset) && only == key;
    }

    /** The condition of the lookup's join. */
    ghost predicate Covers(key: nat, offset: nat) {
      key in rows.accessPoints && key <= offset <= rows.accessPoints[key].end
    }

    /** Every offset of the text is found in exactly one row. */
    lemma {:induction false} Covered(offset: nat) returns (key: nat)
      requires Valid() && offset < |pl.text|
      ensures Covers(key, offset) && forall other :: Covers(other, offset) ==> other == key
    {
      var sh := pl.Marking();
      var j := sh.Tiles(every, offset);
      assert HasPoint(pl, sh.FileMarks(every), j, rows.accessPoints);
      key := sh.Out(sh.FileMarks(every)[j]);
      forall other | Covers(other, offset)
        ensures other == key
      {
        var k := RangeOfRow(other, offset);
        assert sh.InRange(sh.FileMarks(every), k, offset);
      }
    }

    /** The checkpoint behind a row that covers an offset. */
    lemma {:induction false} RangeOfRow(key: nat, offset: nat) returns (j: nat)
      requires Valid() && Covers(key, offset)
      ensures var sh := pl.Marking();
              j < |sh.FileMarks(every)| && sh.Out(sh.FileMarks(every)[j]) == key && sh.InRange(sh.FileMarks(every), j, offset)
    {
      var marks := pl.Marking().FileMarks(every);
      assert IsKey(pl, marks, |marks|, key);
      j :| 0 <= j < |marks| && pl.Marking().Out(marks[j]) == key;
      assert HasPoint(pl, marks, j, rows.accessPoints);
    }

    lemma {:induction false} Checkpoint(h: Hit) returns (j: nat)
      requires Valid() && Covers(h.start, h.row.offset) && h.point == rows.accessPoints[h.start]
      ensures HitFits(pl, every, h, j)
    {
      j := RangeOfRow(h.start, h.row.offset);
      assert HasPoint(pl, pl.Marking().FileMarks(every), j, rows.accessPoints);
    }

    /** The line lies in member m: its offset, and its extent without the last byte. */
    ghost predicate InMember(row: LineRow, m: nat) {
      && pl.Valid() && m < |pl.outs| && pl.Base(m) <= row.offset < pl.Base(m + 1)
      && 0 < row.length && row.offset + row.length - 1 <= pl.Base(m + 1) <= |pl.text|
    }

    /** The row can be delivered from member m. */
    ghost predicate Fits(row: LineRow, m: nat) {
      InMember(row, m) && row.length < MAX_LENGTH
    }

    /** What the text says about a row: the bytes of its extent but the last. */
    ghost function LineOf(line: nat, row: LineRow): Delivered
      requires 0 < row.length && row.offset + row.length - 1 <= |pl.text|
    {
      Delivered(line, row.offset, pl.text[row.offset..row.offset + row.length - 1])
    }

    /** The line has a row that some checkpoint's range covers. */
    ghost predicate Has(line: nat) {
      line in rows.lineOffsets && rows.lineOffsets[line].offset < |pl.text|
    }

    /** After a line: the context stands behind its last byte, unless the member ended there. */
    ghost predicate KeptAt(offset: int)
      reads this
    {
      member < |pl.outs| && if cached.Some? then cached.value.uncompressedOffset == offset else offset >= pl.Base(member + 1)
    }

    /** A row that starts before the end of a member, and not before its start, lies in no other. */
    lemma {:induction false} SameMember(row: LineRow, m: nat, i: nat)
      requires InMember(row, m) && i < |pl.outs| && pl.Base(i) <= row.offset < pl.Base(i + 1)
      ensures m == i
    {
      if m < i {
        pl.BeginsGrow(m + 1, i);
      } else if i < m {
        pl.BeginsGrow(i + 1, m);
      }
    }

    /** The cached context when it can be used again, or else a fresh one (src/Index.cpp:344-372). */
    method TakeContext(h: Hit, ghost j: nat, ghost m: nat) returns (ctx: Option<Context>, ghost i: nat)
      requires Valid() && HitFits(pl, every, h, j)
      modifies this, file
      ensures ctx.Some? && InStep(ctx.value, file, pl, i) && i < |pl.outs|
      ensures ctx.value.uncompressedOffset <= h.row.offset && ctx.value.uncompressedOffset <= pl.Base(i + 1)
      ensures if old(Reuses(h.row.offset)) then i == old(member) && ctx == old(cached) else fresh(ctx.value.zs)
      ensures InMember(h.row, m) && !old(Strays(h.row.offset)) ==> m == i
    {
      if Reuses(h.row.offset) {
        ctx, i := cached, member;
        if InMember(h.row, m) && !Strays(h.row.offset) {
          SameMember(h.row, m, i);
        }
        cached := None;
      } else {
        ghost var sh := pl.Marking();
        i := sh.FileMarks(every)[j].member;
        var started := NewContext(codec, file, h.start, h.point.compressedOffset, h.point.bitOffset, h.point.window,
                                  pl, sh.FileMarks(every)[j]);
        if started.Err? {
          return None, i;
        }
        ctx := Some(started.value);
        if InMember(h.row, m) {
          sh.RangeMember(every, j, h.row.offset, m);
        }
      }
    }

    /** print: deliver the line, from the cached context or a fresh one; `got` bytes of it are decoded. A line
        that lies in one member comes out as the text says exactly when the context does not stray. */
    method Print(line: nat, h: Hit, ghost j: nat, ghost m: nat) returns (r: Result<Delivered>, ghost got: nat)
      requires Valid() && HitFits(pl, every, h, j) && h.row.length > 0
      modifies this, file, Streams()
      ensures r.Ok? ==> Valid() && fresh(Streams() - old(Streams()))
      ensures (Fits(h.row, m) && !old(Strays(h.row.offset)))
                ==> r == Ok(LineOf(line, h.row)) && got > 0 && member == m && KeptAt(h.row.offset + h.row.length)
      ensures old(Strays(h.row.offset)) ==> r.Err? || (got == 0 && cached == None)
      ensures old(Strays(h.row.offset) && h.row.offset > pl.Base(member + 1)) ==> r.Err?
      ensures old(Strays(h.row.offset) && h.row.offset == cached.value.uncompressedOffset) && h.row.length < MAX_LENGTH ==> r.Ok?
      ensures h.row.length >= MAX_LENGTH ==> r == Err(LineTooLong)
      ensures r.Err? && h.row.length < MAX_LENGTH ==> r.error == CrossesMember
    {
      hide HitFits, Indexed, InputInStep, TextInStep;
      got := 0;
      var started;
      ghost var i;
      started, i := TakeContext(h, j, m);
      if started.None? {
        r := Err(DataError);
        return;
      }
      var ctx := started.value;
      if h.row.length >= MAX_LENGTH {
        return Err(LineTooLong), got;
      }
      var text, kept;
      text, kept, got := Extract(ctx, file, h.row.offset, h.row.length, pl, i);
      if text.Err? {
        return Err(text.error), got;
      }
      cached, member := kept, i;
      r := Ok(Delivered(line, h.row.offset, text.value));
    }

    /** The line's row would be read from a context that strays. */
    ghost predicate LateFrom(c: Option<Context>, i: nat, line: nat) {
      Has(line) && StraysFrom(c, i, rows.lineOffsets[line].offset)
    }

    ghost predicate Late(line: nat)
      reads this
    {
      LateFrom(cached, member, line)
    }

    /** The line has been delivered as the text says, and the context stands behind it in member m. */
    ghost predicate Served(line: nat, m: nat, r: Result<Option<Delivered>>)
      requires Has(line) && Fits(rows.lineOffsets[line], m)
      reads this
    {
      var row := rows.lineOffsets[line];
      r == Ok(Some(LineOf(line, row))) && member == m && KeptAt(row.offset + row.length)
    }

    lemma {:induction false} HitHas(line: nat, h: Hit, j: nat)
      requires Valid() && line in rows.lineOffsets && h.row == rows.lineOffsets[line] && HitFits(pl, every, h, j)
      ensures Has(line) && h.row.length > 0
    {
      var sh := pl.Marking();
      var marks := sh.FileMarks(every);
      sh.MarksShape(every, |sh.outs|, 0);
      if j + 1 < |marks| {
        sh.ChainMonotone(every, marks, j + 1, |marks| - 1);
      }
      sh.LastBounds(every, marks);
    }

    /** getLine: nothing for a line without a row. A line that lies in one member m comes out as the text says,
        whether its context was cached or fresh, exactly when the cached context does not stray. If it does, the
        call throws, or delivers a line of which no byte was decoded: that only for a row that starts exactly at
        the end of the context's member, and always when the context stands there already. */
    method GetLine(line: nat, ghost m: nat) returns (r: Result<Option<Delivered>>, ghost got: nat)
      requires Valid()
      modifies this, file, Streams()
      ensures r.Ok? ==> Valid() && fresh(Streams() - old(Streams())) && (r.value.Some? <==> Has(line))
      ensures !Has(line) ==> r == Ok(None) && cached == old(cached) && member == old(member)
      ensures Has(line) && Fits(rows.lineOffsets[line], m) ==> (!old(Late(line)) <==> r.Ok? && got > 0)
      ensures Has(line) && Fits(rows.lineOffsets[line], m) && !old(Late(line)) ==> Served(line, m, r)
      ensures old(Late(line)) ==> r.Err? || (got == 0 && cached == None)
      ensures old(Late(line) && rows.lineOffsets[line].offset > pl.Base(member + 1)) ==> r.Err?
      ensures (old(Late(line) && rows.lineOffsets[line].offset == cached.value.uncompressedOffset)
                && rows.lineOffsets[line].length < MAX_LENGTH) ==> r.Ok?
      ensures Has(line) ==> rows.lineOffsets[line].length > 0 && (rows.lineOffsets[line].length >= MAX_LENGTH ==> r == Err(LineTooLong))
      ensures r.Err? ==> Has(line) && (rows.lineOffsets[line].length < MAX_LENGTH ==> r.error == CrossesMember)
    {
      var h, j := Lookup(line);
      if h.None? {
        return Ok(None), 0;
      }
      var delivered;
      delivered, got := Print(line, h.value, j, m);
      if delivered.Err? {
        return Err(delivered.error), got;
      }
      r := Ok(Some(delivered.value));
    }

    // ----- runs

    /** What the text says about a request: the line, or nothing for one without a row. */
    ghost function Answer(line: nat): seq<Delivered> {
      if Has(line) then
        var row := rows.lineOffsets[line];
        if 0 < row.length && row.offset + row.length - 1 <= |pl.text| then [LineOf(line, row)] else []
      else []
    }

    ghost function Answers(lines: seq<nat>): seq<Delivered> {
      if lines == [] then [] else Answers(lines[..|lines| - 1]) + Answer(lines[|lines| - 1])
    }

    /** A request that has a row can be delivered from member m. */
    ghost predicate LiesIn(line: nat, m: nat) {
      Has(line) ==> Fits(rows.lineOffsets[line], m)
    }

    /** Every request that has a row can be delivered from the member named for it. */
    ghost predicate AllIn(lines: seq<nat>, ms: seq<nat>) {
      |ms| == |lines| && forall k :: 0 <= k < |lines| ==> LiesIn(lines[k], ms[k])
    }

    function EndOf(line: nat): int
      requires line in rows.lineOffsets
    {
      rows.lineOffsets[line].offset + rows.lineOffsets[line].length
    }

    /** After line p of member m has been read, line q starts in a later member, and less than a block behind the
        place reached. */
    ghost predicate Hazard(p: nat, m: nat, q: nat) {
      && Has(p) && Has(q) && m < |pl.outs|
      && EndOf(p) <= pl.Base(m + 1) <= rows.lineOffsets[q].offset < EndOf(p) + blockSize
    }

    /** The same, when the place reached is not the end of the member. Otherwise it depends on the decoder, which
        may have reported the end together with the last byte, whether a context is left at all. */
    ghost predicate SureHazard(p: nat, m: nat, q: nat) {
      Hazard(p, m, q) && EndOf(p) < pl.Base(m + 1)
    }

    /** What a caller can tell about the context from the line served last. */
    lemma {:induction false} HazardWhen(p: nat, m: nat, q: nat)
      requires Valid() && Has(p) && Has(q) && member == m && KeptAt(EndOf(p))
      ensures Late(q) ==> Hazard(p, m, q)
      ensures SureHazard(p, m, q) ==> Late(q)
    {
      hide Indexed, InputInStep;
    }

    /** The last of the requests that has a row, or -1. */
    ghost function LastServed(lines: seq<nat>): (j: int)
      ensures -1 <= j < |lines| && (j >= 0 ==> Has(lines[j]))
    {
      if lines == [] then -1
      else if Has(lines[|lines| - 1]) then |lines| - 1
      else LastServed(lines[..|lines| - 1])
    }

    ghost predicate HazardAt(lines: seq<nat>, ms: seq<nat>, k: nat)
      requires k < |lines| == |ms|
    {
      var j := LastServed(lines[..k]);
      j >= 0 && Hazard(lines[j], ms[j], lines[k])
    }

    ghost predicate SureHazardAt(lines: seq<nat>, ms: seq<nat>, k: nat)
      requires k < |lines| == |ms|
    {
      var j := LastServed(lines[..k]);
      j >= 0 && SureHazard(lines[j], ms[j], lines[k])
    }

    /** The first request that has a row would be read from the context that is there before, and strays. */
    ghost predicate LateFirst(lines: seq<nat>, k: nat, before: Option<Context>, first: nat)
      requires k < |lines|
    {
      LastServed(lines[..k]) < 0 && LateFrom(before, first, lines[k])
    }

    static ghost predicate AllDecoded(got: seq<nat>) {
      forall i :: 0 <= i < |got| ==> got[i] > 0
    }

    /** One turn of the loop: getLine, and what it has delivered to the sink. */
    method DeliverLine(line: nat, ghost m: nat) returns (r: Result<seq<Delivered>>, ghost got: seq<nat>)
      requires Valid()
      modifies this, file, Streams()
      ensures r.Ok? ==> Valid() && fresh(Streams() - old(Streams())) && |got| == |r.value|
      ensures (LiesIn(line, m) && !old(Late(line))) ==>
                && r == Ok(Answer(line)) && AllDecoded(got)
                && (if Has(line) then member == m && KeptAt(EndOf(line)) else cached == old(cached) && member == old(member))
      ensures old(Late(line)) ==> r.Err? || !AllDecoded(got)
    {
      var found;
      ghost var n;
      found, n := GetLine(line, m);
      got := [];
      if found.Err? {
        return Err(found.error), got;
      }
      if found.value.None? {
        return Ok([]), got;
      }
      got := [n];
      assert got[0] == n;
      r := Ok([found.value.value]);
    }

    /** What the context stands behind after some requests. */
    ghost predicate Behind(lines: seq<nat>, ms: seq<nat>, before: Option<Context>, first: nat)
      requires |lines| == |ms|
      reads this
    {
      var j := LastServed(lines);
      if j < 0 then cached == before && member == first else member == ms[j] && KeptAt(EndOf(lines[j]))
    }

    /** When the next request is read from a context that strays. */
    lemma {:induction false} LateWhen(lines: seq<nat>, ms: seq<nat>, k: nat, before: Option<Context>, first: nat)
      requires Valid() && AllIn(lines, ms) && k < |lines| && Behind(lines[..k], ms[..k], before, first)
      ensures Late(lines[k]) ==> HazardAt(lines, ms, k) || LateFirst(lines, k, before, first)
      ensures SureHazardAt(lines, ms, k) || LateFirst(lines, k, before, first) ==> Late(lines[k])
    {
      hide Indexed, InStep, KeptAt, Fits;
      var j := LastServed(lines[..k]);
      if j >= 0 && Has(lines[k]) {
        assert lines[..k][j] == lines[j] && ms[..k][j] == ms[j];
        HazardWhen(lines[j], ms[j], lines[k]);
      }
    }

    ghost predicate Undisturbed(lines: seq<nat>, ms: seq<nat>, n: nat, before: Option<Context>, first: nat)
      requires n <= |lines| == |ms|
    {
      forall k :: 0 <= k < n ==> !HazardAt(lines, ms, k) && !LateFirst(lines, k, before, first)
    }

    ghost predicate NeverSure(lines: seq<nat>, ms: seq<nat>, n: nat, before: Option<Context>, first: nat)
      requires n <= |lines| == |ms|
    {
      forall k :: 0 <= k < n ==> !SureHazardAt(lines, ms, k) && !LateFirst(lines, k, before, first)
    }

    /** Where a run stands after n requests. */
    ghost predicate Running(lines: seq<nat>, ms: seq<nat>, n: nat, before: Option<Context>, first: nat,
                            delivered: seq<Delivered>, got: seq<nat>)
      requires n <= |lines|
      reads this
    {
      AllIn(lines, ms) ==>
        && (Undisturbed(lines, ms, n, before, first) ==> AllDecoded(got))
        && (AllDecoded(got) ==>
              && delivered == Answers(lines[..n]) && Behind(lines[..n], ms[..n], before, first)
              && NeverSure(lines, ms, n, before, first))
    }

    /** getLines, for requests in any members and any order. As long as no request starts in a later member than
        the one served before it and less than a block behind that, all lines come out as the text says, each
        decoded from a cached context or a fresh one. And that is needed: if every line delivered has been
        decoded, there was no such request, but for one right behind the end of a member. */
    method GetLines(lines: seq<nat>, ghost ms: seq<nat>)
      returns (failure: Option<Error>, matched: nat, delivered: seq<Delivered>, ghost got: seq<nat>)
      requires Valid()
      modifies this, file, Streams()
      ensures failure.None? ==> Valid() && fresh(Streams() - old(Streams())) && matched == |delivered| == |got|
      ensures AllIn(lines, ms) && Undisturbed(lines, ms, |lines|, old(cached), old(member)) ==> failure.None? && AllDecoded(got)
      ensures AllIn(lines, ms) && failure.None? && AllDecoded(got) ==>
                delivered == Answers(lines) && NeverSure(lines, ms, |lines|, old(cached), old(member))
    {
      hide InStep, Indexed, Answer, HazardAt, SureHazardAt, LateFirst, LiesIn, Late, Running;
      matched, delivered, got := 0, [], [];
      var k := 0;
      StartsRunning(lines, ms);
      while k < |lines|
        invariant 0 <= k <= |lines| && Valid() && fresh(Streams() - old(Streams()))
        invariant matched == |delivered| == |got|
        invariant Running(lines, ms, k, old(cached), old(member), delivered, got)
      {
        var r;
        r, delivered, got := Turn(lines, k, delivered, ms, old(cached), old(member), got);
        if r.Some? {
          return r, matched, delivered, got;
        }
        matched := |delivered|;
        k := k + 1;
      }
      Done(lines, ms, old(cached), old(member), delivered, got);
      failure := None;
    }

    lemma {:induction false} StartsRunning(lines: seq<nat>, ms: seq<nat>)
      ensures Running(lines, ms, 0, cached, member, [], [])
    {
    }

    lemma {:induction false} Done(lines: seq<nat>, ms: seq<nat>, before: Option<Context>, first: nat,
                                  delivered: seq<Delivered>, got: seq<nat>)
      requires Running(lines, ms, |lines|, before, first, delivered, got)
      ensures AllIn(lines, ms) && Undisturbed(lines, ms, |lines|, before, first) ==> AllDecoded(got)
      ensures AllIn(lines, ms) && AllDecoded(got) ==> delivered == Answers(lines) && NeverSure(lines, ms, |lines|, before, first)
    {
      assert lines[..|lines|] == lines;
    }

    /** The loop's body. */
    method Turn(lines: seq<nat>, k: nat, delivered: seq<Delivered>, ghost ms: seq<nat>,
                ghost before: Option<Context>, ghost first: nat, ghost got: seq<nat>)
      returns (failure: Option<Error>, delivered': seq<Delivered>, ghost got': seq<nat>)
      requires Valid() && k < |lines| && |delivered| == |got| && Running(lines, ms, k, before, first, delivered, got)
      modifies this, file, Streams()
      ensures failure.None? ==>
                && Valid() && fresh(Streams() - old(Streams())) && |delivered'| == |got'|
                && Running(lines, ms, k + 1, before, first, delivered', got')
      ensures failure.Some? && AllIn(lines, ms) ==> !Undisturbed(lines, ms, |lines|, before, first)
    {
      hide InStep, Indexed, Answer, HazardAt, SureHazardAt, LateFirst, LateFrom, Fits;
      ghost var m := if k < |ms| then ms[k] else 0;
      if AllIn(lines, ms) && Undisturbed(lines, ms, |lines|, before, first) {
        assert Undisturbed(lines, ms, k, before, first);
      }
      if AllIn(lines, ms) && AllDecoded(got) {
        LateWhen(lines, ms, k, before, first);
        assert LiesIn(lines[k], m);
      }
      ghost var late := Late(lines[k]);
      var r;
      ghost var n;
      r, n := DeliverLine(lines[k], m);
      if r.Err? {
        return Some(r.error), delivered, got;
      }
      failure, delivered', got' := None, delivered + r.value, got + n;
      if AllIn(lines, ms) {
        if AllDecoded(got) && !late {
          BehindMore(lines, ms, k, before, first);
        }
        RunningMore(lines, ms, k, before, first, delivered, got, r.value, n, late);
      }
    }

    lemma {:induction false} BehindMore(lines: seq<nat>, ms: seq<nat>, k: nat, before: Option<Context>, first: nat)
      requires k < |lines| == |ms|
      requires if Has(lines[k]) then member == ms[k] && KeptAt(EndOf(lines[k])) else Behind(lines[..k], ms[..k], before, first)
      ensures Behind(lines[..k + 1], ms[..k + 1], before, first)
    {
      hide KeptAt;
      assert lines[..k + 1][..k] == lines[..k];
    }

    lemma {:induction false} RunningMore(lines: seq<nat>, ms: seq<nat>, k: nat, before: Option<Context>, first: nat,
                                         delivered: seq<Delivered>, got: seq<nat>,
                                         r: seq<Delivered>, n: seq<nat>, late: bool)
      requires k < |lines| && AllIn(lines, ms)
      requires Undisturbed(lines, ms, k, before, first) ==> AllDecoded(got)
      requires AllDecoded(got) ==> delivered == Answers(lines[..k]) && NeverSure(lines, ms, k, before, first)
      requires AllDecoded(got) && late ==> HazardAt(lines, ms, k) || LateFirst(lines, k, before, first)
      requires AllDecoded(got) && (SureHazardAt(lines, ms, k) || LateFirst(lines, k, before, first)) ==> late
      requires late ==> !AllDecoded(n)
      requires !late ==> r == Answer(lines[k]) && AllDecoded(n)
      requires AllDecoded(got) && !late ==> Behind(lines[..k + 1], ms[..k + 1], before, first)
      ensures Running(lines, ms, k + 1, before, first, delivered + r, got + n)
    {
      hide AllIn, HazardAt, SureHazardAt, LateFirst, Behind, Answer, AllDecoded;
      DecodedMore(got, n);
      assert lines[..k + 1][..k] == lines[..k];
    }

    static lemma {:induction false} DecodedMore(got: seq<nat>, n: seq<nat>)
      ensures AllDecoded(got + n) <==> AllDecoded(got) && AllDecoded(n)
    {
      if AllDecoded(got + n) {
        forall i | 0 <= i < |got|
          ensures got[i] > 0
        {
          assert (got + n)[i] == got[i];
        }
        forall i | 0 <= i < |n|
          ensures n[i] > 0
        {
          assert (got + n)[|got| + i] == n[i];
        }
      }
    }
  }
}
