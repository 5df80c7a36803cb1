/** Index::Builder::Impl::build (src/Index.cpp:527-663). */
module IndexBuilding {
  import opened Prelude
  import opened Deflate
  import opened Checkpoints
  import opened FilePlan
  import opened Layout
  import opened Zlib
  import opened CircularWindow
  import opened TextLines
  import opened Indexing
  import opened LineFinding
  import opened IndexTables

  const CHUNK_SIZE: nat := 16384

  /** What is bound to the statement that inserts an access point, before its end is known. */
  datatype Bound = Bound(uncompressedOffset: nat, compressedOffset: nat, bitOffset: nat, window: seq<byte>)

  // ----- the checkpoint table

  /** What the access point table and the bound row hold once these checkpoints have been created: the
      rows of all but the last, whose end is not known yet. */
  ghost predicate Recorded(pl: Plan, marks: seq<Mark>, bound: Option<Bound>, aps: map<nat, AccessPoint>)
    requires pl.Marking().AreMarks(marks)
  {
    if marks == [] then bound == None && aps == map[]
    else
      var n := |marks| - 1;
      && bound.Some? && BoundFits(pl, marks[n], bound.value)
      && PointsFit(pl, marks, n, aps) && DistinctUpTo(pl, marks, n)
  }

  ghost predicate BoundFits(pl: Plan, k: Mark, b: Bound) {
    PointFits(pl, k, b.compressedOffset, b.bitOffset, b.window) && b.uncompressedOffset == pl.Marking().Out(k)
  }

  ghost predicate DistinctUpTo(pl: Plan, marks: seq<Mark>, n: nat)
    requires pl.Marking().AreMarks(marks) && n <= |marks|
  {
    forall j, k :: 0 <= j < k < n ==> pl.Marking().Out(marks[j]) < pl.Marking().Out(marks[k])
  }

  /** Inserting the last checkpoint's row closes its range. It fails exactly when the checkpoint before
      has the same offset. */
  lemma {:induction false} Close(pl: Plan, every: nat, marks: seq<Mark>, b: Bound, aps: map<nat, AccessPoint>)
    requires pl.Valid() && pl.Marking().Chain(every, marks) && marks != []
    requires Recorded(pl, marks, Some(b), aps)
    ensures b.uncompressedOffset in aps <==> !DistinctUpTo(pl, marks, |marks|)
  {
    var sh, n := pl.Marking(), |marks| - 1;
    if b.uncompressedOffset in aps {
      assert IsKey(pl, marks, n, b.uncompressedOffset);
    }
    if !DistinctUpTo(pl, marks, |marks|) {
      var j :| 0 <= j < n && sh.Out(marks[j]) >= sh.Out(marks[n]);
      sh.ChainMonotone(every, marks, j, n);
      assert HasPoint(pl, marks, j, aps);
    }
  }

  /** The table after that, with respect to a list that goes on. */
  lemma {:induction false} Closed(pl: Plan, marks: seq<Mark>, marks': seq<Mark>, b: Bound, aps: map<nat, AccessPoint>, end: nat)
    requires pl.Valid() && pl.Marking().AreMarks(marks') && marks != [] && marks <= marks'
    requires Recorded(pl, marks, Some(b), aps) && b.uncompressedOffset !in aps
    requires end + 1 == pl.Marking().RangeEnd(marks', |marks| - 1)
    ensures var row := AccessPoint(end, b.compressedOffset, b.bitOffset, b.window);
            PointsFit(pl, marks', |marks|, aps[b.uncompressedOffset := row])
  {
    var sh, n := pl.Marking(), |marks| - 1;
    var aps' := aps[b.uncompressedOffset := AccessPoint(end, b.compressedOffset, b.bitOffset, b.window)];
    forall j | 0 <= j < |marks|
      ensures HasPoint(pl, marks', j, aps')
    {
      if j < n {
        assert HasPoint(pl, marks, j, aps);
      }
    }
    forall key | key in aps'
      ensures IsKey(pl, marks', |marks|, key)
    {
      if key == b.uncompressedOffset {
        assert sh.Out(marks'[n]) == key;
      } else {
        assert IsKey(pl, marks, n, key);
        var j :| 0 <= j < n && sh.Out(marks[j]) == key;
        assert sh.Out(marks'[j]) == key;
      }
    }
  }
  /** Two checkpoints so far that share an offset stay in the list. */
  lemma {:induction false} Hopeless(sh: Shape, every: nat, i: nat, stage: nat, marks: seq<Mark>)
    requires sh.Valid() && sh.Place(i, stage) && marks == sh.Marks(every, i, stage)
    requires exists j, k :: 0 <= j < k < |marks| && sh.Out(marks[j]) >= sh.Out(marks[k])
    ensures !sh.Distinct(sh.FileMarks(every))
  {
    sh.MarksGrow(every, i, stage, |sh.outs|, 0);
  }

  /** A checkpoint at text offset 0 leaves the table as it is: empty. */
  lemma {:induction false} AtStart(pl: Plan, every: nat, i: nat, block: nat, bound: Option<Bound>, rows: map<nat, AccessPoint>)
    requires pl.Valid() && i < |pl.outs| && block < |pl.outs[i]| && pl.outs[i][block] == 0
    requires Recorded(pl, pl.Marking().Marks(every, i, block), bound, rows)
    ensures rows == map[]
  {
    var sh := pl.Marking();
    var marks := sh.Marks(every, i, block);
    sh.MarksShape(every, i, block);
    if marks != [] {
      var last := marks[|marks| - 1];
      if |marks| > 1 {
        assert sh.Linked(every, marks, |marks| - 1);
        sh.Within(last);
        assert sh.MemberValid(i);
      }
    }
  }

  /** The variables that decide about checkpoints, the bound row and the table. */
  datatype Points = Points(bound: Option<Bound>, rows: map<nat, AccessPoint>, last: nat, emitInitialAccessPoint: bool)

  /** They follow the checkpoints up to a place. */
  ghost predicate FollowsMarks(pl: Plan, every: nat, i: nat, stage: nat, p: Points) {
    && pl.Valid() && pl.Marking().Place(i, stage)
    && var marks := pl.Marking().Marks(every, i, stage);
       && p.last == pl.Marking().Last(marks)
       && p.emitInitialAccessPoint == (stage == 0)
       && Recorded(pl, marks, p.bound, p.rows)
  }

  /** Insert the bound row with its end; fails when the primary key exists. */
  method Insert(b: Bound, rows: map<nat, AccessPoint>, end: nat) returns (ok: bool, rows': map<nat, AccessPoint>)
    ensures ok <==> b.uncompressedOffset !in rows
    ensures ok ==> rows' == rows[b.uncompressedOffset := AccessPoint(end, b.compressedOffset, b.bitOffset, b.window)]
  {
    ok, rows' := b.uncompressedOffset !in rows, rows;
    if ok {
      rows' := rows[b.uncompressedOffset := AccessPoint(end, b.compressedOffset, b.bitOffset, b.window)];
    }
  }

  /** After a call of inflate that stopped at a boundary (src/Index.cpp:591-618). `stray` marks the one
      that can follow the last member of a rejected file. */
  method AtBoundary(every: nat, p: Points, status: Status, totalIn: nat, totalOut: nat, window: array<byte>, availOut: nat,
                    ghost pl: Plan, ghost pos: Pos, ghost stray: bool)
    returns (ok: bool, p': Points)
    requires status.AtBoundary? && window.Length == WINDOW_SIZE && availOut <= WINDOW_SIZE
    requires stray ==> (totalOut != 0 ==> p.bound.Some?) && !status.final && p.emitInitialAccessPoint
    requires !stray ==>
               && pl.Valid() && AtStop(pl, pos, status)
               && FollowsMarks(pl, every, pos.member, pos.stage - 1, p)
               && totalIn == pos.consumed && totalOut == pos.produced
               && Holds(window[..], WINDOW_SIZE - availOut, pl.text, totalOut)
    ensures ok ==> if stray then !p'.emitInitialAccessPoint else FollowsMarks(pl, every, pos.member, pos.stage, p')
    ensures !ok ==> stray || !pl.Marking().Distinct(pl.Marking().FileMarks(every))
  {
    hide Holds, Recorded;
    var sinceLast := totalOut - p.last;
    var needsIndex := sinceLast > every || p.emitInitialAccessPoint;
    ok, p' := true, p;
    if !status.final && needsIndex {
      ok, p' := Checkpoint(every, p, status.unusedBits, totalIn, totalOut, window, availOut, pl, pos, stray);
    }
  }

  method Checkpoint(every: nat, p: Points, bitOffset: nat, totalIn: nat, totalOut: nat, window: array<byte>, availOut: nat,
                    ghost pl: Plan, ghost pos: Pos, ghost stray: bool)
    returns (ok: bool, p': Points)
    requires window.Length == WINDOW_SIZE && availOut <= WINDOW_SIZE
    requires stray ==> totalOut != 0 ==> p.bound.Some?
    requires !stray ==>
               && pl.Valid() && AtStop(pl, pos, Status.AtBoundary(false, bitOffset))
               && FollowsMarks(pl, every, pos.member, pos.stage - 1, p)
               && pl.Marking().Needed(every, pos.member, pos.stage - 1, pl.Marking().Marks(every, pos.member, pos.stage - 1))
               && totalIn == pos.consumed && totalOut == pos.produced
               && Holds(window[..], WINDOW_SIZE - availOut, pl.text, totalOut)
    ensures ok ==> if stray then !p'.emitInitialAccessPoint else FollowsMarks(pl, every, pos.member, pos.stage, p')
    ensures !ok ==> stray || !pl.Marking().Distinct(pl.Marking().FileMarks(every))
  {
    ghost var marks := [];
    if !stray {
      marks := pl.Marking().Marks(every, pos.member, pos.stage - 1);
      BeforeCheckpoint(pl, every, pos, marks, p);
    }
    ok, p' := true, p;
    var rows := p.rows;
    if totalOut != 0 {
      ok, rows := Insert(p.bound.value, p.rows, totalOut - 1);
      if !ok {
        return;
      }
    }
    var w := MakeWindow(window, availOut);
    p' := Points(Some(Bound(totalOut, totalIn, bitOffset, w)), rows, totalOut, false);
    if !stray {
      Resumable(pl, Mark(pos.member, pos.stage - 1), window[..], WINDOW_SIZE - availOut);
      Checkpointed(pl, every, pos, marks, p');
    }
  }

  /** What inserting the bound row does before a new checkpoint is bound: it fails only when the file is
      hopeless, and otherwise closes the range of the last checkpoint. */
  lemma {:induction false} BeforeCheckpoint(pl: Plan, every: nat, pos: Pos, marks: seq<Mark>, p: Points)
    requires pl.Valid() && 0 < pos.stage && pl.Marking().IsMark(Mark(pos.member, pos.stage - 1))
    requires FollowsMarks(pl, every, pos.member, pos.stage - 1, p)
    requires marks == pl.Marking().Marks(every, pos.member, pos.stage - 1)
    ensures var k := Mark(pos.member, pos.stage - 1);
            var out := pl.Marking().Out(k);
            if out == 0 then p.rows == map[]
            else
              && p.bound.Some?
              && var b := p.bound.value;
                 if b.uncompressedOffset in p.rows then !pl.Marking().Distinct(pl.Marking().FileMarks(every))
                 else
                   && DistinctUpTo(pl, marks, |marks|)
                   && PointsFit(pl, marks + [k], |marks|,
                        p.rows[b.uncompressedOffset := AccessPoint(out - 1, b.compressedOffset, b.bitOffset, b.window)])
  {
    hide PointsFit, BoundFits;
    var sh, k := pl.Marking(), Mark(pos.member, pos.stage - 1);
    sh.MarksShape(every, k.member, k.block);
    if sh.Out(k) == 0 {
      AtStart(pl, every, k.member, k.block, p.bound, p.rows);
    } else {
      var b := p.bound.value;
      Close(pl, every, marks, b, p.rows);
      if b.uncompressedOffset in p.rows {
        Hopeless(sh, every, k.member, k.block, marks);
      } else {
        Closed(pl, marks, marks + [k], b, p.rows, sh.Out(k) - 1);
      }
    }
  }

  lemma {:induction false} Checkpointed(pl: Plan, every: nat, pos: Pos, marks: seq<Mark>, p: Points)
    requires pl.Valid() && 0 < pos.stage && pl.Marking().IsMark(Mark(pos.member, pos.stage - 1))
    requires marks == pl.Marking().Marks(every, pos.member, pos.stage - 1)
    requires pl.Marking().Needed(every, pos.member, pos.stage - 1, marks)
    requires p.bound.Some? && BoundFits(pl, Mark(pos.member, pos.stage - 1), p.bound.value)
    requires p.last == p.bound.value.uncompressedOffset && !p.emitInitialAccessPoint
    requires if p.last == 0 then p.rows == map[]
             else PointsFit(pl, marks + [Mark(pos.member, pos.stage - 1)], |marks|, p.rows) && DistinctUpTo(pl, marks, |marks|)
    ensures FollowsMarks(pl, every, pos.member, pos.stage, p)
  {
    NowBound(pl, every, marks, Mark(pos.member, pos.stage - 1), p.bound.value, p.rows);
  }

  /** The new checkpoint is bound, and the rows of those before it are in the table. */
  lemma {:induction false} NowBound(pl: Plan, every: nat, marks: seq<Mark>, k: Mark, b: Bound, rows: map<nat, AccessPoint>)
    requires pl.Valid() && pl.Marking().AreMarks(marks) && pl.Marking().IsMark(k) && BoundFits(pl, k, b)
    requires if pl.Marking().Out(k) == 0 then rows == map[]
             else PointsFit(pl, marks + [k], |marks|, rows) && DistinctUpTo(pl, marks, |marks|)
    ensures Recorded(pl, pl.Marking().Record(marks, k), Some(b), rows)
  {
  }

  /** The window recalls what checkpoint k needs. */
  lemma {:induction false} Resumable(pl: Plan, k: Mark, w: seq<byte>, at: nat)
    requires pl.Valid() && pl.Marking().IsMark(k) && Holds(w, at, pl.text, pl.Marking().Out(k))
    ensures var out := pl.Marking().Out(k);
            pl.Base(k.member) <= out <= |pl.text| && Recalls(w[at..] + w[..at], pl.text[pl.Base(k.member)..out])
  {
    pl.Marking().Within(k);
    WindowRecalls(w, at, pl.text, pl.Marking().Out(k), pl.Base(k.member));
  }

  // ----- the local variables of build

  datatype Vars = Vars(
    input: seq<byte>,  // the last chunk read
    nextIn: nat,       // how much of it has been taken; the rest is zs.stream.avail_in
    availOut: nat,
    totalIn: nat,
    totalOut: nat,
    first: bool,
    points: Points)

  /** The input is the part of the file at hand, and the totals are the stream's. */
  ghost predicate InputFits(v: Vars, zs: GzipStream, from: File)
    reads zs, from
  {
    && zs.Valid() && from.bytes == zs.source
    && zs.Offered(v.input, v.nextIn) && from.pos == zs.pos.consumed + |v.input| - v.nextIn
    && (from.eof ==> from.pos == |zs.source|)
    && v.totalIn == zs.pos.consumed && v.totalOut == zs.pos.produced
    && (if v.first then v.totalIn == 0 else zs.source != [])
  }

  /** The finder has been fed the text up to the last round of the window, which holds the rest. */
  ghost predicate Holding(first: bool, availOut: nat, totalOut: nat, window: array<byte>, finder: LineFinder, text: seq<byte>)
    reads window, finder, finder.sink
  {
    && window.Length == WINDOW_SIZE && availOut <= WINDOW_SIZE && finder.Valid()
    && if first then availOut == 0 && totalOut == 0 && finder.fed == []
       else
         && Holds(window[..], WINDOW_SIZE - availOut, text, totalOut)
         && finder.fed <= text && |finder.fed| == totalOut - (WINDOW_SIZE - availOut)
  }

  ghost predicate ScanFailsOn(cfg: Config, text: seq<byte>) {
    ScanLines(cfg, AllLines(text)).None?
  }

  /** Start the window over when it is full (src/Index.cpp:572-579). */
  method Turn(v: Vars, window: array<byte>, finder: LineFinder, ghost text: seq<byte>) returns (ok: bool, v': Vars)
    requires Holding(v.first, v.availOut, v.totalOut, window, finder, text)
    modifies finder, finder.sink
    ensures v' == v.(availOut := v'.availOut, first := false)
    ensures ok ==> Holding(v'.first, v'.availOut, v'.totalOut, window, finder, text) && v'.availOut > 0
    ensures !ok ==> ScanFailsOn(finder.sink.cfg, text)
  {
    ok, v' := true, v.(first := false);
    if v.availOut == 0 {
      v' := v'.(availOut := WINDOW_SIZE);
      if v.first {
        HoldsAtFirst(window[..], text);
      } else {
        ok := EmptyWindow(v.totalOut, window, finder, text);
      }
    }
  }

  method EmptyWindow(ghost total: nat, window: array<byte>, finder: LineFinder, ghost text: seq<byte>) returns (ok: bool)
    requires window.Length == WINDOW_SIZE && finder.Valid()
    requires Holds(window[..], WINDOW_SIZE, text, total)
    requires finder.fed <= text && |finder.fed| == total - WINDOW_SIZE
    modifies finder, finder.sink
    ensures ok ==> finder.Valid() && Holds(window[..], 0, text, total) && finder.fed <= text && |finder.fed| == total
    ensures !ok ==> ScanFailsOn(finder.sink.cfg, text)
  {
    HoldsAgain(window[..], text, total);
    FedMore(finder.fed, window[..], text, total);
    ghost var fed := finder.fed + window[..];
    assert window[..WINDOW_SIZE] == window[..];
    ok := finder.Add(window, WINDOW_SIZE, false);
    assert finder.fed == fed;
    if !ok {
      StillFails(finder.sink.cfg, fed, text[total..]);
    }
  }

  lemma {:induction false} FedMore(before: seq<byte>, w: seq<byte>, text: seq<byte>, total: nat)
    requires before <= text && total <= |text| && |w| <= total && |before| == total - |w|
    requires w == text[total - |w|..total]
    ensures before + w <= text && before + w + text[total..] == text
  {
    assert before == text[..total - |w|];
    assert before + w == text[..total];
  }

  /** One call of inflate, into the free part of the window (src/Index.cpp:580-584). */
  method InflateOnce(v: Vars, zs: GzipStream, from: File, window: array<byte>, finder: LineFinder)
    returns (status: Status, v': Vars, used: nat, made: nat)
    requires InputFits(v, zs, from) && v.nextIn < |v.input| && !zs.Ended()
    requires Holding(v.first, v.availOut, v.totalOut, window, finder, zs.plan.text) && !v.first && v.availOut > 0
    modifies zs, window
    ensures InputFits(v', zs, from) && Holding(v'.first, v'.availOut, v'.totalOut, window, finder, zs.plan.text) && !v'.first && v'.points == v.points
    ensures if old(zs.pos).member < |zs.plan.outs| then Inflated(zs.plan, old(zs.pos), zs.pos, used, made, status)
            else Strayed(zs.clean, old(zs.pos), zs.pos, used, made, status)
  {
    hide Holds, Wrote, Inflated, Strayed, IsPart;
    ghost var w := window[..];
    status, used, made := zs.Inflate(v.input, v.nextIn, window, WINDOW_SIZE - v.availOut, v.availOut);
    HoldsMore(w, window[..], WINDOW_SIZE - v.availOut, zs.plan.text, v.totalOut, made);
    v' := v.(nextIn := v.nextIn + used, availOut := v.availOut - made,
             totalIn := v.totalIn + used, totalOut := v.totalOut + made);
  }

  /** The checkpoints have got to this position; past the last member of a rejected file they may have
      gone on, which does not matter any more. */
  ghost predicate Marked(pl: Plan, every: nat, pos: Pos, p: Points) {
    if pos.member < |pl.outs| || pos.stage == 0 then FollowsMarks(pl, every, pos.member, pos.stage, p)
    else !p.emitInitialAccessPoint
  }

  /** zlib accepts the file, no two checkpoints share an offset, and no unique index gets a key twice. */
  ghost predicate Accepts(pl: Plan, clean: bool, every: nat, cfg: Config, text: seq<byte>) {
    && clean && pl.Valid()
    && pl.Marking().Distinct(pl.Marking().FileMarks(every))
    && !ScanFailsOn(cfg, text)
  }

  lemma {:induction false} BoundPastMembers(pl: Plan, every: nat, p: Points)
    requires FollowsMarks(pl, every, |pl.outs|, 0, p)
    ensures |pl.text| > 0 ==> p.bound.Some?
  {
    pl.Marking().MarksShape(every, |pl.outs|, 0);
  }

  /** The stream got further. */
  ghost predicate Progress(pl: Plan, p: Pos, q: Pos) {
    && q.member == p.member && q.consumed >= p.consumed && q.produced >= p.produced
    && (q.stage == p.stage + 1 || (q.stage == p.stage && q.consumed + q.produced > p.consumed + p.produced))
  }

  /** A call fails only in a rejected file; otherwise the stream gets further, and reaches the end of a member
      exactly when the call says so. */
  lemma {:induction false} Moved(pl: Plan, clean: bool, p: Pos, q: Pos, used: nat, made: nat, status: Status)
    requires pl.Valid() && At(pl, clean, p) && At(pl, clean, q) && !AtEnd(pl, p)
    requires if p.member < |pl.outs| then Inflated(pl, p, q, used, made, status) else Strayed(clean, p, q, used, made, status)
    ensures if status.Failed? then !clean else Progress(pl, p, q) && (status.StreamEnd? <==> AtEnd(pl, q))
  {
  }

  /** A row with an existing key, or data that zlib rejects: that only in a file that it rejects. */
  predicate Explains(e: Error, clean: bool) {
    e == ConstraintError || (e == DataError && !clean)
  }

  /** One round of the inner loop (src/Index.cpp:571-619). */
  method Step(every: nat, v: Vars, zs: GzipStream, from: File, window: array<byte>, finder: LineFinder)
    returns (r: Result<Status>, v': Vars)
    requires InputFits(v, zs, from) && v.nextIn < |v.input| && !zs.Ended()
    requires Holding(v.first, v.availOut, v.totalOut, window, finder, zs.plan.text)
    requires Marked(zs.plan, every, zs.pos, v.points)
    modifies zs, window, finder, finder.sink
    ensures r.Err? ==> !Accepts(zs.plan, zs.clean, every, finder.sink.cfg, zs.plan.text) && Explains(r.error, zs.clean)
    ensures r.Ok? ==>
              && InputFits(v', zs, from) && Holding(v'.first, v'.availOut, v'.totalOut, window, finder, zs.plan.text) && !v'.first
              && Marked(zs.plan, every, zs.pos, v'.points)
              && (r.value.StreamEnd? <==> zs.Ended())
              && Progress(zs.plan, old(zs.pos), zs.pos)
  {
    hide FollowsMarks, Holds, Inflated, Strayed, Progress, InMember, PastMembers;
    var ok, status, points, used, made;
    ok, v' := Turn(v, window, finder, zs.plan.text);
    if !ok {
      return Err(ConstraintError), v';
    }
    ghost var p := zs.pos;
    status, v', used, made := InflateOnce(v', zs, from, window, finder);
    Moved(zs.plan, zs.clean, p, zs.pos, used, made, status);
    if status.Failed? {
      return Err(DataError), v';
    }
    ok, points := Consider(every, v', status, window, zs.plan, zs.clean, p, zs.pos, used, made);
    if !ok {
      return Err(ConstraintError), v';
    }
    v' := v'.(points := points);
    r := Ok(status);
  }

  /** The decision about a checkpoint after a call of inflate that took the stream from p to q. */
  method Consider(every: nat, v: Vars, status: Status, window: array<byte>,
                  ghost pl: Plan, ghost clean: bool, ghost p: Pos, ghost q: Pos, ghost used: nat, ghost made: nat)
    returns (ok: bool, points: Points)
    requires pl.Valid() && At(pl, clean, p) && At(pl, clean, q) && !status.Failed? && !AtEnd(pl, p)
    requires if p.member < |pl.outs| then Inflated(pl, p, q, used, made, status) else Strayed(clean, p, q, used, made, status)
    requires Marked(pl, every, p, v.points) && v.totalIn == q.consumed && v.totalOut == q.produced
    requires window.Length == WINDOW_SIZE && v.availOut <= WINDOW_SIZE
    requires Holds(window[..], WINDOW_SIZE - v.availOut, pl.text, v.totalOut)
    ensures ok ==> Marked(pl, every, q, points)
    ensures !ok ==> !clean || !pl.Marking().Distinct(pl.Marking().FileMarks(every))
  {
    ok, points := true, v.points;
    if p.member < |pl.outs| {
      assert pl.Marking().MemberValid(p.member);
    }
    if status.AtBoundary? {
      ghost var stray := p.member == |pl.outs|;
      if stray {
        BoundPastMembers(pl, every, points);
      }
      ok, points := AtBoundary(every, points, status, v.totalIn, v.totalOut, window, v.availOut, pl, q, stray);
    }
  }

  // ----- build

  /** The rows that build inserts. */
  datatype Built = Built(accessPoints: map<nat, AccessPoint>, lineOffsets: map<nat, LineRow>, keys: Tables)

  /** The tables of a file's index: the rows of its checkpoints, and of the scan of its lines. */
  ghost predicate Describes(b: Built, pl: Plan, every: nat, cfg: Config, text: seq<byte>) {
    && pl.Valid()
    && var marks := pl.Marking().FileMarks(every);
       && pl.Marking().Distinct(marks)
       && PointsFit(pl, marks, if |pl.text| == 0 then 0 else |marks|, b.accessPoints)
       && var scan := ScanLines(cfg, AllLines(text));
          && scan.Some?
          && b.lineOffsets == LineTable(scan.value.offsets + [scan.value.next], |scan.value.offsets|)
          && b.keys == scan.value.tables
  }

  /** Position q is later than p. */
  ghost predicate Later(p: Pos, q: Pos) {
    && q.member == p.member && q.consumed >= p.consumed && q.produced >= p.produced
    && (q.stage > p.stage || (q.stage == p.stage && q.consumed + q.produced > p.consumed + p.produced))
  }

  function StagesLeft(pl: Plan, p: Pos): int {
    if p.member < |pl.outs| then |pl.outs[p.member]| + 1 - p.stage else 1 - p.stage
  }

  function BytesLeft(pl: Plan, size: nat, p: Pos): int {
    size - p.consumed + |pl.text| - p.produced
  }

  lemma {:induction false} LeftOver(pl: Plan, clean: bool, size: nat, p: Pos)
    requires pl.Valid() && At(pl, clean, p) && p.consumed <= size
    ensures p.member <= |pl.outs| && 0 <= StagesLeft(pl, p) && 0 <= BytesLeft(pl, size, p)
  {
    if p.member < |pl.outs| {
      assert pl.MemberOk(p.member);
      if p.stage < |pl.outs[p.member]| {
        pl.StageOrder(p.member, p.stage);
      }
      pl.BeginsGrow(p.member + 1, |pl.outs|);
    }
  }

  /** The inner loop (src/Index.cpp:571-620): until the chunk is used up or a member ends. */
  method Decode(every: nat, v: Vars, zs: GzipStream, from: File, window: array<byte>, finder: LineFinder)
    returns (r: Result<Status>, v': Vars)
    requires InputFits(v, zs, from) && v.nextIn < |v.input| && !zs.Ended()
    requires Holding(v.first, v.availOut, v.totalOut, window, finder, zs.plan.text)
    requires Marked(zs.plan, every, zs.pos, v.points)
    modifies zs, window, finder, finder.sink
    ensures r.Err? ==> !Accepts(zs.plan, zs.clean, every, finder.sink.cfg, zs.plan.text) && Explains(r.error, zs.clean)
    ensures r.Ok? ==>
              && InputFits(v', zs, from) && Holding(v'.first, v'.availOut, v'.totalOut, window, finder, zs.plan.text) && !v'.first
              && Marked(zs.plan, every, zs.pos, v'.points)
              && (r.value.StreamEnd? <==> zs.Ended())
              && (r.value.StreamEnd? || v'.nextIn == |v'.input|)
              && Later(old(zs.pos), zs.pos)
  {
    hide Holding, Marked, Accepts;
    v' := v;
    while true
      invariant InputFits(v', zs, from) && v'.nextIn < |v'.input| && !zs.Ended()
      invariant Holding(v'.first, v'.availOut, v'.totalOut, window, finder, zs.plan.text)
      invariant Marked(zs.plan, every, zs.pos, v'.points)
      invariant zs.pos == old(zs.pos) || Later(old(zs.pos), zs.pos)
      decreases StagesLeft(zs.plan, zs.pos), BytesLeft(zs.plan, |zs.source|, zs.pos)
    {
      LeftOver(zs.plan, zs.clean, |zs.source|, zs.pos);
      r, v' := Step(every, v', zs, from, window, finder);
      if r.Err? || r.value.StreamEnd? || v'.nextIn == |v'.input| {
        return;
      }
    }
  }

  /** Where the stream can be when the whole file has been taken and no member has just ended. */
  lemma {:induction false} AtEof(pl: Plan, clean: bool, size: nat, p: Pos)
    requires pl.Valid() && At(pl, clean, p) && p.consumed == size && !AtEnd(pl, p)
    requires pl.begins[|pl.outs|] <= size && (!clean ==> pl.begins[|pl.outs|] < size)
    ensures p.member == |pl.outs| && p.produced == |pl.text|
    ensures p.stage == 0 <==> clean
  {
    if p.member < |pl.outs| {
      assert pl.MemberOk(p.member);
      if p.stage < |pl.outs[p.member]| {
        pl.StageOrder(p.member, p.stage);
      }
      pl.BeginsGrow(p.member + 1, |pl.outs|);
      assert false;
    }
  }

  /** The same when a member has just ended: it is the last. */
  lemma {:induction false} AtLastEnd(pl: Plan, clean: bool, size: nat, p: Pos)
    requires pl.Valid() && At(pl, clean, p) && p.consumed == size && AtEnd(pl, p)
    requires pl.begins[|pl.outs|] <= size && (!clean ==> pl.begins[|pl.outs|] < size)
    ensures clean && p.member + 1 == |pl.outs| && p.produced == |pl.text|
  {
    pl.BeginsGrow(p.member + 1, |pl.outs|);
  }

  /** All checkpoints of an accepted file have been recorded. */
  ghost predicate AllRecorded(pl: Plan, every: nat, p: Points) {
    pl.Valid() && Recorded(pl, pl.Marking().FileMarks(every), p.bound, p.rows)
  }

  /** What flushing the last block does (src/Index.cpp:638-643). */
  lemma {:induction false} LastFlush(pl: Plan, every: nat, p: Points)
    requires AllRecorded(pl, every, p)
    ensures var marks := pl.Marking().FileMarks(every);
            if |pl.text| == 0 then
              pl.Marking().Distinct(marks) && PointsFit(pl, marks, 0, p.rows)
            else
              && p.bound.Some?
              && var b := p.bound.value;
                 && (b.uncompressedOffset in p.rows <==> !pl.Marking().Distinct(marks))
                 && (b.uncompressedOffset !in p.rows ==>
                       PointsFit(pl, marks, |marks|,
                         p.rows[b.uncompressedOffset := AccessPoint(|pl.text| - 1, b.compressedOffset, b.bitOffset, b.window)]))
  {
    var sh := pl.Marking();
    var marks := sh.FileMarks(every);
    sh.MarksShape(every, |pl.outs|, 0);
    sh.LastBounds(every, marks);
    if |pl.text| > 0 {
      var b := p.bound.value;
      Close(pl, every, marks, b, p.rows);
      if b.uncompressedOffset !in p.rows {
        Closed(pl, marks, marks, b, p.rows, |pl.text| - 1);
      }
    }
  }

  /** What follows the loops (src/Index.cpp:638-658). */
  method Finish(every: nat, v: Vars, window: array<byte>, finder: LineFinder, ghost pl: Plan) returns (r: Result<Built>, ghost text: seq<byte>)
    requires AllRecorded(pl, every, v.points) && v.totalOut == |pl.text|
    requires Holding(v.first, v.availOut, v.totalOut, window, finder, pl.text)
    modifies finder, finder.sink
    ensures text == if v.first then window[..] else pl.text
    ensures r.Ok? <==> Accepts(pl, true, every, finder.sink.cfg, text)
    ensures r.Err? ==> r.error == ConstraintError
    ensures r.Ok? ==> Describes(r.value, pl, every, finder.sink.cfg, text)
  {
    hide Holding, PointsFit, LineTable;
    text := if v.first then window[..] else pl.text;
    LastFlush(pl, every, v.points);
    var rows := v.points.rows;
    if v.totalOut != 0 {
      var inserted;
      inserted, rows := Insert(v.points.bound.value, rows, v.totalOut - 1);
      if !inserted {
        return Err(ConstraintError), text;
      }
    }
    var lines := FinishLines(v, window, finder, pl.text);
    if lines.None? {
      return Err(ConstraintError), text;
    }
    r := Ok(Built(rows, lines.value, finder.sink.tables));
  }

  /** The last, partial round of the window, and the line table. */
  method FinishLines(v: Vars, window: array<byte>, finder: LineFinder, ghost whole: seq<byte>) returns (lines: Option<map<nat, LineRow>>)
    requires Holding(v.first, v.availOut, v.totalOut, window, finder, whole) && v.totalOut == |whole|
    modifies finder, finder.sink
    ensures var text := if v.first then window[..] else whole;
            match ScanLines(finder.sink.cfg, AllLines(text))
            case None => lines == None
            case Some(scan) =>
              && lines == Some(LineTable(scan.offsets + [scan.next], |scan.offsets|))
              && finder.sink.tables == scan.tables
  {
    var ok := LastRound(v, window, finder, whole);
    if !ok {
      return None;
    }
    var offsets := finder.lineOffsets;
    assert offsets == offsets[..|offsets| - 1] + [offsets[|offsets| - 1]];
    var rows := LineRows(offsets);
    return Some(rows);
  }

  method LastRound(v: Vars, window: array<byte>, finder: LineFinder, ghost whole: seq<byte>) returns (ok: bool)
    requires Holding(v.first, v.availOut, v.totalOut, window, finder, whole) && v.totalOut == |whole|
    modifies finder, finder.sink
    ensures finder.fed == if v.first then window[..] else whole
    ensures if ok then finder.Finished() else ScanFailsOn(finder.sink.cfg, finder.fed)
  {
    ghost var fed, at := finder.fed, WINDOW_SIZE - v.availOut;
    if !v.first {
      FrontOf(window[..], at, whole, |whole|);
      FedAll(fed, window[..][..at], whole);
    }
    assert window[..][..at] == window[..WINDOW_SIZE - v.availOut];
    ok := finder.Add(window, WINDOW_SIZE - v.availOut, true);
  }

  lemma {:induction false} FedAll(before: seq<byte>, w: seq<byte>, text: seq<byte>)
    requires before <= text && |before| + |w| == |text| && w == text[|text| - |w|..]
    ensures before + w == text
  {
  }

  /** The loop that inserts the line offsets. */
  method LineRows(offsets: seq<nat>) returns (rows: map<nat, LineRow>)
    requires offsets != []
    ensures rows == LineTable(offsets, |offsets| - 1)
  {
    rows := map[];
    var line := 0;
    while line < |offsets| - 1
      invariant 0 <= line <= |offsets| - 1
      invariant rows == LineTable(offsets, line)
    {
      rows := rows[line + 1 := LineRowOf(offsets, line + 1)];
      line := line + 1;
    }
  }

  /** What building comes to when this is the text that the line finder gets. */
  ghost predicate Outcome(r: Result<Built>, pl: Plan, clean: bool, every: nat, cfg: Config, text: seq<byte>) {
    && (r.Ok? <==> Accepts(pl, clean, every, cfg, text))
    && (r.Ok? ==> Describes(r.value, pl, every, cfg, text))
    && (r.Err? ==> Explains(r.error, clean))
  }

  /** Building succeeds exactly when zlib accepts the file, no two of its checkpoints share an offset and
      no unique index gets a key twice; and then the tables describe the file. A file of no bytes is
      accepted too, with the lines of a window that was never filled. */
  method Build(codec: Codec, compressed: seq<byte>, indexEvery: nat, cfg: Config) returns (r: Result<Built>)
    ensures var pl, clean := PlanOf(codec, compressed), Clean(codec, compressed);
            if compressed != [] then Outcome(r, pl, clean, indexEvery, cfg, pl.text)
            else exists window: seq<byte> :: |window| == WINDOW_SIZE && Outcome(r, pl, clean, indexEvery, cfg, window)
  {
    var from := new File(compressed);
    var zs := new GzipStream(codec, compressed);
    var sink := new Sink(cfg);
    var finder := new LineFinder(sink);
    var window := new byte[WINDOW_SIZE];
    var v := Vars([], 0, 0, 0, 0, true, Points(None, map[], 0, true));
    var failure;
    failure, v := Run(indexEvery, v, zs, from, window, finder);
    if failure.Some? {
      return Err(failure.value);
    }
    ghost var text;
    r, text := Finish(indexEvery, v, window, finder, zs.plan);
    assert Outcome(r, zs.plan, true, indexEvery, cfg, text);
  }

  /** The outer loop (src/Index.cpp:559-636). */
  method Run(every: nat, v: Vars, zs: GzipStream, from: File, window: array<byte>, finder: LineFinder)
    returns (failure: Option<Error>, v': Vars)
    requires InputFits(v, zs, from) && zs.pos == Pos(0, 0, 0, 0) && v.nextIn == |v.input|
    requires Holding(v.first, v.availOut, v.totalOut, window, finder, zs.plan.text) && v.first
    requires FollowsMarks(zs.plan, every, 0, 0, v.points)
    modifies zs, from, window, finder, finder.sink
    ensures failure.Some? ==>
              && zs.source != [] && !Accepts(zs.plan, zs.clean, every, finder.sink.cfg, zs.plan.text)
              && Explains(failure.value, zs.clean)
    ensures failure.None? ==>
              && zs.clean && AllRecorded(zs.plan, every, v'.points)
              && Holding(v'.first, v'.availOut, v'.totalOut, window, finder, zs.plan.text) && v'.totalOut == |zs.plan.text|
              && (v'.first <==> zs.source == [])
  {
    v' := v;
    while true
      invariant InputFits(v', zs, from) && !zs.Ended()
      invariant Holding(v'.first, v'.availOut, v'.totalOut, window, finder, zs.plan.text)
      invariant Marked(zs.plan, every, zs.pos, v'.points)
      decreases |zs.plan.outs| - zs.pos.member, StagesLeft(zs.plan, zs.pos), BytesLeft(zs.plan, |zs.source|, zs.pos)
    {
      LeftOver(zs.plan, zs.clean, |zs.source|, zs.pos);
      var next;
      next, v' := Round(every, v', zs, from, window, finder);
      if next.Stop? {
        return None, v';
      }
      if next.Throw? {
        return Some(next.error), v';
      }
    }
  }

  /** One round of the outer loop: read a chunk when the last is used up, and decode it. */
  method Round(every: nat, v: Vars, zs: GzipStream, from: File, window: array<byte>, finder: LineFinder)
    returns (next: Next, v': Vars)
    requires InputFits(v, zs, from) && !zs.Ended()
    requires Holding(v.first, v.availOut, v.totalOut, window, finder, zs.plan.text)
    requires Marked(zs.plan, every, zs.pos, v.points)
    modifies zs, from, window, finder, finder.sink
    ensures next.Throw? ==>
              && zs.source != [] && !Accepts(zs.plan, zs.clean, every, finder.sink.cfg, zs.plan.text)
              && Explains(next.error, zs.clean)
    ensures !next.Throw? ==>
              && InputFits(v', zs, from)
              && Holding(v'.first, v'.availOut, v'.totalOut, window, finder, zs.plan.text)
    ensures next.GoOn? ==>
              && !zs.Ended() && Marked(zs.plan, every, zs.pos, v'.points)
              && (Later(old(zs.pos), zs.pos) || zs.pos.member == old(zs.pos.member) + 1)
    ensures next.Stop? ==>
              && zs.clean && AllRecorded(zs.plan, every, v'.points)
              && v'.totalOut == |zs.plan.text| && (v'.first <==> zs.source == [])
  {
    v' := v;
    if v'.nextIn == |v'.input| {
      next, v' := Fill(every, v', zs, from);
      if !next.GoOn? {
        return;
      }
    }
    next, v' := DecodeChunk(every, v', zs, from, window, finder);
  }

  datatype Next = GoOn | Stop | Throw(error: Error)

  /** The inner loop and what follows it. */
  method DecodeChunk(every: nat, v: Vars, zs: GzipStream, from: File, window: array<byte>, finder: LineFinder)
    returns (next: Next, v': Vars)
    requires InputFits(v, zs, from) && v.nextIn < |v.input| && !zs.Ended()
    requires Holding(v.first, v.availOut, v.totalOut, window, finder, zs.plan.text)
    requires Marked(zs.plan, every, zs.pos, v.points)
    modifies zs, window, finder, finder.sink
    ensures next.Throw? ==> !Accepts(zs.plan, zs.clean, every, finder.sink.cfg, zs.plan.text) && Explains(next.error, zs.clean)
    ensures !next.Throw? ==>
              && InputFits(v', zs, from) && !v'.first
              && Holding(v'.first, v'.availOut, v'.totalOut, window, finder, zs.plan.text)
    ensures next.GoOn? ==>
              && !zs.Ended() && Marked(zs.plan, every, zs.pos, v'.points)
              && (Later(old(zs.pos), zs.pos) || zs.pos.member == old(zs.pos.member) + 1)
    ensures next.Stop? ==>
              && zs.clean && AllRecorded(zs.plan, every, v'.points)
              && v'.totalOut == |zs.plan.text| && zs.source != []
  {
    var r;
    r, v' := Decode(every, v, zs, from, window, finder);
    if r.Err? {
      return Throw(r.error), v';
    }
    next := GoOn;
    if r.value.StreamEnd? {
      var more := v'.nextIn < |v'.input| || !from.eof;
      v' := EndMember(every, v', zs, from, more);
      if !more {
        next := Stop;
      }
    }
  }

  /** Read the next chunk (src/Index.cpp:560-570). */
  method Fill(every: nat, v: Vars, zs: GzipStream, from: File) returns (next: Next, v': Vars)
    requires InputFits(v, zs, from) && !zs.Ended() && v.nextIn == |v.input|
    requires Marked(zs.plan, every, zs.pos, v.points)
    modifies from
    ensures InputFits(v', zs, from) && v' == v.(input := v'.input, nextIn := 0)
    ensures next.GoOn? ==> v'.input != []
    ensures next.Throw? ==> next.error == DataError && !zs.clean && zs.source != []
    ensures next.Stop? ==>
              && zs.clean && AllRecorded(zs.plan, every, v.points)
              && v.totalOut == |zs.plan.text| && (v.first <==> zs.source == [])
  {
    var chunk := from.Read(CHUNK_SIZE);
    v' := v.(input := chunk, nextIn := 0);
    if chunk == [] {
      AtEof(zs.plan, zs.clean, |zs.source|, zs.pos);
    }
    if v'.points.emitInitialAccessPoint && chunk == [] && from.eof {
      next := Stop;
    } else if chunk == [] {
      next := Throw(DataError);
    } else {
      next := GoOn;
    }
  }

  /** After the end of a member (src/Index.cpp:621-635). */
  method EndMember(every: nat, v: Vars, zs: GzipStream, from: File, more: bool) returns (v': Vars)
    requires InputFits(v, zs, from) && zs.Ended() && more == (v.nextIn < |v.input| || !from.eof)
    requires Marked(zs.plan, every, zs.pos, v.points)
    modifies zs
    ensures v' == v.(points := v'.points) && InputFits(v', zs, from)
    ensures more ==>
              && Marked(zs.plan, every, zs.pos, v'.points) && !zs.Ended()
              && zs.pos.member == old(zs.pos.member) + 1 && v.totalIn == zs.pos.consumed
    ensures !more ==>
              && zs.clean && AllRecorded(zs.plan, every, v'.points)
              && v.totalOut == |zs.plan.text|
  {
    v' := v;
    if more {
      zs.Reset();
      v' := v.(points := v.points.(emitInitialAccessPoint := true));
    } else {
      AtLastEnd(zs.plan, zs.clean, |zs.source|, zs.pos);
    }
  }
}
