/** The foreign code the program drives: a stdio file, and zlib's inflate as far as its documented
    contract goes. Each call makes some progress; how much is left open. The caller must hand over the
    file's bytes, in order: that is a precondition of every call. */
module Zlib {
  import opened Prelude
  import opened BitPacking
  import opened Deflate
  import opened FilePlan
  import opened Layout

  /** A file opened for reading. */
  class File {
    const bytes: seq<byte>
    var pos: nat
    var eof: bool

    constructor (bytes: seq<byte>)
      ensures this.bytes == bytes && pos == 0 && !eof
    {
      this.bytes := bytes;
      pos, eof := 0, false;
    }

    /** fread of at most n bytes. */
    method Read(n: nat) returns (r: seq<byte>)
      modifies this
      ensures old(pos) <= |bytes| ==> pos == Min(old(pos) + n, |bytes|) && r == bytes[old(pos)..pos]
      ensures old(pos) > |bytes| ==> pos == old(pos) && r == []
      ensures eof == (old(eof) || old(pos) + n > |bytes|)
    {
      eof := eof || pos + n > |bytes|;
      if pos > |bytes| {
        return [];
      }
      var to := Min(pos + n, |bytes|);
      r := bytes[pos..to];
      pos := to;
    }

    /** fgetc */
    method GetChar() returns (c: Option<byte>)
      modifies this
      ensures old(pos) < |bytes| ==> c == Some(bytes[old(pos)]) && pos == old(pos) + 1 && eof == old(eof)
      ensures old(pos) >= |bytes| ==> c == None && pos == old(pos)
    {
      if pos < |bytes| {
        c := Some(bytes[pos]);
        pos := pos + 1;
      } else {
        c, eof := None, true;
      }
    }

    /** fseek from the start, which clears the end-of-file flag. */
    method Seek(to: nat)
      modifies this
      ensures pos == to && !eof
    {
      pos, eof := to, false;
    }
  }

  /** w' is the buffer w after `made` bytes of the text, from `from` on, are written at `at`. */
  ghost predicate Wrote(w: seq<byte>, w': seq<byte>, at: nat, text: seq<byte>, from: nat, made: nat) {
    && |w'| == |w| && from + made <= |text|
    && forall k :: 0 <= k < |w| ==> w'[k] == if at <= k < at + made then text[from + k - at] else w[k]
  }

  /** The chunk is the part of the source that starts at `start`. */
  ghost predicate IsPart(chunk: seq<byte>, source: seq<byte>, start: nat) {
    start + |chunk| <= |source| && forall k :: 0 <= k < |chunk| ==> chunk[k] == source[start + k]
  }

  lemma {:induction false} SliceIsPart(source: seq<byte>, a: nat, b: nat)
    requires a <= b <= |source|
    ensures IsPart(source[a..b], source, a)
  {
  }

  /** A part of a part. */
  lemma {:induction false} PartOfPart(chunk: seq<byte>, file: seq<byte>, at: nat, source: seq<byte>, start: nat)
    requires IsPart(chunk, file, at) && IsPart(source, file, start) && start <= at
    requires start + |source| == |file|
    ensures IsPart(chunk, source, at - start)
  {
  }

  /** How inflate returns. `AtBoundary` stands for bit 7 of data_type, `final` for bit 6, `unusedBits`
      for the low three. */
  datatype Status = Running | AtBoundary(final: bool, unusedBits: nat) | StreamEnd | Failed

  /** Where a gzip stream stands: the current member, the stops of it that have been passed (after the
      header, after each block, at the end), the bytes of the file taken and of text delivered. */
  datatype Pos = Pos(member: nat, stage: nat, consumed: nat, produced: nat)

  predicate HasStage(pl: Plan, p: Pos) {
    p.member < |pl.outs| && p.stage <= |pl.outs[p.member]|
  }

  /** All stops of a member have been passed. */
  predicate AtEnd(pl: Plan, p: Pos) {
    p.member < |pl.outs| && p.stage == |pl.outs[p.member]| + 1
  }

  /** Between the last stop and the next. The trailer's last byte ends the member. */
  ghost predicate InMember(pl: Plan, p: Pos)
    requires pl.Valid() && p.member < |pl.outs|
  {
    var n := |pl.outs[p.member]|;
    && p.stage <= n + 1
    && (if p.stage == 0 then pl.begins[p.member] <= p.consumed && pl.Base(p.member) <= p.produced
        else pl.InEnd(p.member, p.stage - 1) <= p.consumed && pl.OutEnd(p.member, p.stage - 1) <= p.produced)
    && (p.stage <= n ==> p.consumed <= pl.InEnd(p.member, p.stage) && p.produced <= pl.OutEnd(p.member, p.stage))
    && (p.stage == n ==> p.consumed < pl.begins[p.member + 1])
    && (p.stage == n + 1 ==> p.consumed == pl.begins[p.member + 1] && p.produced == pl.Base(p.member + 1))
  }

  /** Past the last member: in what follows an accepted file there is no further stop, in a rejected one
      at most the one after a header. */
  ghost predicate PastMembers(pl: Plan, clean: bool, p: Pos)
    requires pl.Valid()
  {
    && p.member == |pl.outs| && p.produced == |pl.text| && pl.begins[|pl.outs|] <= p.consumed
    && if p.stage == 0 then clean || p.consumed == pl.begins[|pl.outs|] else p.stage == 1 && !clean
  }

  ghost predicate At(pl: Plan, clean: bool, p: Pos)
    requires pl.Valid()
  {
    if p.member < |pl.outs| then InMember(pl, p) else PastMembers(pl, clean, p)
  }

  /** One call's progress inside the current stage, or to its end. */
  predicate Legal(pl: Plan, p: Pos, input: nat, avail: nat, used: nat, made: nat, done: bool)
    requires HasStage(pl, p) && |pl.begins| == |pl.outs| + 1 && |pl.bits| == |pl.outs|
  {
    var inEnd, outEnd := pl.InEnd(p.member, p.stage), pl.OutEnd(p.member, p.stage);
    && used <= input && made <= avail
    && p.consumed + used <= inEnd && p.produced + made <= outEnd
    && if done then p.consumed + used == inEnd && p.produced + made == outEnd
       else used + made > 0 && (p.stage == |pl.outs[p.member]| ==> p.consumed + used < inEnd)
  }

  lemma {:induction false} CanAdvance(pl: Plan, p: Pos, input: nat, avail: nat)
    requires pl.Valid() && HasStage(pl, p) && InMember(pl, p) && 0 < input && 0 < avail
    ensures exists used: nat, made: nat, done :: Legal(pl, p, input, avail, used, made, done)
  {
    var n := |pl.outs[p.member]|;
    assert pl.MemberOk(p.member);
    pl.StageOrder(p.member, n - 1);
    if p.produced < pl.OutEnd(p.member, p.stage) {
      assert Legal(pl, p, input, avail, 0, 1, false);
    } else if p.stage == n {
      assert Legal(pl, p, input, avail, 1, 0, p.consumed + 1 == pl.InEnd(p.member, p.stage));
    } else if p.consumed < pl.InEnd(p.member, p.stage) {
      assert Legal(pl, p, input, avail, 1, 0, false);
    } else {
      assert Legal(pl, p, input, avail, 0, 0, true);
    }
  }

  function After(p: Pos, used: nat, made: nat, done: bool): Pos {
    Pos(p.member, if done then p.stage + 1 else p.stage, p.consumed + used, p.produced + made)
  }

  function StatusOf(pl: Plan, p: Pos, done: bool): Status
    requires HasStage(pl, p) && |pl.bits| == |pl.outs| && |pl.bits[p.member]| == |pl.outs[p.member]|
  {
    if !done then Running
    else if p.stage < |pl.outs[p.member]| then
      var bit := pl.bits[p.member][p.stage];
      AtBoundary(p.stage + 1 == |pl.outs[p.member]|, 8 * BytesFor(bit) - bit)
    else StreamEnd
  }

  /** The stop that has just been passed. */
  ghost predicate AtStop(pl: Plan, p: Pos, status: Status)
    requires status.AtBoundary? && pl.Valid()
  {
    && p.member < |pl.outs| && 0 < p.stage <= |pl.outs[p.member]| && pl.MemberOk(p.member)
    && var bit := pl.bits[p.member][p.stage - 1];
       && p.consumed == BytesFor(bit)
       && p.produced == pl.outs[p.member][p.stage - 1]
       && status == AtBoundary(p.stage == |pl.outs[p.member]|, 8 * p.consumed - bit)
  }

  /** What a call does inside a member. */
  ghost predicate Inflated(pl: Plan, p: Pos, q: Pos, used: nat, made: nat, status: Status)
    requires pl.Valid()
  {
    && q.member == p.member && q.consumed == p.consumed + used && q.produced == p.produced + made
    && match status
       case Running => q.stage == p.stage && used + made > 0
       case AtBoundary(_, _) => q.stage == p.stage + 1 && AtStop(pl, q, status)
       case StreamEnd => q.stage == p.stage + 1 && AtEnd(pl, q)
       case Failed => false
  }

  /** What a call does past the last member. */
  ghost predicate Strayed(clean: bool, p: Pos, q: Pos, used: nat, made: nat, status: Status) {
    && made == 0 && q.member == p.member && q.consumed == p.consumed + used && q.produced == p.produced
    && match status
       case Running => used > 0 && q.stage == p.stage && (clean || p.stage == 1)
       case AtBoundary(final, _) => !clean && !final && p.stage == 0 && q.stage == 1
       case StreamEnd => false
       case Failed => !clean
  }

  lemma {:induction false} Advanced(pl: Plan, p: Pos, input: nat, avail: nat, used: nat, made: nat, done: bool)
    requires pl.Valid() && HasStage(pl, p) && InMember(pl, p) && pl.MemberOk(p.member)
    requires Legal(pl, p, input, avail, used, made, done)
    ensures InMember(pl, After(p, used, made, done))
    ensures p.produced + made <= |pl.text|
    ensures Inflated(pl, p, After(p, used, made, done), used, made, StatusOf(pl, p, done))
  {
    if p.stage < |pl.outs[p.member]| {
      pl.StageOrder(p.member, p.stage);
    }
    pl.BeginsGrow(p.member + 1, |pl.outs|);
  }

  lemma {:induction false} StartOf(pl: Plan, clean: bool, i: nat)
    requires pl.Valid() && i <= |pl.outs|
    ensures At(pl, clean, Pos(i, 0, pl.begins[i], pl.Base(i)))
  {
    if i < |pl.outs| {
      assert pl.MemberOk(i);
      pl.StageOrder(i, 0);
    }
  }

  /** A z_stream in gzip mode, called with Z_BLOCK. */
  class GzipStream {
    const source: seq<byte>
    const plan: Plan
    const clean: bool  // zlib accepts the file
    var pos: Pos

    constructor (codec: Codec, source: seq<byte>)
      ensures Valid() && this.source == source && plan == PlanOf(codec, source) && clean == Clean(codec, source)
      ensures pos == Pos(0, 0, 0, 0)
    {
      this.source, plan, clean := source, PlanOf(codec, source), Clean(codec, source);
      pos := Pos(0, 0, 0, 0);
      new;
      PlanOfValid(codec, source);
      StartOf(plan, clean, 0);
    }

    ghost predicate Valid()
      reads this
    {
      && plan.Valid() && At(plan, clean, pos) && pos.consumed <= |source|
      && plan.begins[|plan.outs|] <= |source| && (!clean ==> plan.begins[|plan.outs|] < |source|)
    }

    ghost predicate Ended()
      reads this
    {
      AtEnd(plan, pos)
    }

    /** The chunk of input offered is the part of the file around the stream's position. */
    ghost predicate Offered(input: seq<byte>, nextIn: nat)
      reads this
    {
      nextIn <= |input| && nextIn <= pos.consumed && IsPart(input, source, pos.consumed - nextIn)
    }

    method Inflate(input: seq<byte>, nextIn: nat, window: array<byte>, at: nat, avail: nat)
      returns (status: Status, used: nat, made: nat)
      requires Valid() && !Ended()
      requires Offered(input, nextIn) && nextIn < |input|
      requires 0 < avail && at + avail <= window.Length
      modifies this, window
      ensures Valid() && used <= |input| - nextIn && made <= avail
      ensures if old(pos).member < |plan.outs| then Inflated(plan, old(pos), pos, used, made, status)
              else Strayed(clean, old(pos), pos, used, made, status)
      ensures Wrote(old(window[..]), window[..], at, plan.text, old(pos).produced, made)
    {
      if pos.member < |plan.outs| {
        status, used, made := InflateMember(|input| - nextIn, window, at, avail);
      } else {
        status, used, made := Stray(|input| - nextIn);
      }
    }

    method InflateMember(input: nat, window: array<byte>, at: nat, avail: nat)
      returns (status: Status, used: nat, made: nat)
      requires plan.Valid() && HasStage(plan, pos) && InMember(plan, pos)
      requires 0 < input && 0 < avail && at + avail <= window.Length
      modifies this, window
      ensures pos.member < |plan.outs| && InMember(plan, pos) && used <= input && made <= avail
      ensures Inflated(plan, old(pos), pos, used, made, status)
      ensures Wrote(old(window[..]), window[..], at, plan.text, old(pos).produced, made)
    {
      assert plan.MemberOk(pos.member);
      CanAdvance(plan, pos, input, avail);
      var done: bool;
      used, made, done :| Legal(plan, pos, input, avail, used, made, done);
      Advanced(plan, pos, input, avail, used, made, done);
      Copy(plan.text, pos.produced, made, window, at);
      status := StatusOf(plan, pos, done);
      pos := After(pos, used, made, done);
    }

    method Copy(text: seq<byte>, from: nat, made: nat, window: array<byte>, at: nat)
      requires from + made <= |text| && at + made <= window.Length
      modifies window
      ensures Wrote(old(window[..]), window[..], at, text, from, made)
    {
      forall k | 0 <= k < made {
        window[at + k] := text[from + k];
      }
    }

    /** Past the last member there is a part of a header to take, or something that is sure to fail:
        a bad header at once, damaged blocks or a missing end at some point after the header. */
    method Stray(input: nat) returns (status: Status, used: nat, made: nat)
      requires plan.Valid() && PastMembers(plan, clean, pos) && 0 < input
      modifies this
      ensures PastMembers(plan, clean, pos) && used <= input
      ensures Strayed(clean, old(pos), pos, used, made, status)
    {
      used, made, status := 0, 0, Failed;
      var fails: bool := *;
      if clean || !fails {
        used :| 0 < used <= input;
        if !clean && pos.stage == 0 {
          status, pos := AtBoundary(false, 0), Pos(pos.member, 1, pos.consumed + used, pos.produced);
        } else {
          status, pos := Running, pos.(consumed := pos.consumed + used);
        }
      }
    }

    /** inflateReset, at the end of a member. */
    method Reset()
      requires Valid() && Ended()
      modifies this
      ensures Valid() && !Ended() && pos == old(pos).(member := old(pos.member) + 1, stage := 0)
    {
      StartOf(plan, clean, pos.member + 1);
      pos := pos.(member := pos.member + 1, stage := 0);
    }
  }
}
