/** The plan of a file that consists of members. */
module Layout {
  import opened Prelude
  import opened BitPacking
  import opened Deflate
  import opened GzipFile
  import opened FilePlan

  /** The plan of the members of a file. */
  function PlanOf(c: Codec, s: seq<byte>): Plan {
    MembersPlan(ParseFile(c, s))
  }

  /** Whether zlib accepts the file. */
  predicate Clean(c: Codec, s: seq<byte>) {
    Accepted(c, s)
  }

  function MembersPlan(ms: seq<Member>): (r: Plan)
    ensures |r.outs| == |r.bits| == |ms| && |r.begins| == |ms| + 1 && r.text == Text(ms)
    ensures forall i :: 0 <= i <= |ms| ==> r.begins[i] == Begin(ms, i)
    ensures forall i :: 0 <= i < |ms| ==> r.outs[i] == MemberOuts(ms, i) && r.bits[i] == MemberBits(ms, i)
  {
    Plan(Text(ms),
         seq(|ms| + 1, i requires 0 <= i <= |ms| => Begin(ms, i)),
         seq(|ms|, i requires 0 <= i < |ms| => MemberBits(ms, i)),
         seq(|ms|, i requires 0 <= i < |ms| => MemberOuts(ms, i)))
  }

  function MemberOuts(ms: seq<Member>, i: nat): (r: seq<nat>)
    requires i < |ms|
    ensures |r| == |ms[i].blocks| + 1
    ensures forall j :: 0 <= j < |r| ==> r[j] == OutOf(ms, i, j)
  {
    seq(|ms[i].blocks| + 1, j requires 0 <= j <= |ms[i].blocks| => OutOf(ms, i, j))
  }

  function MemberBits(ms: seq<Member>, i: nat): (r: seq<nat>)
    requires i < |ms|
    ensures |r| == |ms[i].blocks| + 1
    ensures forall j :: 0 <= j < |r| ==> r[j] == BitOf(ms, i, j)
  {
    seq(|ms[i].blocks| + 1, j requires 0 <= j <= |ms[i].blocks| => BitOf(ms, i, j))
  }

  ghost predicate AllSound(ms: seq<Member>) {
    forall i :: 0 <= i < |ms| ==> Sound(ms[i])
  }

  // ----- the plan is valid

  lemma {:induction false} ProducedNone(m: Member)
    ensures Produced(m, 0) == 0 && Width(m.blocks[..0]) == 0
  {
    assert m.blocks[..0] == [];
  }

  lemma {:induction false} OutsOrder(ms: seq<Member>, i: nat)
    requires i < |ms| && Sound(ms[i])
    ensures var r := MemberOuts(ms, i);
            && |r| >= 2 && r[0] == Base(ms, i) && r[|r| - 1] == Base(ms, i + 1)
            && forall j, k :: 0 <= j <= k < |r| ==> r[j] <= r[k]
  {
    var r := MemberOuts(ms, i);
    var n := |ms[i].blocks|;
    ProducedNone(ms[i]);
    BoundaryOrder(ms[i], n, n);
    forall j, k | 0 <= j <= k < |r|
      ensures r[j] <= r[k]
    {
      BoundaryOrder(ms[i], j, k);
    }
  }

  lemma {:induction false} BitsOrder(ms: seq<Member>, i: nat)
    requires i < |ms| && Sound(ms[i])
    ensures var r := MemberBits(ms, i);
            && 8 * Begin(ms, i) <= r[0] && BytesFor(r[|r| - 1]) < Begin(ms, i + 1)
            && forall j, k :: 0 <= j <= k < |r| ==> r[j] <= r[k]
  {
    var r := MemberBits(ms, i);
    var n := |ms[i].blocks|;
    ProducedNone(ms[i]);
    LastBit(ms, i);
    forall j, k | 0 <= j <= k < |r|
      ensures r[j] <= r[k]
    {
      BoundaryOrder(ms[i], j, k);
    }
  }

  lemma {:induction false} PlanValid(ms: seq<Member>)
    requires AllSound(ms)
    ensures MembersPlan(ms).Valid()
    ensures forall i :: 0 <= i <= |ms| ==> MembersPlan(ms).Base(i) == Base(ms, i)
  {
    hide Sound, Begin;
    var p := MembersPlan(ms);
    forall i | 0 <= i <= |ms|
      ensures p.Base(i) == Base(ms, i)
    {
      if i < |ms| {
        assert Sound(ms[i]);
        OutsOrder(ms, i);
      }
    }
    forall i | 0 <= i < |ms|
      ensures p.Marking().MemberValid(i)
    {
      assert Sound(ms[i]);
      MemberMarksOk(ms, p, i);
    }
    forall i | 0 <= i < |ms|
      ensures p.MemberOk(i)
    {
      assert Sound(ms[i]);
      MemberPlanOk(ms, p, i);
    }
  }

  lemma {:induction false} MemberMarksOk(ms: seq<Member>, p: Plan, i: nat)
    requires p == MembersPlan(ms) && i < |ms| && Sound(ms[i])
    requires forall k :: 0 <= k <= |ms| ==> p.Base(k) == Base(ms, k)
    ensures p.Marking().MemberValid(i)
  {
    hide Sound, Base, Begin;
    OutsOrder(ms, i);
    assert p.Base(i + 1) == Base(ms, i + 1);
  }

  lemma {:induction false} MemberPlanOk(ms: seq<Member>, p: Plan, i: nat)
    requires p == MembersPlan(ms) && i < |ms| && Sound(ms[i])
    ensures p.MemberOk(i)
  {
    hide Fits, Begin, Base;
    BitsOrder(ms, i);
  }

  lemma {:induction false} FileSound(c: Codec, s: seq<byte>)
    ensures AllSound(ParseFile(c, s))
  {
    var ms := ParseFile(c, s);
    forall i | 0 <= i < |ms|
      ensures Sound(ms[i])
    {
      BlocksOf(c, s, ms, i);
    }
  }

  /** Every plan is valid, starts at the file's first byte and stays within the file; when the file is
      rejected, it does not reach the end. */
  lemma {:induction false} PlanOfValid(c: Codec, s: seq<byte>)
    ensures var p := PlanOf(c, s);
            && p.Valid() && p.begins[0] == 0 && p.Base(0) == 0
            && p.begins[|p.outs|] <= |s|
            && (!Clean(c, s) ==> p.begins[|p.outs|] < |s|)
  {
    FileSound(c, s);
    PlanValid(ParseFile(c, s));
  }

  // ----- random access

  /** Random access in terms of the plan: raw decoding from a checkpoint boundary of member i, primed
      with a window that recalls the member's text before it, yields the text up to the member's end,
      and needs no byte of the trailer. */
  lemma {:induction false} Resume(c: Codec, s: seq<byte>, p: Plan, i: nat, j: nat, window: seq<byte>) returns (width: nat)
    requires PlanOf(c, s) == p
    requires p.Valid() && i < |p.outs| && j + 1 < |p.outs[i]|
    requires p.Base(i) <= p.outs[i][j] <= |p.text|
    requires Recalls(window, p.text[p.Base(i)..p.outs[i][j]])
    ensures p.outs[i][j] <= p.Base(i + 1) <= |p.text| && p.bits[i][j] <= 8 * |s|
    ensures RawDecode(c, Bits(s)[p.bits[i][j]..], window) == Some(Raw(p.text[p.outs[i][j]..p.Base(i + 1)], width))
    ensures BytesFor(p.bits[i][j] + width) < p.begins[i + 1] <= |s|
  {
    var ms := ParseFile(c, s);
    FileSound(c, s);
    PlanValid(ms);
    width := RandomAccess(c, s, ms, i, j, window);
  }

  // ----- spacing

  /** Every block of every member yields at most `most` bytes: what the spacing of checkpoints depends on. */
  lemma {:induction false} BlocksYield(ms: seq<Member>, most: nat)
    requires forall i, j :: 0 <= i < |ms| && 0 <= j < |ms[i].blocks| ==> OutLength(ms[i].blocks[j].tokens) <= most
    ensures MembersPlan(ms).Marking().BlocksWithin(most)
  {
    var outs := MembersPlan(ms).outs;
    forall i, j | 0 <= i < |outs| && 0 <= j && j + 1 < |outs[i]|
      ensures outs[i][j + 1] - outs[i][j] <= most
    {
      assert outs[i] == MemberOuts(ms, i);
      ProducedNext(ms[i], j);
    }
  }

  // ----- when checkpoints are distinct

  /** A member's final block moves the text on exactly when it holds a token that yields something. */
  lemma {:induction false} FinalBlock(ms: seq<Member>, i: nat)
    requires i < |ms| && Sound(ms[i])
    ensures MembersPlan(ms).Marking().EndsNonEmpty(i) <==> OutLength(ms[i].blocks[|ms[i].blocks| - 1].tokens) > 0
  {
    var n, r := |ms[i].blocks|, MemberOuts(ms, i);
    ProducedNext(ms[i], n - 1);
    assert r[n] - r[n - 1] == OutLength(ms[i].blocks[n - 1].tokens);
    assert MembersPlan(ms).Marking().outs[i] == r;
  }
}
