/** A file of members reduced to what the rest of the program depends on: its text, and where every
    block boundary lies in the text and in the file's bits. */
module FilePlan {
  import opened Prelude
  import opened BitPacking
  import opened Checkpoints

  datatype Plan = Plan(
    text: seq<byte>,
    begins: seq<nat>,        // the first byte of each member, and where the last one ends
    bits: seq<seq<nat>>,     // the bit positions of each member's boundaries
    outs: seq<seq<nat>>)     // their text offsets
  {
    ghost predicate Valid() {
      && Marking().Valid()
      && |begins| == |outs| + 1 && |bits| == |outs|
      && forall i :: 0 <= i < |outs| ==> MemberOk(i)
    }

    ghost predicate MemberOk(i: nat)
      requires |begins| == |outs| + 1 && |bits| == |outs| && i < |outs|
    {
      var n := |outs[i]| - 1;
      && |bits[i]| == |outs[i]| >= 2
      && 8 * begins[i] <= bits[i][0]
      && (forall j, k :: 0 <= j <= k <= n ==> bits[i][j] <= bits[i][k])
      && BytesFor(bits[i][n]) < begins[i + 1]
    }

    function Marking(): Shape {
      Shape(outs, |text|)
    }

    /** Where the text of member i starts; its end is where that of member i + 1 starts. */
    function Base(i: nat): nat
      requires i <= |outs|
    {
      Marking().Base(i)
    }

    /** Where stage `stage` of member i ends, in bytes of the file: the header, a block, or the trailer. */
    function InEnd(i: nat, stage: nat): nat
      requires i < |outs| && |begins| == |outs| + 1 && |bits| == |outs|
    {
      if stage < |bits[i]| then BytesFor(bits[i][stage]) else begins[i + 1]
    }

    /** The same in bytes of text. */
    function OutEnd(i: nat, stage: nat): nat
      requires i < |outs|
    {
      if stage < |outs[i]| then outs[i][stage] else Base(i + 1)
    }

    lemma {:induction false} StageOrder(i: nat, stage: nat)
      requires Valid() && i < |outs| && stage < |outs[i]|
      ensures begins[i] <= InEnd(i, 0) <= InEnd(i, stage) <= InEnd(i, stage + 1) <= begins[i + 1]
      ensures InEnd(i, stage) < begins[i + 1]
      ensures Base(i) == OutEnd(i, 0) <= OutEnd(i, stage) <= OutEnd(i, stage + 1) <= Base(i + 1)
      ensures stage + 1 == |outs[i]| ==> OutEnd(i, stage) == Base(i + 1)
    {
      assert MemberOk(i) && Marking().MemberValid(i);
      var n := |outs[i]| - 1;
      assert bits[i][stage] <= bits[i][n];
      if stage < n {
        assert bits[i][stage] <= bits[i][stage + 1] <= bits[i][n];
      }
    }

    lemma {:induction false} BeginsGrow(i: nat, k: nat)
      requires Valid() && i <= k <= |outs|
      ensures begins[i] <= begins[k] && Base(i) <= Base(k) <= |text|
      ensures i < k ==> begins[i] < begins[k]
      decreases k
    {
      Marking().BaseMonotone(i, k);
      Marking().BaseMonotone(k, |outs|);
      if i < k {
        BeginsGrow(i, k - 1);
        assert MemberOk(k - 1);
        StageOrder(k - 1, 0);
      }
    }
  }
}
