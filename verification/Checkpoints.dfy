/** Which block boundaries become checkpoints (src/Index.cpp:591-618), and how they divide the text. */
module Checkpoints {

  /** The text offsets of the boundaries of each member: boundary 0 follows the header, boundary j
      follows block j - 1, so that a member with n blocks has n + 1 of them. */
  datatype Shape = Shape(outs: seq<seq<nat>>, total: nat) {

    /** Offsets never decrease, and each member starts where the one before ended. */
    ghost predicate Valid() {
      && (forall i :: 0 <= i < |outs| ==> MemberValid(i))
      && Base(0) == 0
    }

    ghost predicate MemberValid(i: nat)
      requires i < |outs|
    {
      && |outs[i]| >= 2
      && (forall j, k :: 0 <= j <= k < |outs[i]| ==> outs[i][j] <= outs[i][k])
      && outs[i][|outs[i]| - 1] == Base(i + 1)
    }

    /** Where member i starts. */
    function Base(i: nat): nat
      requires i <= |outs|
    {
      if i < |outs| && outs[i] != [] then outs[i][0] else total
    }

    /** A boundary before a block, where decoding can resume. */
    predicate IsMark(k: Mark) {
      k.member < |outs| && k.block + 1 < |outs[k.member]|
    }

    predicate AreMarks(ks: seq<Mark>) {
      forall k :: 0 <= k < |ks| ==> IsMark(ks[k])
    }

    function Out(k: Mark): nat
      requires IsMark(k)
    {
      outs[k.member][k.block]
    }

    function Last(marks: seq<Mark>): nat
      requires AreMarks(marks)
    {
      if marks == [] then 0 else Out(marks[|marks| - 1])
    }

    /** A place in the run of the inflater: `stage` stops of member i have been passed, out of the one
        after the header, one after each block and one at the end. */
    predicate Place(i: nat, stage: nat) {
      i <= |outs| && (if i == |outs| then stage == 0 else stage <= |outs[i]| + 1)
    }

    /** How much text has been produced when a place is reached. */
    function Reached(i: nat, stage: nat): nat
      requires Place(i, stage)
    {
      if stage == 0 then Base(i)
      else if stage <= |outs[i]| then outs[i][stage - 1]
      else Base(i + 1)
    }

    /** The decision at boundary `block` of member i. */
    predicate Needed(every: nat, i: nat, block: nat, before: seq<Mark>)
      requires i < |outs| && block < |outs[i]| && AreMarks(before)
    {
      block + 1 < |outs[i]| && (block == 0 || outs[i][block] - Last(before) > every)
    }

    function Record(before: seq<Mark>, k: Mark): (r: seq<Mark>)
      requires IsMark(k) && AreMarks(before)
      ensures AreMarks(r)
    {
      if Out(k) == 0 then [k] else before + [k]
    }

    /** The list after stop `stage` of member i has been passed too. */
    function Pass(every: nat, i: nat, stage: nat, before: seq<Mark>): (r: seq<Mark>)
      requires i < |outs| && stage <= |outs[i]| && AreMarks(before)
      ensures AreMarks(r)
    {
      if stage < |outs[i]| && Needed(every, i, stage, before) then Record(before, Mark(i, stage)) else before
    }

    /** The checkpoints created up to a place: one after each header, and one at every later boundary,
        except that after a final block, that lies more than `every` bytes after the last. A checkpoint
        at text offset 0 replaces the one before. */
    function Marks(every: nat, i: nat, stage: nat): (r: seq<Mark>)
      requires Place(i, stage)
      ensures AreMarks(r)
      decreases i, stage
    {
      if stage == 0 then
        if i == 0 then [] else Marks(every, i - 1, |outs[i - 1]| + 1)
      else
        Pass(every, i, stage - 1, Marks(every, i, stage - 1))
    }

    /** The checkpoints of the whole file. */
    function FileMarks(every: nat): (r: seq<Mark>)
      ensures AreMarks(r)
    {
      Marks(every, |outs|, 0)
    }

    /** No two checkpoints share a text offset, which is their primary key. */
    ghost predicate Distinct(marks: seq<Mark>)
      requires AreMarks(marks)
    {
      forall j, k :: 0 <= j < k < |marks| ==> Out(marks[j]) < Out(marks[k])
    }

    // ----- the shape of the list

    /** What one checkpoint says about the next: a later boundary of the same member, more than `every`
        bytes on, or the first boundary of the next member. */
    ghost predicate Follows(every: nat, a: Mark, b: Mark)
      requires IsMark(a) && IsMark(b)
    {
      || (a.member == b.member && a.block < b.block && Out(a) + every < Out(b))
      || (a.member + 1 == b.member && b.block == 0)
    }

    ghost predicate Chain(every: nat, marks: seq<Mark>) {
      && AreMarks(marks)
      && (marks != [] ==> Out(marks[0]) == 0)
      && (forall k :: 0 < k < |marks| ==> Linked(every, marks, k))
    }

    ghost predicate Linked(every: nat, marks: seq<Mark>, k: nat)
      requires AreMarks(marks) && 0 < k < |marks|
    {
      Follows(every, marks[k - 1], marks[k]) && Out(marks[k]) > 0
    }

    /** The last checkpoint belongs to the current member, or to the one before while the header is not
        complete, and lies before the current boundary. */
    ghost predicate Current(i: nat, stage: nat, marks: seq<Mark>) {
      if i == 0 && stage == 0 then marks == []
      else
        && marks != []
        && var k := marks[|marks| - 1];
           if stage == 0 then k.member == i - 1 else k.member == i && k.block < stage
    }

    lemma {:induction false} MarksShape(every: nat, i: nat, stage: nat)
      requires Valid() && Place(i, stage)
      ensures Chain(every, Marks(every, i, stage))
      ensures Current(i, stage, Marks(every, i, stage))
      decreases i, stage
    {
      if stage == 0 {
        if i > 0 {
          MarksShape(every, i - 1, |outs[i - 1]| + 1);
        }
      } else {
        MarksShape(every, i, stage - 1);
        PassShape(every, i, stage - 1, Marks(every, i, stage - 1));
      }
    }

    lemma {:induction false} PassShape(every: nat, i: nat, stage: nat, before: seq<Mark>)
      requires Valid() && i < |outs| && stage <= |outs[i]|
      requires Chain(every, before) && Current(i, stage, before)
      ensures Chain(every, Pass(every, i, stage, before))
      ensures Current(i, stage + 1, Pass(every, i, stage, before))
    {
      assert MemberValid(i);
      var after := Pass(every, i, stage, before);
      if |after| > |before| > 0 {
        forall k | 0 < k < |after|
          ensures Linked(every, after, k)
        {
          if k < |before| {
            assert Linked(every, before, k);
          }
        }
      }
    }

    lemma {:induction false} Within(k: Mark)
      requires Valid() && IsMark(k)
      ensures Base(k.member) <= Out(k) <= Base(k.member + 1)
      ensures k.block == 0 ==> Out(k) == Base(k.member)
    {
      assert MemberValid(k.member);
    }

    lemma {:induction false} LastBounds(every: nat, marks: seq<Mark>)
      requires Valid() && Chain(every, marks)
      ensures marks != [] ==> Last(marks) <= total
      ensures |marks| > 1 ==> 0 < Last(marks)
    {
      if marks != [] {
        var k := marks[|marks| - 1];
        Within(k);
        BaseMonotone(k.member + 1, |outs|);
      }
      if |marks| > 1 {
        assert Linked(every, marks, |marks| - 1);
      }
    }

    lemma {:induction false} ChainMonotone(every: nat, marks: seq<Mark>, j: nat, k: nat)
      requires Valid() && Chain(every, marks) && j <= k < |marks|
      ensures Out(marks[j]) <= Out(marks[k])
      decreases k
    {
      if j < k {
        ChainMonotone(every, marks, j, k - 1);
        assert Linked(every, marks, k);
        Within(marks[k - 1]);
        Within(marks[k]);
      }
    }

    lemma {:induction false} BaseMonotone(i: nat, k: nat)
      requires Valid() && i <= k <= |outs|
      ensures Base(i) <= Base(k)
      decreases k
    {
      if i < k {
        BaseMonotone(i, k - 1);
        assert MemberValid(k - 1);
      }
    }

    // ----- tiling

    /** The text range of checkpoint k: from its offset up to the next one's, or to the end. */
    function RangeEnd(marks: seq<Mark>, k: nat): nat
      requires k < |marks| && AreMarks(marks)
    {
      if k + 1 < |marks| then Out(marks[k + 1]) else total
    }

    ghost predicate InRange(marks: seq<Mark>, k: nat, offset: nat)
      requires k < |marks| && AreMarks(marks)
    {
      Out(marks[k]) <= offset < RangeEnd(marks, k)
    }

    /** Every text offset lies in exactly one range, and ranges follow each other without a gap. */
    lemma {:induction false} Tiles(every: nat, offset: nat) returns (k: nat)
      requires Valid() && offset < total
      ensures k < |FileMarks(every)| && InRange(FileMarks(every), k, offset)
      ensures forall j :: 0 <= j < |FileMarks(every)| && InRange(FileMarks(every), j, offset) ==> j == k
    {
      var marks := FileMarks(every);
      MarksShape(every, |outs|, 0);
      k := 0;
      while k + 1 < |marks| && Out(marks[k + 1]) <= offset
        invariant k < |marks| && Out(marks[k]) <= offset
      {
        k := k + 1;
      }
      forall j | 0 <= j < |marks| && InRange(marks, j, offset)
        ensures j == k
      {
        if j < k {
          ChainMonotone(every, marks, j + 1, k);
        } else if k < j {
          ChainMonotone(every, marks, k + 1, j);
        }
      }
    }

    /** The range that holds an offset belongs to the member whose text holds it. */
    lemma {:induction false} RangeMember(every: nat, k: nat, offset: nat, i: nat)
      requires Valid() && k < |FileMarks(every)| && InRange(FileMarks(every), k, offset)
      requires i < |outs| && Base(i) <= offset < Base(i + 1)
      ensures FileMarks(every)[k].member == i
    {
      var m := RangeOf(every, k, offset);
      if m < i {
        BaseMonotone(m + 1, i);
      } else if i < m {
        BaseMonotone(i + 1, m);
      }
    }

    lemma {:induction false} RangeOf(every: nat, k: nat, offset: nat) returns (m: nat)
      requires Valid() && k < |FileMarks(every)| && InRange(FileMarks(every), k, offset)
      ensures m == FileMarks(every)[k].member && m < |outs| && Base(m) <= offset < Base(m + 1)
    {
      var marks := FileMarks(every);
      MarksShape(every, |outs|, 0);
      m := marks[k].member;
      Within(marks[k]);
      if k + 1 < |marks| {
        assert Linked(every, marks, k + 1);
        Within(marks[k + 1]);
      }
    }

    // ----- spacing

    /** Every block yields at most `most` bytes. */
    ghost predicate BlocksWithin(most: nat) {
      forall i, j :: 0 <= i < |outs| && 0 <= j && j + 1 < |outs[i]| ==> outs[i][j + 1] - outs[i][j] <= most
    }

    ghost predicate Near(every: nat, most: nat, marks: seq<Mark>, k: nat)
      requires AreMarks(marks) && 0 < k < |marks|
    {
      Out(marks[k]) - Out(marks[k - 1]) <= every + most
    }

    /** What spacing says at a place, given the list so far. */
    ghost predicate Spaced(every: nat, most: nat, i: nat, stage: nat, marks: seq<Mark>)
      requires Place(i, stage) && AreMarks(marks)
    {
      && (forall k :: 0 < k < |marks| ==> Near(every, most, marks, k))
      && Last(marks) <= Reached(i, stage) <= Last(marks) + every + most
      && (i < |outs| && 0 < stage < |outs[i]| ==> Reached(i, stage) <= Last(marks) + every)
    }

    lemma {:induction false} SpacingUpTo(every: nat, most: nat, i: nat, stage: nat)
      requires Valid() && BlocksWithin(most) && Place(i, stage)
      ensures Spaced(every, most, i, stage, Marks(every, i, stage))
      decreases i, stage
    {
      if stage == 0 {
        if i > 0 {
          SpacingUpTo(every, most, i - 1, |outs[i - 1]| + 1);
        }
      } else {
        SpacingUpTo(every, most, i, stage - 1);
        SpacingPass(every, most, i, stage - 1, Marks(every, i, stage - 1));
      }
    }

    lemma {:induction false} SpacingPass(every: nat, most: nat, i: nat, stage: nat, before: seq<Mark>)
      requires Valid() && BlocksWithin(most) && i < |outs| && stage <= |outs[i]|
      requires AreMarks(before) && Spaced(every, most, i, stage, before)
      ensures Spaced(every, most, i, stage + 1, Pass(every, i, stage, before))
    {
      assert MemberValid(i);
      if 0 < stage < |outs[i]| {
        assert outs[i][stage - 1 + 1] - outs[i][stage - 1] <= most;
      }
      var after := Pass(every, i, stage, before);
      if |after| > |before| > 0 {
        assert after == before + [Mark(i, stage)];
        NearMore(every, most, before, Mark(i, stage));
      }
    }

    lemma {:induction false} NearMore(every: nat, most: nat, before: seq<Mark>, k: Mark)
      requires AreMarks(before) && IsMark(k) && before != [] && Out(k) - Last(before) <= every + most
      requires forall k :: 0 < k < |before| ==> Near(every, most, before, k)
      ensures forall j :: 0 < j < |before + [k]| ==> Near(every, most, before + [k], j)
    {
      forall j | 0 < j < |before + [k]|
        ensures Near(every, most, before + [k], j)
      {
        if j < |before| {
          assert Near(every, most, before, j);
        }
      }
    }

    /** Checkpoint spacing: no range is longer than `every` plus one block, and a range closed by another
        checkpoint of the same member is longer than `every`. */
    lemma {:induction false} Spacing(every: nat, most: nat, k: nat)
      requires Valid() && BlocksWithin(most) && k < |FileMarks(every)|
      ensures var marks := FileMarks(every);
              && RangeEnd(marks, k) - Out(marks[k]) <= every + most
              && (k + 1 < |marks| && marks[k + 1].member == marks[k].member
                  ==> RangeEnd(marks, k) - Out(marks[k]) > every)
    {
      var marks := FileMarks(every);
      SpacingUpTo(every, most, |outs|, 0);
      MarksShape(every, |outs|, 0);
      if k + 1 < |marks| {
        assert Linked(every, marks, k + 1) && Near(every, most, marks, k + 1);
      }
    }

    /** So the checkpoints j to k of one member lie in a text of at least (k - j) * (every + 1) bytes. */
    lemma {:induction false} Count(every: nat, j: nat, k: nat)
      requires Valid() && j <= k < |FileMarks(every)|
      requires FileMarks(every)[j].member == FileMarks(every)[k].member
      ensures var marks := FileMarks(every);
              var i := marks[k].member;
              (k - j) * (every + 1) <= Out(marks[k]) - Out(marks[j]) <= Base(i + 1) - Base(i)
      decreases k
    {
      var marks := FileMarks(every);
      MarksShape(every, |outs|, 0);
      Within(marks[j]);
      Within(marks[k]);
      if j < k {
        assert Linked(every, marks, k);
        MembersMonotone(every, marks, j, k - 1);
        Count(every, j, k - 1);
        assert (k - j) * (every + 1) == (k - 1 - j) * (every + 1) + (every + 1);
      }
    }

    lemma {:induction false} MembersMonotone(every: nat, marks: seq<Mark>, j: nat, k: nat)
      requires Chain(every, marks) && j <= k < |marks|
      ensures marks[j].member <= marks[k].member
      decreases k
    {
      if j < k {
        MembersMonotone(every, marks, j, k - 1);
        assert Linked(every, marks, k);
      }
    }

    // ----- growth

    /** A list that has passed text offset 0 only ever gets longer. */
    lemma {:induction false} MarksGrow(every: nat, i: nat, stage: nat, i': nat, stage': nat)
      requires Valid() && Place(i, stage) && Place(i', stage')
      requires i < i' || (i == i' && stage <= stage')
      requires |Marks(every, i, stage)| > 1
      ensures Marks(every, i, stage) <= Marks(every, i', stage')
      decreases i', stage'
    {
      if i == i' && stage == stage' {
      } else if stage' == 0 {
        MarksGrow(every, i, stage, i' - 1, |outs[i' - 1]| + 1);
      } else {
        MarksGrow(every, i, stage, i', stage' - 1);
        MarksShape(every, i', stage' - 1);
        PassGrows(every, i', stage' - 1, Marks(every, i', stage' - 1));
      }
    }

    lemma {:induction false} PassGrows(every: nat, i: nat, stage: nat, before: seq<Mark>)
      requires Valid() && i < |outs| && stage <= |outs[i]|
      requires Chain(every, before) && |before| > 1 && Current(i, stage, before)
      ensures before <= Pass(every, i, stage, before)
    {
      assert Linked(every, before, |before| - 1);
      Within(before[|before| - 1]);
      assert MemberValid(i);
      if stage == 0 {
        assert MemberValid(i - 1);
      }
    }

    /** The boundary of member i, among its first n, where decoding the member alone would place its last
        checkpoint: the first, or each that lies more than `every` bytes behind the one before, but not the end. */
    function LastIn(every: nat, i: nat, n: nat): (j: nat)
      requires i < |outs| && 1 <= n <= |outs[i]| && |outs[i]| >= 2
      ensures j < n && j + 1 < |outs[i]|
    {
      if n == 1 then 0
      else
        var before := LastIn(every, i, n - 1);
        if n < |outs[i]| && outs[i][n - 1] as int - outs[i][before] > every then n - 1 else before
    }

    /** Text precedes the end of member i, and its last checkpoint lies there: only empty blocks follow it. */
    ghost predicate EndsOnMark(every: nat, i: nat)
      requires i + 1 < |outs|
    {
      MemberValid(i) && 0 < Base(i + 1) == outs[i][LastIn(every, i, |outs[i]|)]
    }

    /** The last checkpoint depends on the member's own boundaries only. */
    lemma {:induction false} LastMark(every: nat, i: nat, stage: nat)
      requires i < |outs| && |outs[i]| >= 2 && 1 <= stage <= |outs[i]| + 1
      ensures var marks := Marks(every, i, stage);
              marks != [] && marks[|marks| - 1] == Mark(i, LastIn(every, i, if stage <= |outs[i]| then stage else |outs[i]|))
    {
      hide Marks;
      MarksNext(every, i, stage - 1);
      if stage > 1 {
        LastMark(every, i, stage - 1);
      }
    }

    /** The first checkpoint of a member clashes, if any of its checkpoints does. */
    lemma {:induction false} DistinctPass(every: nat, i: nat, stage: nat, before: seq<Mark>)
      requires Valid() && i < |outs| && MemberValid(i) && stage <= |outs[i]|
      requires Chain(every, before) && Current(i, stage, before)
      ensures Distinct(Pass(every, i, stage, before)) <==>
                Distinct(before) && (stage == 0 && before != [] && Base(i) > 0 ==> Last(before) < Base(i))
    {
      assert AreMarks(before);
      hide Distinct, Chain, Marks;
      if stage < |outs[i]| && Needed(every, i, stage, before) {
        if before != [] {
          Within(before[|before| - 1]);
        }
        DistinctRecord(every, before, Mark(i, stage));
      }
    }

    lemma {:induction false} DistinctRecord(every: nat, before: seq<Mark>, k: Mark)
      requires Valid() && Chain(every, before) && IsMark(k) && Last(before) <= Out(k)
      ensures Distinct(Record(before, k)) <==> Distinct(before) && (before != [] && Out(k) > 0 ==> Last(before) < Out(k))
    {
      if Out(k) == 0 {
        if |before| > 1 {
          LastBounds(every, before);
        }
      } else if before != [] {
        var n := |before| - 1;
        forall j | 0 <= j <= n
          ensures Out(before[j]) <= Last(before)
        {
          ChainMonotone(every, before, j, n);
        }
        var all := before + [k];
        assert all[n] == before[n] && all[n + 1] == k;
        if Distinct(all) {
          forall i, j | 0 <= i < j < |before|
            ensures Out(before[i]) < Out(before[j])
          {
            assert Out(all[i]) < Out(all[j]);
          }
        }
      }
    }

    /** The list at the next stop of a member. */
    lemma {:induction false} MarksNext(every: nat, i: nat, stage: nat)
      requires i < |outs| && stage <= |outs[i]|
      ensures Marks(every, i, stage + 1) == Pass(every, i, stage, Marks(every, i, stage))
    {
      hide Pass;
    }

    /** From the start of a member to its end, only its first checkpoint can clash. */
    lemma {:induction false} DistinctInMember(every: nat, i: nat, stage: nat)
      requires Valid() && i < |outs| && MemberValid(i) && 1 <= stage <= |outs[i]| + 1
      ensures Distinct(Marks(every, i, stage)) <==> Distinct(Marks(every, i, 1))
    {
      hide Distinct, Chain, Pass, Current, Valid, MemberValid, Marks, Base, IsMark, Last;
      if stage > 1 {
        DistinctInMember(every, i, stage - 1);
        MarksShape(every, i, stage - 1);
        MarksNext(every, i, stage - 1);
        DistinctPass(every, i, stage - 1, Marks(every, i, stage - 1));
      }
    }

    /** No member before the i-th ends on its last checkpoint and is followed by a member before the i-th. */
    ghost predicate Apart(every: nat, i: nat)
      requires i <= |outs|
    {
      forall k :: 0 <= k && k + 1 < i ==> !EndsOnMark(every, k)
    }

    lemma {:induction false} ApartMore(every: nat, i: nat)
      requires i < |outs|
      ensures Apart(every, i + 1) <==> Apart(every, i) && (i > 0 ==> !EndsOnMark(every, i - 1))
    {
      hide EndsOnMark;
    }

    lemma {:induction false} NoneDistinct(every: nat)
      ensures Distinct(Marks(every, 0, 0)) && Apart(every, 0)
    {
    }

    lemma {:induction false} DistinctUpTo(every: nat, i: nat)
      requires Valid() && i <= |outs|
      ensures Distinct(Marks(every, i, 0)) <==> Apart(every, i)
    {
      hide Distinct, EndsOnMark, Apart, IsMark;
      if i == 0 {
        NoneDistinct(every);
      } else {
        assert MemberValid(i - 1);
        hide MemberValid, Base, Valid;
        DistinctUpTo(every, i - 1);
        DistinctInMember(every, i - 1, |outs[i - 1]| + 1);
        DistinctHeader(every, i - 1);
        ApartMore(every, i - 1);
        assert Marks(every, i, 0) == Marks(every, i - 1, |outs[i - 1]| + 1);
      }
    }

    /** The first checkpoint of a member clashes exactly when the member before it ends on its last one. */
    lemma {:induction false} DistinctHeader(every: nat, i: nat)
      requires Valid() && i < |outs| && MemberValid(i)
      ensures Distinct(Marks(every, i, 1)) <==> Distinct(Marks(every, i, 0)) && (i > 0 ==> !EndsOnMark(every, i - 1))
    {
      hide Distinct, Pass, Chain;
      var before := Marks(every, i, 0);
      MarksShape(every, i, 0);
      DistinctPass(every, i, 0, before);
      MarksNext(every, i, 0);
      if i > 0 {
        assert MemberValid(i - 1);
        LastMark(every, i - 1, |outs[i - 1]| + 1);
        Within(before[|before| - 1]);
      }
    }

    /** When building succeeds: all checkpoints have offsets of their own exactly when no member that another one
        follows ends on its last checkpoint. */
    lemma {:induction false} DistinctWhen(every: nat)
      requires Valid()
      ensures Distinct(FileMarks(every)) <==> forall i :: 0 <= i && i + 1 < |outs| ==> !EndsOnMark(every, i)
    {
      DistinctUpTo(every, |outs|);
    }

    /** The final block of member i moves the text on. */
    ghost predicate EndsNonEmpty(i: nat)
      requires i < |outs|
    {
      |outs[i]| >= 2 && outs[i][|outs[i]| - 2] < outs[i][|outs[i]| - 1]
    }

    /** No clash when every member that is followed by another, and does not end before any text, ends
        in a non-empty block: in particular when empty members stand only at the very start or as the
        last one, and the others end in a non-empty block. */
    lemma {:induction false} NonEmptyEndings(every: nat)
      requires Valid()
      requires forall i :: 0 <= i < |outs| - 1 && Base(i + 1) > 0 ==> EndsNonEmpty(i)
      ensures Distinct(FileMarks(every))
    {
      DistinctWhen(every);
      forall i | 0 <= i && i + 1 < |outs|
        ensures !EndsOnMark(every, i)
      {
        assert MemberValid(i);
        if Base(i + 1) > 0 {
          assert EndsNonEmpty(i);
          assert outs[i][LastIn(every, i, |outs[i]|)] <= outs[i][|outs[i]| - 2];
        }
      }
    }
  }

  datatype Mark = Mark(member: nat, block: nat)
}
