/** What cutting a text at its newlines means. */
module TextLines {
  import opened Prelude

  /** The lines that a newline ends, without their newlines. */
  function Lines(s: seq<byte>): seq<seq<byte>> {
    if s == [] then []
    else
      var n := |s| - 1;
      if s[n] == NEWLINE then Lines(s[..n]) + [Tail(s[..n])] else Lines(s[..n])
  }

  /** What follows the last newline. */
  function Tail(s: seq<byte>): seq<byte> {
    if s == [] then []
    else
      var n := |s| - 1;
      if s[n] == NEWLINE then [] else Tail(s[..n]) + [s[n]]
  }

  /** All lines: a last line without a newline counts when it is not empty. */
  function AllLines(s: seq<byte>): seq<seq<byte>> {
    if Tail(s) == [] then Lines(s) else Lines(s) + [Tail(s)]
  }

  /** Every line followed by a newline. */
  function Join(ls: seq<seq<byte>>): seq<byte> {
    if ls == [] then [] else Join(ls[..|ls| - 1]) + ls[|ls| - 1] + [NEWLINE]
  }

  lemma {:induction false} CutAtNewline(s: seq<byte>)
    ensures Lines(s + [NEWLINE]) == Lines(s) + [Tail(s)]
    ensures Tail(s + [NEWLINE]) == []
  {
    assert (s + [NEWLINE])[..|s|] == s;
  }

  lemma {:induction false} NoCut(s: seq<byte>, more: seq<byte>)
    requires NEWLINE !in more
    ensures Lines(s + more) == Lines(s)
    ensures Tail(s + more) == Tail(s) + more
    decreases |more|
  {
    if more == [] {
      assert s + more == s;
    } else {
      var n := |more| - 1;
      NoCut(s, more[..n]);
      assert (s + more)[..|s| + n] == s + more[..n];
      assert more == more[..n] + [more[n]];
    }
  }

  lemma {:induction false} LinesGrow(s: seq<byte>, more: seq<byte>)
    ensures Lines(s) <= Lines(s + more)
    decreases |more|
  {
    if more == [] {
      assert s + more == s;
    } else {
      var n := |more| - 1;
      LinesGrow(s, more[..n]);
      assert (s + more)[..|s| + n] == s + more[..n];
    }
  }

  /** The cut is the only one there is: no piece holds a newline, and the pieces give back the text. */
  lemma {:induction false} Rejoin(s: seq<byte>)
    ensures Join(Lines(s)) + Tail(s) == s
    ensures NEWLINE !in Tail(s)
    ensures forall l :: l in Lines(s) ==> NEWLINE !in l
  {
    if s != [] {
      var n := |s| - 1;
      Rejoin(s[..n]);
      assert s == s[..n] + [s[n]];
      if s[n] == NEWLINE {
        var ls := Lines(s);
        assert ls[..|ls| - 1] == Lines(s[..n]);
      }
    }
  }
}
