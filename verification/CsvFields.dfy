/** What csv_read_one_field reads from any input (ext/sqlite/shell.c:2146-2206), in terms of the input alone. */
module CsvFields {
  import opened Prelude
  import opened Csv

  /** How many quotes stand at the end. */
  function Trailing(y: seq<byte>): nat {
    if y != [] && y[|y| - 1] == QUOTE then 1 + Trailing(y[..|y| - 1]) else 0
  }

  /** Every second quote of each run of quotes left out. */
  function Collapsed(y: seq<byte>): seq<byte> {
    if y == [] then []
    else
      var init, c := y[..|y| - 1], y[|y| - 1];
      if c == QUOTE && Trailing(init) % 2 == 1 then Collapsed(init) else Collapsed(init) + [c]
  }

  /** The text ends behind a quote that is not paired with the one before. */
  predicate Unpaired(y: seq<byte>) {
    Trailing(y) % 2 == 1
  }

  /** Behind an unpaired quote: a separator, the end of a row, or the end of the input. */
  predicate EndsAt(s: seq<byte>, from: nat, e: nat, cSep: int, rSep: int)
    requires from <= e <= |s|
  {
    var y := s[from..e];
    || ((Get(s, e) == cSep || Get(s, e) == rSep || Get(s, e) == EOF) && Unpaired(y))
    || (Get(s, e) == rSep && y != [] && y[|y| - 1] == RETURN && Unpaired(y[..|y| - 1]))
  }

  ghost predicate NoneBefore(s: seq<byte>, from: nat, e: nat, cSep: int, rSep: int)
    requires from <= e <= |s|
  {
    forall k :: from <= k < e ==> !EndsAt(s, from, k, cSep, rSep)
  }

  /** What the loop knows about the last two characters. */
  ghost predicate Knows(y: seq<byte>, pc: int, ppc: int) {
    && Consistent(Collapsed(y), pc, ppc)
    && (pc == DOUBLE_QUOTE <==> Unpaired(y))
    && (pc == CARRIAGE_RETURN && ppc == DOUBLE_QUOTE <==> y != [] && y[|y| - 1] == RETURN && Unpaired(y[..|y| - 1]))
  }

  lemma {:induction false} KnowsMore(y: seq<byte>, c: byte, pc: int, ppc: int)
    requires Knows(y, pc, ppc)
    ensures c == QUOTE && pc == DOUBLE_QUOTE ==> Collapsed(y + [c]) == Collapsed(y) && Knows(y + [c], 0, ppc)
    ensures !(c == QUOTE && pc == DOUBLE_QUOTE) ==> Collapsed(y + [c]) == Collapsed(y) + [c] && Knows(y + [c], c, pc)
  {
    assert (y + [c])[..|y|] == y;
  }

  lemma {:induction false} ClosesWhenEnds(s: seq<byte>, from: nat, e: nat, cSep: int, rSep: int, pc: int, ppc: int)
    requires from <= e <= |s| && Knows(s[from..e], pc, ppc)
    ensures Closes(Get(s, e), pc, ppc, cSep, rSep) <==> EndsAt(s, from, e, cSep, rSep)
  {
  }

  /** The loop up to a place before which the field has not ended. */
  lemma {:induction false} Collects(s: seq<byte>, from: nat, e: nat, cSep: int, rSep: int) returns (pc: int, ppc: int)
    requires cSep != DOUBLE_QUOTE && rSep != DOUBLE_QUOTE && from <= e <= |s| && NoneBefore(s, from, e, cSep, rSep)
    ensures Knows(s[from..e], pc, ppc)
    ensures Quoted(s, from, cSep, rSep, [], 0, 0) == Quoted(s, e, cSep, rSep, Collapsed(s[from..e]), pc, ppc)
    decreases e
  {
    hide Quoted, EndsAt, Closes;
    if e == from {
      assert s[from..e] == [];
      pc, ppc := 0, 0;
    } else {
      pc, ppc := Collects(s, from, e - 1, cSep, rSep);
      pc, ppc := CollectsOne(s, from, e - 1, cSep, rSep, pc, ppc);
    }
  }

  lemma {:induction false} CollectsOne(s: seq<byte>, from: nat, e: nat, cSep: int, rSep: int, pc: int, ppc: int) returns (pc': int, ppc': int)
    requires cSep != DOUBLE_QUOTE && rSep != DOUBLE_QUOTE && from <= e < |s| && !EndsAt(s, from, e, cSep, rSep)
    requires Knows(s[from..e], pc, ppc)
    ensures Knows(s[from..e + 1], pc', ppc')
    ensures Quoted(s, e, cSep, rSep, Collapsed(s[from..e]), pc, ppc) == Quoted(s, e + 1, cSep, rSep, Collapsed(s[from..e + 1]), pc', ppc')
  {
    hide Collapsed, Knows, EndsAt, Closes;
    var y, c := s[from..e], s[e];
    assert s[from..e + 1] == y + [c];
    KnowsMore(y, c, pc, ppc);
    ClosesWhenEnds(s, from, e, cSep, rSep, pc, ppc);
    assert Consistent(Collapsed(y), pc, ppc) by {
      KnowsConsistent(y, pc, ppc);
    }
    if c == QUOTE && pc == DOUBLE_QUOTE {
      pc', ppc' := 0, ppc;
    } else {
      pc', ppc' := c, pc;
    }
    KnowsConsistent(y + [c], pc', ppc');
    QuotedStep(s, e, cSep, rSep, Collapsed(y), pc, ppc);
  }

  lemma {:induction false} KnowsConsistent(y: seq<byte>, pc: int, ppc: int)
    requires Knows(y, pc, ppc)
    ensures Consistent(Collapsed(y), pc, ppc)
  {
  }

  /** A quoted field, behind its first quote: it ends at the first place that ends one, and its value is what comes
      before the unpaired quote, with every second quote of a run left out. */
  lemma {:induction false} QuotedIs(s: seq<byte>, from: nat, e: nat, cSep: int, rSep: int)
    requires cSep != DOUBLE_QUOTE && rSep != DOUBLE_QUOTE
    requires from <= e <= |s| && NoneBefore(s, from, e, cSep, rSep) && EndsAt(s, from, e, cSep, rSep)
    ensures from < e && (s[e - 1] == QUOTE || (from < e - 1 && s[e - 1] == RETURN && s[e - 2] == QUOTE))
    ensures Quoted(s, from, cSep, rSep, [], 0, 0)
         == FieldRead(Collapsed(s[from..if s[e - 1] == QUOTE then e - 1 else e - 2]), Get(s, e), if e < |s| then e + 1 else e)
  {
    hide Collapsed, Knows, NoneBefore, Closes, Quoted, EndsAt;
    var pc, ppc := Collects(s, from, e, cSep, rSep);
    var y := s[from..e];
    KnowsConsistent(y, pc, ppc);
    ClosesWhenEnds(s, from, e, cSep, rSep, pc, ppc);
    QuotedStep(s, e, cSep, rSep, Collapsed(y), pc, ppc);
    NotPaired(s, from, e, cSep, rSep);
    Value(y);
    CutBack(s, from, e);
  }

  lemma {:induction false} CutBack(s: seq<byte>, from: nat, e: nat)
    requires from < e <= |s|
    ensures s[from..e][..e - from - 1] == s[from..e - 1]
    ensures from < e - 1 ==> s[from..e][..e - from - 2] == s[from..e - 2]
  {
  }

  /** Behind an unpaired quote, perhaps with a carriage return between. */
  predicate Closed(y: seq<byte>) {
    Unpaired(y) || (y != [] && y[|y| - 1] == RETURN && Unpaired(y[..|y| - 1]))
  }

  lemma {:induction false} Value(y: seq<byte>)
    requires Closed(y)
    ensures y != [] && (y[|y| - 1] == QUOTE || (|y| > 1 && y[|y| - 1] == RETURN && y[|y| - 2] == QUOTE))
    ensures QUOTE in Collapsed(y)
    ensures UpToQuote(Collapsed(y)) == Collapsed(y[..if y[|y| - 1] == QUOTE then |y| - 1 else |y| - 2])
  {
    if Unpaired(y) {
      BeforeQuote(y);
    } else {
      var init := y[..|y| - 1];
      BeforeQuote(init);
      AfterQuote(y);
      assert init[..|init| - 1] == y[..|y| - 2];
    }
  }

  lemma {:induction false} NotPaired(s: seq<byte>, from: nat, e: nat, cSep: int, rSep: int)
    requires cSep != DOUBLE_QUOTE && rSep != DOUBLE_QUOTE && from <= e <= |s| && EndsAt(s, from, e, cSep, rSep)
    ensures Get(s, e) != DOUBLE_QUOTE && from < e && Closed(s[from..e])
  {
  }

  lemma {:induction false} BeforeQuote(y: seq<byte>)
    requires Unpaired(y)
    ensures y != [] && y[|y| - 1] == QUOTE && Collapsed(y) == Collapsed(y[..|y| - 1]) + [QUOTE]
    ensures UpToQuote(Collapsed(y)) == Collapsed(y[..|y| - 1])
  {
  }

  lemma {:induction false} AfterQuote(y: seq<byte>)
    requires y != [] && y[|y| - 1] == RETURN && Unpaired(y[..|y| - 1])
    ensures QUOTE in Collapsed(y) && UpToQuote(Collapsed(y)) == UpToQuote(Collapsed(y[..|y| - 1]))
  {
    BeforeQuote(y[..|y| - 1]);
    var z := Collapsed(y[..|y| - 1]);
    assert Collapsed(y) == z + [RETURN] && (z + [RETURN])[..|z|] == z;
  }

  /** A quoted field that never ends takes all that is left. */
  lemma {:induction false} UnterminatedIs(s: seq<byte>, from: nat, cSep: int, rSep: int)
    requires cSep != DOUBLE_QUOTE && rSep != DOUBLE_QUOTE && from <= |s|
    requires NoneBefore(s, from, |s|, cSep, rSep) && !EndsAt(s, from, |s|, cSep, rSep)
    ensures Quoted(s, from, cSep, rSep, [], 0, 0) == FieldRead(Collapsed(s[from..]), EOF, |s|)
  {
    var pc, ppc := Collects(s, from, |s|, cSep, rSep);
    ClosesWhenEnds(s, from, |s|, cSep, rSep, pc, ppc);
    assert s[from..|s|] == s[from..];
  }

  /** The character does not end an unquoted field. */
  ghost predicate Runs(s: seq<byte>, from: nat, e: nat, cSep: int, rSep: int) {
    from <= e <= |s| && forall k :: from <= k < e ==> s[k] as int != cSep && s[k] as int != rSep
  }

  /** An unquoted field ends at the first separator, row end or the end of the input; a carriage return before the
      end of a row does not belong to it. */
  lemma {:induction false} UnquotedIs(s: seq<byte>, from: nat, e: nat, cSep: int, rSep: int)
    requires Runs(s, from, e, cSep, rSep) && (Get(s, e) == cSep || Get(s, e) == rSep || e == |s|)
    ensures var end := if Get(s, e) == rSep && from < e && s[e - 1] == RETURN then e - 1 else e;
            Unquoted(s, from, cSep, rSep, []) == FieldRead(s[from..end], Get(s, e), if e < |s| then e + 1 else e)
  {
    UnquotedCollects(s, from, e, cSep, rSep);
  }

  lemma {:induction false} UnquotedCollects(s: seq<byte>, from: nat, e: nat, cSep: int, rSep: int)
    requires Runs(s, from, e, cSep, rSep)
    ensures Unquoted(s, from, cSep, rSep, []) == Unquoted(s, e, cSep, rSep, s[from..e])
    decreases e
  {
    if from < e {
      UnquotedCollects(s, from, e - 1, cSep, rSep);
      assert s[from..e] == s[from..e - 1] + [s[e - 1]];
    } else {
      assert s[from..e] == [];
    }
  }

  /** The line counter counts the bytes that end a row. */
  lemma {:induction false} LineEndsCounted(s: seq<byte>, a: nat, b: nat, rSep: byte)
    requires a <= b <= |s|
    ensures LineEnds(s, a, b, rSep) == multiset(s[a..b])[rSep]
  {
    if a < b {
      LineEndsCounted(s, a, b - 1, rSep);
      assert s[a..b] == s[a..b - 1] + [s[b - 1]];
    } else {
      assert s[a..b] == [];
    }
  }
}
