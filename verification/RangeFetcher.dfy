/** src/RangeFetcher.cpp: context windows around requested lines, merged across calls. */
module RangeFetching {

  datatype Event = Line(number: nat) | Separator

  /** The context asked for: lines before and after each request. */
  datatype Context = Context(before: nat, after: nat) {

    function Begin(line: nat): (r: nat)
      ensures r >= 1
    {
      if line > before then line - before else 1
    }

    function End(line: nat): nat {
      line + after
    }

    /** Line k lies in the window around a request, cut off at the first line of the file. */
    predicate InWindow(k: nat, line: nat) {
      k >= 1 && line <= k + before && k <= line + after
    }

    /** What one request adds to the output, given the window before it. */
    function Added(prevBegin: nat, prevEnd: nat, line: nat): seq<Event> {
      if prevBegin <= Begin(line) <= prevEnd then Lines(prevEnd + 1, End(line))
      else if prevEnd != 0 && prevEnd + 1 != Begin(line) then [Separator] + Lines(Begin(line), End(line))
      else Lines(Begin(line), End(line))
    }

    /** The output for a sequence of requests. */
    function Output(requests: seq<nat>): seq<Event> {
      if requests == [] then []
      else
        var before := requests[..|requests| - 1];
        Output(before) + Added(PrevBegin(before), PrevEnd(before), requests[|requests| - 1])
    }

    function PrevBegin(requests: seq<nat>): nat {
      if requests == [] then 0 else Begin(requests[|requests| - 1])
    }

    function PrevEnd(requests: seq<nat>): nat {
      if requests == [] then 0 else End(requests[|requests| - 1])
    }

    /** Line k lies in the window of some request. */
    ghost predicate Wanted(requests: seq<nat>, k: nat) {
      exists i :: 0 <= i < |requests| && InWindow(k, requests[i])
    }

    lemma {:induction false} WantedMore(requests: seq<nat>, k: nat)
      requires requests != []
      ensures var n := |requests| - 1;
              Wanted(requests, k) <==> Wanted(requests[..n], k) || InWindow(k, requests[n])
    {
      var init := requests[..|requests| - 1];
      if i :| 0 <= i < |init| && InWindow(k, init[i]) {
        assert InWindow(k, requests[i]);
      }
      if i :| 0 <= i < |requests| && InWindow(k, requests[i]) {
        assert i < |init| ==> InWindow(k, init[i]);
      }
    }

    /** The lines printed are exactly those in the window of some request, whatever the order of requests. */
    lemma {:induction false} Union(requests: seq<nat>, k: nat)
      ensures Line(k) in Output(requests) <==> Wanted(requests, k)
    {
      hide Added, InWindow, Wanted, Lines, PrevBegin, PrevEnd;
      if requests == [] {
        NoneWanted(k);
      } else {
        var n := |requests| - 1;
        var init := requests[..n];
        Union(init, k);
        WantedMore(requests, k);
        AddedLines(PrevBegin(init), PrevEnd(init), requests[n], k);
        if InWindow(k, requests[n]) && Line(k) !in Added(PrevBegin(init), PrevEnd(init), requests[n]) {
          Before(init, k);
        }
      }
    }

    lemma {:induction false} NoneWanted(k: nat)
      ensures !Wanted([], k)
    {
    }

    /** The window of the last request has been printed. */
    lemma {:induction false} Before(requests: seq<nat>, k: nat)
      requires k >= 1 && PrevBegin(requests) <= k <= PrevEnd(requests)
      ensures Wanted(requests, k)
    {
      assert InWindow(k, requests[|requests| - 1]);
    }

    lemma {:induction false} AddedLines(prevBegin: nat, prevEnd: nat, line: nat, k: nat)
      ensures Line(k) in Added(prevBegin, prevEnd, line) ==> InWindow(k, line)
      ensures InWindow(k, line) && Line(k) !in Added(prevBegin, prevEnd, line) ==> 1 <= k && prevBegin <= k <= prevEnd
    {
      LinesHold(prevEnd + 1, End(line), k);
      LinesHold(Begin(line), End(line), k);
      assert Line(k) in [Separator] + Lines(Begin(line), End(line)) <==> Line(k) in Lines(Begin(line), End(line));
    }

    // ----- how often

    /** Request i prints line k: it lies in its window, but when that begins in the window before, not in that one. */
    predicate Prints(requests: seq<nat>, i: nat, k: nat)
      requires i < |requests|
    {
      && InWindow(k, requests[i])
      && !(i > 0 && InWindow(Begin(requests[i]), requests[i - 1]) && k <= requests[i - 1] + after)
    }

    /** The requests that print line k. */
    function Printing(requests: seq<nat>, k: nat): set<nat> {
      set i | 0 <= i < |requests| && Prints(requests, i, k)
    }

    /** Every line is printed once by each of these requests, whatever their order. */
    lemma {:induction false} HowOften(requests: seq<nat>, k: nat)
      ensures multiset(Output(requests))[Line(k)] == |Printing(requests, k)|
    {
      hide Added, Prints;
      if requests == [] {
        assert Printing(requests, k) == {};
      } else {
        var n := |requests| - 1;
        var init := requests[..n];
        HowOften(init, k);
        AddedOnce(requests, k);
        forall i | 0 <= i < n
          ensures Prints(requests, i, k) <==> Prints(init, i, k)
        {
          PrintsBefore(requests, i, k);
        }
        assert Printing(requests, k) == Printing(init, k) + if Prints(requests, n, k) then {n} else {};
      }
    }

    lemma {:induction false} PrintsBefore(requests: seq<nat>, i: nat, k: nat)
      requires i < |requests| - 1
      ensures Prints(requests, i, k) <==> Prints(requests[..|requests| - 1], i, k)
    {
    }

    lemma {:induction false} AddedOnce(requests: seq<nat>, k: nat)
      requires requests != []
      ensures var n := |requests| - 1;
              var more := Added(PrevBegin(requests[..n]), PrevEnd(requests[..n]), requests[n]);
              multiset(more)[Line(k)] == if Prints(requests, n, k) then 1 else 0
    {
      var n := |requests| - 1;
      LinesOnce(PrevEnd(requests[..n]) + 1, End(requests[n]), k);
      LinesOnce(Begin(requests[n]), End(requests[n]), k);
    }

    // ----- gaps

    /** The window of a request is not empty: only line 0 without lines after it asks for nothing. */
    predicate Asks(requests: seq<nat>) {
      forall i :: 0 <= i < |requests| ==> requests[i] + after >= 1
    }

    /** The window of q begins in that of p, or right behind it. */
    predicate Near(p: nat, q: nat) {
      Begin(p) <= Begin(q) <= End(p) + 1
    }

    /** The line printed last. */
    function LastPrinted(requests: seq<nat>): nat
      requires requests != []
    {
      var n := |requests| - 1;
      if n > 0 && Near(requests[n - 1], requests[n]) && End(requests[n]) <= End(requests[n - 1]) then LastPrinted(requests[..n])
      else End(requests[n])
    }

    /** Request i goes on where printing stopped, or begins elsewhere than right behind that. */
    predicate Fine(requests: seq<nat>, i: nat)
      requires 0 < i < |requests|
    {
      var p, q, last := requests[i - 1], requests[i], LastPrinted(requests[..i]);
      if Near(p, q) then End(q) > End(p) ==> End(p) == last else Begin(q) != last + 1
    }

    ghost predicate AllFine(requests: seq<nat>) {
      forall i :: 0 < i < |requests| ==> Fine(requests, i)
    }

    /** When separators stand exactly where printed lines are not consecutive, whatever the order of requests. */
    lemma {:induction false} SpacedWhen(requests: seq<nat>)
      requires Asks(requests)
      ensures WellSpaced(Output(requests)) <==> AllFine(requests)
      ensures requests != [] ==> Ends(Output(requests), LastPrinted(requests))
    {
      hide Added, Fine, WellSpaced, Ends, LastPrinted;
      if |requests| <= 1 {
        OneRequest(requests);
      } else {
        var n := |requests| - 1;
        var init := requests[..n];
        SpacedWhen(init);
        FineMore(requests);
        AddedSpaced(Output(init), LastPrinted(init), requests);
      }
    }

    lemma {:induction false} OneRequest(requests: seq<nat>)
      requires Asks(requests) && |requests| <= 1
      ensures WellSpaced(Output(requests))
      ensures requests != [] ==> Ends(Output(requests), LastPrinted(requests))
    {
      if requests != [] {
        assert Output(requests[..0]) == [];
        assert Output(requests) == Lines(Begin(requests[0]), End(requests[0]));
      }
    }

    lemma {:induction false} FineMore(requests: seq<nat>)
      requires |requests| > 1
      ensures AllFine(requests) <==> AllFine(requests[..|requests| - 1]) && Fine(requests, |requests| - 1)
    {
      var init := requests[..|requests| - 1];
      forall i | 0 < i < |init|
        ensures Fine(requests, i) <==> Fine(init, i)
      {
        assert requests[..i] == init[..i];
      }
    }

    lemma {:induction false} AddedSpaced(events: seq<Event>, last: nat, requests: seq<nat>)
      requires |requests| > 1 && Asks(requests) && last == LastPrinted(requests[..|requests| - 1]) && Ends(events, last)
      ensures var n := |requests| - 1;
              var all := events + Added(PrevBegin(requests[..n]), PrevEnd(requests[..n]), requests[n]);
              && (WellSpaced(all) <==> WellSpaced(events) && Fine(requests, n))
              && Ends(all, LastPrinted(requests))
    {
      hide WellSpaced, LastPrinted;
      var n := |requests| - 1;
      var p, q := requests[n - 1], requests[n];
      assert requests[..n][n - 1] == p;
      if Near(p, q) && End(q) <= End(p) {
        assert events + [] == events;
        NothingPrinted(requests);
      } else if Near(p, q) {
        JoinSpaced(events, last, Lines(End(p) + 1, End(q)));
        SomePrinted(requests);
      } else {
        var more := Lines(Begin(q), End(q));
        assert events + ([Separator] + more) == events + [Separator] + more;
        BreakSpaced(events, last, more);
        SomePrinted(requests);
      }
    }

    lemma {:induction false} NothingPrinted(requests: seq<nat>)
      requires |requests| > 1 && var n := |requests| - 1; Near(requests[n - 1], requests[n]) && End(requests[n]) <= End(requests[n - 1])
      ensures LastPrinted(requests) == LastPrinted(requests[..|requests| - 1])
    {
    }

    lemma {:induction false} SomePrinted(requests: seq<nat>)
      requires |requests| > 1 && var n := |requests| - 1; !(Near(requests[n - 1], requests[n]) && End(requests[n]) <= End(requests[n - 1]))
      ensures LastPrinted(requests) == End(requests[|requests| - 1])
    {
    }

    /** A request goes back within the first lines of the file: its window begins with line 1, as the one before. */
    predicate Rewinds(requests: seq<nat>, i: nat)
      requires 0 < i < |requests|
    {
      requests[i] < requests[i - 1] <= before + 1
    }

    ghost predicate NeverRewinds(requests: seq<nat>) {
      forall i :: 0 < i < |requests| ==> !Rewinds(requests, i)
    }

    /** So requests may go forth and back, as long as none does that. */
    lemma {:induction false} SpacedUnlessRewound(requests: seq<nat>)
      requires Asks(requests) && NeverRewinds(requests)
      ensures WellSpaced(Output(requests))
    {
      SpacedWhen(requests);
      forall i | 0 < i < |requests|
        ensures Fine(requests, i)
      {
        LastIsEnd(requests, i);
        assert !Rewinds(requests, i);
      }
    }

    lemma {:induction false} LastIsEnd(requests: seq<nat>, n: nat)
      requires NeverRewinds(requests) && 0 < n <= |requests|
      ensures LastPrinted(requests[..n]) == End(requests[n - 1])
    {
      if n > 1 {
        LastIsEnd(requests, n - 1);
        assert requests[..n][..n - 1] == requests[..n - 1];
        assert !Rewinds(requests, n - 1);
      }
    }

    ghost predicate Nondecreasing(requests: seq<nat>) {
      (requests != [] ==> requests[0] >= 1) && forall i :: 0 < i < |requests| ==> NotBefore(requests, i)
    }

    ghost predicate NotBefore(requests: seq<nat>, i: nat)
      requires 0 < i < |requests|
    {
      requests[i - 1] <= requests[i]
    }

    /** When requests do not go back, printed lines strictly increase, and a separator stands between two of
        them exactly when they are not consecutive. */
    lemma {:induction false} Ordered(requests: seq<nat>)
      requires Nondecreasing(requests)
      ensures Separated(Output(requests))
      ensures requests != [] ==> Ends(Output(requests), PrevEnd(requests)) && requests[|requests| - 1] >= 1
    {
      if requests != [] {
        var n := |requests| - 1;
        var init := requests[..n];
        forall i | 0 < i < |init|
          ensures NotBefore(init, i)
        {
          assert NotBefore(requests, i);
        }
        Ordered(init);
        if n > 0 {
          assert NotBefore(requests, n);
        }
        AddedKeeps(Output(init), PrevBegin(init), PrevEnd(init), requests[n]);
      }
    }

    lemma {:induction false} AddedKeeps(events: seq<Event>, prevBegin: nat, prevEnd: nat, line: nat)
      requires line >= 1 && Separated(events)
      requires if events == [] then prevEnd == 0 else prevEnd >= 1 && Ends(events, prevEnd)
      requires prevBegin <= Begin(line) && prevEnd <= End(line)
      ensures Separated(events + Added(prevBegin, prevEnd, line))
      ensures Ends(events + Added(prevBegin, prevEnd, line), End(line))
    {
      var from := if Begin(line) <= prevEnd then prevEnd + 1 else Begin(line);
      var more := Lines(from, End(line));
      var all := events + Added(prevBegin, prevEnd, line);
      if events == [] {
        assert all == more;
        LinesSeparated(from, End(line));
      } else if from > End(line) {
        assert all == events;
      } else if prevEnd + 1 == from {
        assert all == events + more;
        LinesSeparated(from, End(line));
        Glued(events, more);
      } else {
        assert all == events + [Separator] + more;
        LinesSeparated(from, End(line));
        GluedApart(events, more);
      }
    }
  }

  /** Printed lines follow each other without a gap, but where a separator stands between two that do not. */
  ghost predicate WellSpaced(events: seq<Event>) {
    && (events != [] ==> events[0].Line?)
    && forall i :: 0 < i < |events| ==> SpacedAt(events, i)
  }

  ghost predicate SpacedAt(events: seq<Event>, i: nat)
    requires 0 < i < |events|
  {
    match (events[i - 1], events[i])
    case (Line(a), Line(b)) => b == a + 1
    case (Line(a), Separator) => i + 1 < |events| && events[i + 1].Line? && events[i + 1].number != a + 1
    case (Separator, Line(_)) => true
    case (Separator, Separator) => false
  }

  lemma {:induction false} JoinSpaced(events: seq<Event>, last: nat, more: seq<Event>)
    requires Ends(events, last) && more != [] && more[0].Line? && forall i :: 0 <= i < |more| ==> more[i] == Line(more[0].number + i)
    ensures WellSpaced(events + more) <==> WellSpaced(events) && more[0] == Line(last + 1)
  {
    var all := events + more;
    if WellSpaced(events) && more[0] == Line(last + 1) {
      forall i | 0 < i < |all|
        ensures SpacedAt(all, i)
      {
        assert i < |events| ==> SpacedAt(events, i);
      }
    }
    if WellSpaced(all) {
      assert SpacedAt(all, |events|);
      SpacedPrefix(events, last, more);
    }
  }

  lemma {:induction false} SpacedPrefix(events: seq<Event>, last: nat, more: seq<Event>)
    requires Ends(events, last) && WellSpaced(events + more)
    ensures WellSpaced(events)
  {
    var all := events + more;
    assert all[0] == events[0];
    forall i | 0 < i < |events|
      ensures SpacedAt(events, i)
    {
      assert SpacedAt(all, i);
    }
  }

  lemma {:induction false} BreakSpaced(events: seq<Event>, last: nat, more: seq<Event>)
    requires Ends(events, last) && more != [] && more[0].Line? && forall i :: 0 <= i < |more| ==> more[i] == Line(more[0].number + i)
    ensures WellSpaced(events + [Separator] + more) <==> WellSpaced(events) && more[0] != Line(last + 1)
  {
    var all := events + [Separator] + more;
    if WellSpaced(events) && more[0] != Line(last + 1) {
      forall i | 0 < i < |all|
        ensures SpacedAt(all, i)
      {
        assert i < |events| ==> SpacedAt(events, i);
      }
    }
    if WellSpaced(all) {
      assert SpacedAt(all, |events|);
      assert all == events + ([Separator] + more);
      SpacedPrefix(events, last, [Separator] + more);
    }
  }

  /** Going back within the first lines prints a line again, right behind a later one: with two lines before each
      request, lines 3, 1 and 2 print 1, 2, 3 and 2. */
  lemma {:induction false} RewindExample()
    ensures Context(2, 0).Output([3, 1, 2]) == [Line(1), Line(2), Line(3), Line(2)]
    ensures !WellSpaced(Context(2, 0).Output([3, 1, 2]))
  {
    var c := Context(2, 0);
    assert c.Output([]) == [];
    assert [3][..0] == [] && [3, 1][..1] == [3] && [3, 1, 2][..2] == [3, 1];
    assert c.Output([3]) == Lines(1, 3) == [Line(1), Line(2), Line(3)];
    assert c.Output([3, 1]) == c.Output([3]);
    assert c.Output([3, 1, 2]) == c.Output([3, 1]) + Lines(2, 2);
    assert !SpacedAt([Line(1), Line(2), Line(3), Line(2)], 3);
  }

  lemma {:induction false} LinesOnce(from: nat, to: int, k: nat)
    ensures multiset(Lines(from, to))[Line(k)] == (if from <= k <= to then 1 else 0)
    decreases if from <= to then to - from + 1 else 0
  {
    if from <= to {
      LinesOnce(from, to - 1, k);
      assert Lines(from, to) == Lines(from, to - 1) + [Line(to)];
    }
  }

  lemma {:induction false} LinesSeparated(from: nat, to: nat)
    ensures Separated(Lines(from, to))
  {
  }

  lemma {:induction false} Glued(a: seq<Event>, b: seq<Event>)
    requires Separated(a) && Separated(b) && a != [] && b != []
    requires a[|a| - 1].Line? && b[0] == Line(a[|a| - 1].number + 1)
    ensures Separated(a + b)
  {
    forall i | 0 < i < |a + b|
      ensures StepsOn(a + b, i)
    {
      if i < |a| {
        assert StepsOn(a, i);
      } else if i > |a| {
        assert StepsOn(b, i - |a|);
      }
    }
  }

  lemma {:induction false} GluedApart(a: seq<Event>, b: seq<Event>)
    requires Separated(a) && Separated(b) && a != [] && b != []
    requires a[|a| - 1].Line? && a[|a| - 1].number + 1 < b[0].number
    ensures Separated(a + [Separator] + b)
  {
    var all := a + [Separator] + b;
    forall i | 0 < i < |all|
      ensures StepsOn(all, i)
    {
      if i < |a| {
        assert StepsOn(a, i);
      } else if i > |a| + 1 {
        assert StepsOn(b, i - |a| - 1);
        assert all[i] == b[i - |a| - 1] && all[i - 1] == b[i - |a| - 2];
      }
    }
  }

  /** The lines from one to another. */
  function Lines(from: nat, to: int): (r: seq<Event>)
    ensures |r| == if from <= to then to + 1 - from else 0
    ensures forall i :: 0 <= i < |r| ==> r[i] == Line(from + i)
  {
    seq(if from <= to then to + 1 - from else 0, i requires i >= 0 => Line(from + i))
  }

  lemma {:induction false} LinesHold(from: nat, to: int, k: nat)
    ensures Line(k) in Lines(from, to) <==> from <= k <= to
  {
    if from <= k <= to {
      assert Lines(from, to)[k - from] == Line(k);
    }
  }

  /** Neighbouring lines are consecutive, and a separator stands between two lines with a gap. */
  ghost predicate Separated(events: seq<Event>) {
    && (events != [] ==> events[0].Line?)
    && forall i :: 0 < i < |events| ==> StepsOn(events, i)
  }

  ghost predicate StepsOn(events: seq<Event>, i: nat)
    requires 0 < i < |events|
  {
    match (events[i - 1], events[i])
    case (Line(a), Line(b)) => b == a + 1
    case (Line(_), Separator) => i + 1 < |events| && events[i + 1].Line? && events[i - 1].number + 1 < events[i + 1].number
    case (Separator, Line(_)) => true
    case (Separator, Separator) => false
  }

  ghost predicate Ends(events: seq<Event>, number: nat) {
    events != [] && events[|events| - 1] == Line(number)
  }

  /** So any two printed lines are in order. */
  lemma {:induction false} StrictlyIncreasing(events: seq<Event>, i: nat, j: nat)
    requires Separated(events) && i < j < |events| && events[i].Line? && events[j].Line?
    ensures events[i].number < events[j].number
    decreases j
  {
    assert StepsOn(events, j);
    if events[j - 1].Separator? {
      assert StepsOn(events, j - 1);
      if i < j - 2 {
        StrictlyIncreasing(events, i, j - 2);
      }
    } else if i < j - 1 {
      StrictlyIncreasing(events, i, j - 1);
    }
  }

  class RangeFetcher {
    const context: Context
    var prevBegin: nat
    var prevEnd: nat
    var events: seq<Event>        // what the handler has been told
    ghost var requests: seq<nat>

    ghost predicate Valid()
      reads this
    {
      && prevBegin == context.PrevBegin(requests) && prevEnd == context.PrevEnd(requests)
      && events == context.Output(requests)
    }

    constructor (linesBefore: nat, linesAfter: nat)
      ensures Valid() && requests == [] && context == Context(linesBefore, linesAfter)
    {
      context := Context(linesBefore, linesAfter);
      prevBegin, prevEnd, events, requests := 0, 0, [], [];
    }

    /** The loop that tells the handler. */
    method TellLines(from: nat, to: nat)
      modifies this`events
      ensures events == old(events) + Lines(from, to)
    {
      var currentLine := from;
      while currentLine <= to
        invariant from <= currentLine && (currentLine <= to + 1 || currentLine == from)
        invariant events == old(events) + Lines(from, currentLine - 1)
      {
        events := events + [Line(currentLine)];
        currentLine := currentLine + 1;
      }
    }

    /** operator() */
    method Fetch(line: nat)
      requires Valid()
      modifies this
      ensures Valid() && requests == old(requests) + [line]
    {
      var beginRange := line;
      if line > context.before {
        beginRange := beginRange - context.before;
      } else {
        beginRange := 1;
      }
      var endRange := line + context.after;
      var currentLine := beginRange;
      if beginRange >= prevBegin && beginRange <= prevEnd {
        currentLine := prevEnd + 1;
      } else {
        if prevEnd != 0 && prevEnd + 1 != beginRange {
          events := events + [Separator];
        }
      }
      TellLines(currentLine, endRange);
      assert old(events) + ([Separator] + Lines(currentLine, endRange)) == old(events) + [Separator] + Lines(currentLine, endRange);
      prevBegin := beginRange;
      prevEnd := endRange;
      requests := requests + [line];
      assert requests[..|requests| - 1] == old(requests);
    }
  }
}
