/** src/LineFinder.cpp: the chunked line splitter. */
module LineFinding {
  import opened Prelude
  import opened TextLines
  import opened Indexing

  class LineFinder {
    const sink: Sink
    var lineBuffer: seq<byte>
    var lineOffsets: seq<nat>
    var currentLineOffset: nat
    ghost var fed: seq<byte>  // everything added so far

    /** The state depends on what has been added, not on how it was cut. */
    ghost predicate Valid()
      reads this, sink
    {
      && sink.Valid()
      && lineBuffer == Tail(fed)
      && ScanLines(sink.cfg, Lines(fed)) == Some(Scan(lineOffsets, currentLineOffset, sink.tables, sink.calls))
    }

    /** After the last data: the scan of all lines, and the end offset appended to the table. */
    ghost predicate Finished()
      reads this, sink
    {
      && sink.Valid()
      && lineOffsets != []
      && var n := |lineOffsets| - 1;
         ScanLines(sink.cfg, AllLines(fed)) == Some(Scan(lineOffsets[..n], lineOffsets[n], sink.tables, sink.calls))
    }

    constructor (sink: Sink)
      requires sink.Valid() && sink.calls == [] && sink.tables == seq(|sink.cfg.indexers|, _ => [])
      ensures Valid() && fed == [] && this.sink == sink
    {
      this.sink := sink;
      lineBuffer, lineOffsets, currentLineOffset := [], [], 0;
      fed := [];
    }

    /** Whatever the cut, the callbacks, offsets and tables are those of one scan of the whole text.
        A call fails exactly when the scan of that text does. */
    method Add(data: array<byte>, length: nat, last: bool) returns (ok: bool)
      requires Valid() && length <= data.Length
      modifies this, sink
      ensures fed == old(fed) + data[..length]
      ensures ok && !last ==> Valid()
      ensures ok && last ==> Finished()
      ensures !ok ==> ScanLines(sink.cfg, AllLines(fed)).None?
      ensures !ok && !last ==> ScanLines(sink.cfg, Lines(fed)).None?
    {
      ghost var d := data[..length];
      var at := 0;
      while at < length
        invariant 0 <= at <= length && Valid()
        invariant d == data[..length] && fed == old(fed) + d[..at]
        decreases length - at
      {
        var lineEnd := FindNewline(data, at, length);
        if lineEnd < length {
          SameSlice(data, length, at, lineEnd);
          CutLine(old(fed), d, at, lineEnd);
          ok := LineData(data[at..lineEnd]);
          if !ok {
            StillFails(sink.cfg, fed, d[lineEnd + 1..]);
            fed := fed + d[lineEnd + 1..];
            return;
          }
          at := lineEnd + 1;
        } else {
          SameSlice(data, length, at, length);
          CutRest(old(fed), d, at);
          Append(data[at..length]);
          at := length;
        }
      }
      CutRest(old(fed), d, at);
      ok := true;
      if last && lineBuffer != [] {
        ok := LastLine();
      }
      if ok && last {
        lineOffsets := lineOffsets + [currentLineOffset];
      }
    }

    /** memchr: the first newline in data[from..to], or `to`. */
    static method FindNewline(data: array<byte>, from: nat, to: nat) returns (k: nat)
      requires from <= to <= data.Length
      ensures from <= k <= to
      ensures NEWLINE !in data[from..k]
      ensures k < to ==> data[k] == NEWLINE
    {
      k := from;
      while k < to && data[k] != NEWLINE
        invariant from <= k <= to
        invariant NEWLINE !in data[from..k]
      {
        k := k + 1;
      }
    }

    /** lineData(begin, end) for a line that a newline ends; the newline is accounted for here. */
    method LineData(piece: seq<byte>) returns (ok: bool)
      requires Valid() && NEWLINE !in piece
      modifies this, sink
      ensures fed == old(fed) + piece + [NEWLINE]
      ensures ok ==> Valid()
      ensures !ok ==> ScanLines(sink.cfg, Lines(fed)).None?
    {
      NoCut(fed, piece);
      CutAtNewline(fed + piece);
      ScanNext(sink.cfg, Lines(fed), lineBuffer + piece);
      ok := TellSink(piece);
      fed := fed + piece + [NEWLINE];
    }

    /** lineData(nullptr, nullptr) for what is left in the buffer. */
    method LastLine() returns (ok: bool)
      requires Valid() && lineBuffer != []
      modifies this, sink
      ensures fed == old(fed)
      ensures ok ==> sink.Valid() && ScanLines(sink.cfg, AllLines(fed))
                                  == Some(Scan(lineOffsets, currentLineOffset, sink.tables, sink.calls))
      ensures !ok ==> ScanLines(sink.cfg, AllLines(fed)).None?
    {
      ScanNext(sink.cfg, Lines(fed), lineBuffer);
      assert lineBuffer + [] == lineBuffer;
      ok := TellSink([]);
    }

    /** The body of lineData. */
    method TellSink(piece: seq<byte>) returns (ok: bool)
      requires sink.Valid()
      modifies this, sink
      ensures fed == old(fed) && sink.Valid()
      ensures var before := Scan(old(lineOffsets), old(currentLineOffset), old(sink.tables), old(sink.calls));
              var after := ScanLine(sink.cfg, before, old(lineBuffer) + piece);
              && (ok <==> after.Some?)
              && (ok ==> lineBuffer == [])
              && (ok ==> after == Some(Scan(lineOffsets, currentLineOffset, sink.tables, sink.calls)))
    {
      var length: nat;
      var shouldAddLine;
      if lineBuffer == [] {
        assert lineBuffer + piece == piece;
        shouldAddLine := sink.OnLine(|lineOffsets| + 1, currentLineOffset, piece);
        length := |piece| + 1;
      } else {
        lineBuffer := lineBuffer + piece;
        shouldAddLine := sink.OnLine(|lineOffsets| + 1, currentLineOffset, lineBuffer);
        length := |lineBuffer| + 1;
      }
      if shouldAddLine.None? {
        return false;
      }
      lineBuffer := [];
      if shouldAddLine.value {
        lineOffsets := lineOffsets + [currentLineOffset];
      }
      currentLineOffset := currentLineOffset + length;
      return true;
    }

    method Append(piece: seq<byte>)
      requires Valid() && NEWLINE !in piece
      modifies this
      ensures Valid() && fed == old(fed) + piece
    {
      NoCut(fed, piece);
      lineBuffer := lineBuffer + piece;
      fed := fed + piece;
    }
  }

  /** Two finders that have been fed the same text, whatever the pieces, have made the same calls and hold the
      same offsets and tables. */
  lemma {:induction false} CutsDoNotMatter(a: LineFinder, b: LineFinder)
    requires a.Finished() && b.Finished() && a.fed == b.fed && a.sink.cfg == b.sink.cfg
    ensures a.lineOffsets == b.lineOffsets && a.sink.calls == b.sink.calls && a.sink.tables == b.sink.tables
  {
    var m, n := |a.lineOffsets| - 1, |b.lineOffsets| - 1;
    assert a.lineOffsets == a.lineOffsets[..m] + [a.lineOffsets[m]];
    assert b.lineOffsets == b.lineOffsets[..n] + [b.lineOffsets[n]];
  }

  lemma {:induction false} SameSlice(data: array<byte>, length: nat, at: nat, to: nat)
    requires at <= to <= length <= data.Length
    ensures data[..length][at..to] == data[at..to]
    ensures to < length ==> data[..length][to] == data[to]
  {
  }

  lemma CutLine(before: seq<byte>, d: seq<byte>, at: nat, lineEnd: nat)
    requires at <= lineEnd < |d| && d[lineEnd] == NEWLINE
    ensures before + d[..lineEnd + 1] == before + d[..at] + d[at..lineEnd] + [NEWLINE]
    ensures before + d == before + d[..lineEnd + 1] + d[lineEnd + 1..]
  {
  }

  lemma CutRest(before: seq<byte>, d: seq<byte>, at: nat)
    requires at <= |d|
    ensures before + d[..at] + d[at..] == before + d == before + d[..|d|]
  {
  }

  lemma StillFails(cfg: Config, s: seq<byte>, more: seq<byte>)
    requires ScanLines(cfg, Lines(s)).None?
    ensures ScanLines(cfg, Lines(s + more)).None? && ScanLines(cfg, AllLines(s + more)).None?
  {
    LinesGrow(s, more);
    ScanFails(cfg, Lines(s), Lines(s + more));
    ScanFails(cfg, Lines(s), AllLines(s + more));
  }
}
