/** What the builder keeps of each line: Index::Builder::Impl::onLine, IndexHandler and AlphaHandler. */
module Indexing {
  import opened Prelude

  type Line = seq<byte>

  datatype Found = Found(key: seq<byte>, offset: nat)

  /** A line indexer is any function from a line to the keys it adds, in order. */
  datatype Indexer = Indexer(unique: bool, find: Line -> seq<Found>)

  datatype Config = Config(skipFirst: nat, saveAllLines: bool, indexers: seq<Indexer>)

  /** A row of an index table. */
  datatype KeyRow = KeyRow(key: seq<byte>, line: nat, offset: nat)

  datatype Call = Call(line: nat, offset: nat, text: Line)

  type Tables = seq<seq<KeyRow>>

  predicate HasKey(rows: seq<KeyRow>, key: seq<byte>) {
    exists i :: 0 <= i < |rows| && rows[i].key == key
  }

  /** The table after the first n keys found on a line are inserted; None when a primary key repeats. */
  function Insert(unique: bool, rows: seq<KeyRow>, line: nat, found: seq<Found>, n: nat): Option<seq<KeyRow>>
    requires n <= |found|
  {
    if n == 0 then Some(rows)
    else
      match Insert(unique, rows, line, found, n - 1)
      case None => None
      case Some(before) =>
        var f := found[n - 1];
        if unique && HasKey(before, f.key) then None
        else Some(before + [KeyRow(f.key, line, f.offset)])
  }

  /** The tables after the first n indexers have seen a line. */
  function IndexLine(cfg: Config, tables: Tables, line: nat, text: Line, n: nat): (r: Option<Tables>)
    requires |tables| == |cfg.indexers| && n <= |tables|
    ensures r.Some? ==> |r.value| == |tables|
    ensures r.Some? ==> forall i :: n <= i < |tables| ==> r.value[i] == tables[i]
  {
    if n == 0 then Some(tables)
    else
      match IndexLine(cfg, tables, line, text, n - 1)
      case None => None
      case Some(before) =>
        var found := cfg.indexers[n - 1].find(text);
        match Insert(cfg.indexers[n - 1].unique, before[n - 1], line, found, |found|)
        case None => None
        case Some(rows) => Some(before[n - 1 := rows])
  }

  /** One of the first n indexers finds a key. */
  predicate AnyKey(cfg: Config, text: Line, n: nat)
    requires n <= |cfg.indexers|
  {
    exists i :: 0 <= i < n && cfg.indexers[i].find(text) != []
  }

  /** Whether onLine asks for the line to be saved under this number. */
  predicate Saves(cfg: Config, line: nat, text: Line) {
    line <= cfg.skipFirst || AnyKey(cfg, text, |cfg.indexers|) || cfg.saveAllLines
  }

  function Indexed(cfg: Config, tables: Tables, line: nat, text: Line): (r: Option<Tables>)
    requires |tables| == |cfg.indexers|
    ensures r.Some? ==> |r.value| == |tables|
  {
    if line <= cfg.skipFirst then Some(tables) else IndexLine(cfg, tables, line, text, |tables|)
  }

  // ----- the whole text

  /** Where the scan of a text stands: the offsets saved, the offset of the next line, the index tables
      and the calls made so far. */
  datatype Scan = Scan(offsets: seq<nat>, next: nat, tables: Tables, calls: seq<Call>)

  /** The scan of a sequence of lines. A line is numbered one more than the lines saved before it. */
  function ScanLines(cfg: Config, lines: seq<Line>): (r: Option<Scan>)
    ensures r.Some? ==> |r.value.tables| == |cfg.indexers|
  {
    if lines == [] then Some(Scan([], 0, seq(|cfg.indexers|, _ => []), []))
    else
      match ScanLines(cfg, lines[..|lines| - 1])
      case None => None
      case Some(before) => ScanLine(cfg, before, lines[|lines| - 1])
  }

  function ScanLine(cfg: Config, before: Scan, text: Line): (r: Option<Scan>)
    requires |before.tables| == |cfg.indexers|
    ensures r.Some? ==> |r.value.tables| == |cfg.indexers|
  {
    var line := |before.offsets| + 1;
    match Indexed(cfg, before.tables, line, text)
    case None => None
    case Some(tables) =>
      Some(Scan(if Saves(cfg, line, text) then before.offsets + [before.next] else before.offsets,
                before.next + |text| + 1,
                tables,
                before.calls + [Call(line, before.next, text)]))
  }

  lemma ScanNext(cfg: Config, lines: seq<Line>, text: Line)
    ensures ScanLines(cfg, lines + [text]) ==
            match ScanLines(cfg, lines) { case None => None case Some(b) => ScanLine(cfg, b, text) }
  {
    assert (lines + [text])[..|lines|] == lines;
  }

  lemma {:induction false} ScanFails(cfg: Config, lines: seq<Line>, more: seq<Line>)
    requires lines <= more && ScanLines(cfg, lines).None?
    ensures ScanLines(cfg, more).None?
    decreases |more|
  {
    if lines == more {
    } else {
      ScanFails(cfg, lines, more[..|more| - 1]);
    }
  }

  // ----- the sink

  /** The builder as the line finder's sink. */
  class Sink {
    const cfg: Config
    var tables: Tables
    ghost var calls: seq<Call>

    ghost predicate Valid()
      reads this
    {
      |tables| == |cfg.indexers|
    }

    constructor (cfg: Config)
      ensures Valid() && this.cfg == cfg && calls == []
      ensures tables == seq(|cfg.indexers|, _ => [])
    {
      this.cfg := cfg;
      tables := seq(|cfg.indexers|, _ => []);
      calls := [];
    }

    /** None when an insertion throws. */
    method OnLine(line: nat, fileOffset: nat, text: Line) returns (save: Option<bool>)
      requires Valid()
      modifies this
      ensures Valid()
      ensures calls == old(calls) + [Call(line, fileOffset, text)]
      ensures save.None? <==> Indexed(cfg, old(tables), line, text).None?
      ensures save.Some? ==> Indexed(cfg, old(tables), line, text) == Some(tables)
      ensures save.Some? ==>
                (save.value <==>
                   || line <= cfg.skipFirst || cfg.saveAllLines
                   || exists i :: 0 <= i < |cfg.indexers| && cfg.indexers[i].find(text) != [])
    {
      calls := calls + [Call(line, fileOffset, text)];
      if line <= cfg.skipFirst {
        return Some(true);
      }
      var consumed := false;
      var i := 0;
      while i < |cfg.indexers|
        invariant 0 <= i <= |cfg.indexers| && Valid()
        invariant IndexLine(cfg, old(tables), line, text, i) == Some(tables)
        invariant consumed <==> AnyKey(cfg, text, i)
        invariant calls == old(calls) + [Call(line, fileOffset, text)]
      {
        var indexed := IndexWith(i, line, text);
        if indexed.None? {
          IndexFails(cfg, old(tables), line, text, i + 1, |tables|);
          return None;
        }
        consumed := consumed || indexed.value;
        i := i + 1;
      }
      return Some(consumed || cfg.saveAllLines);
    }

    /** IndexHandler::onLine for indexer i, which calls AlphaHandler::add for each key. */
    method IndexWith(i: nat, line: nat, text: Line) returns (indexed: Option<bool>)
      requires Valid() && i < |cfg.indexers|
      modifies this`tables
      ensures Valid()
      ensures var found := cfg.indexers[i].find(text);
              var rows := Insert(cfg.indexers[i].unique, old(tables)[i], line, found, |found|);
              && (indexed.None? <==> rows.None?)
              && (indexed.Some? ==> indexed.value == (found != []) && tables == old(tables)[i := rows.value])
    {
      var found := cfg.indexers[i].find(text);
      var unique := cfg.indexers[i].unique;
      var rows := tables[i];
      var n := 0;
      while n < |found|
        invariant 0 <= n <= |found|
        invariant Insert(unique, tables[i], line, found, n) == Some(rows)
      {
        if unique && HasKey(rows, found[n].key) {
          InsertFails(unique, tables[i], line, found, n + 1, |found|);
          return None;
        }
        rows := rows + [KeyRow(found[n].key, line, found[n].offset)];
        n := n + 1;
      }
      tables := tables[i := rows];
      return Some(found != []);
    }
  }

  lemma {:induction false} InsertFails(unique: bool, rows: seq<KeyRow>, line: nat, found: seq<Found>, n: nat, k: nat)
    requires n <= k <= |found| && Insert(unique, rows, line, found, n).None?
    ensures Insert(unique, rows, line, found, k).None?
    decreases k
  {
    if n < k {
      InsertFails(unique, rows, line, found, n, k - 1);
    }
  }

  lemma {:induction false} IndexFails(cfg: Config, tables: Tables, line: nat, text: Line, n: nat, k: nat)
    requires |tables| == |cfg.indexers| && n <= k <= |tables| && IndexLine(cfg, tables, line, text, n).None?
    ensures IndexLine(cfg, tables, line, text, k).None?
    decreases k
  {
    if n < k {
      IndexFails(cfg, tables, line, text, n, k - 1);
    }
  }
}
