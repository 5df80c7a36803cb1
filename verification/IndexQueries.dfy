/** The index tables against the text: what is in them, when they can be built, and what a query finds
    (src/Index.cpp:125-159, 306-319, 716-726). */
module IndexQueries {
  import opened Prelude
  import opened Indexing
  import opened SavedLines

  /** The rows that the keys found on one line add. */
  function RowsOf(found: seq<Found>, line: nat): (r: seq<KeyRow>)
    ensures |r| == |found|
  {
    seq(|found|, k requires 0 <= k < |found| => KeyRow(found[k].key, line, found[k].offset))
  }

  /** What a plain scan finds on line j: nothing on the lines that are skipped. */
  function FoundOn(cfg: Config, i: nat, ls: seq<Line>, j: nat): seq<Found>
    requires i < |cfg.indexers| && j < |ls|
  {
    if j < cfg.skipFirst then [] else cfg.indexers[i].find(ls[j])
  }

  /** The rows of index i for all lines, in order. */
  function TableOf(cfg: Config, i: nat, ls: seq<Line>): seq<KeyRow>
    requires i < |cfg.indexers|
  {
    if ls == [] then []
    else
      var j := |ls| - 1;
      TableOf(cfg, i, ls[..j]) + RowsOf(FoundOn(cfg, i, ls, j), |Kept(cfg, ls[..j])| + 1)
  }

  ghost predicate NoRepeats(rows: seq<KeyRow>) {
    forall a, b :: 0 <= a < b < |rows| ==> rows[a].key != rows[b].key
  }

  // ----- what the scan builds

  lemma {:induction false} Inserts(unique: bool, rows: seq<KeyRow>, line: nat, found: seq<Found>, n: nat)
    requires n <= |found| && (unique ==> NoRepeats(rows))
    ensures var all := rows + RowsOf(found[..n], line);
            Insert(unique, rows, line, found, n) == if !unique || NoRepeats(all) then Some(all) else None
  {
    if n == 0 {
      assert rows + RowsOf(found[..0], line) == rows;
    } else {
      Inserts(unique, rows, line, found, n - 1);
      var before := rows + RowsOf(found[..n - 1], line);
      var row := KeyRow(found[n - 1].key, line, found[n - 1].offset);
      assert rows + RowsOf(found[..n], line) == before + [row];
      OneMore(before, row);
    }
  }

  lemma {:induction false} OneMore(rows: seq<KeyRow>, row: KeyRow)
    ensures NoRepeats(rows + [row]) <==> NoRepeats(rows) && !HasKey(rows, row.key)
  {
    var all := rows + [row];
    if HasKey(rows, row.key) {
      var k :| 0 <= k < |rows| && rows[k].key == row.key;
      assert all[k].key == all[|rows|].key;
    }
    if !NoRepeats(rows) {
      var a, b :| 0 <= a < b < |rows| && rows[a].key == rows[b].key;
      assert all[a].key == all[b].key;
    }
  }

  /** The tables hold the rows of the lines, and no unique one of the first n repeats a key. */
  ghost predicate TablesFit(cfg: Config, ls: seq<Line>, tables: Tables) {
    |tables| == |cfg.indexers| && forall i :: 0 <= i < |tables| ==> tables[i] == TableOf(cfg, i, ls)
  }

  /** No unique index among the first n gets a key twice. */
  ghost predicate Unique(cfg: Config, ls: seq<Line>, n: nat)
    requires n <= |cfg.indexers|
  {
    forall i :: 0 <= i < n && cfg.indexers[i].unique ==> NoRepeats(TableOf(cfg, i, ls))
  }

  lemma {:induction false} UniqueStep(cfg: Config, ls: seq<Line>, i: nat)
    requires i < |cfg.indexers|
    ensures Unique(cfg, ls, i + 1) <==> Unique(cfg, ls, i) && (cfg.indexers[i].unique ==> NoRepeats(TableOf(cfg, i, ls)))
  {
    hide TableOf, NoRepeats;
  }

  /** The last line's rows, behind those of the lines before. */
  lemma {:induction false} LastRows(cfg: Config, ls: seq<Line>, tables: Tables, i: nat)
    requires ls != [] && i < |tables| && |ls| > cfg.skipFirst && TablesFit(cfg, ls[..|ls| - 1], tables)
    ensures var found := cfg.indexers[i].find(ls[|ls| - 1]);
            tables[i] + RowsOf(found, |Kept(cfg, ls[..|ls| - 1])| + 1) == TableOf(cfg, i, ls)
  {
    hide Kept, RowsOf;
  }

  /** What one indexer does to its table for the last line. */
  lemma {:induction false} IndexesOne(cfg: Config, ls: seq<Line>, tables: Tables, i: nat)
    requires ls != [] && i < |tables| && |ls| > cfg.skipFirst
    requires TablesFit(cfg, ls[..|ls| - 1], tables) && Unique(cfg, ls[..|ls| - 1], |cfg.indexers|)
    ensures var j := |ls| - 1;
            var found := cfg.indexers[i].find(ls[j]);
            var r := Insert(cfg.indexers[i].unique, tables[i], |Kept(cfg, ls[..j])| + 1, found, |found|);
            && (r.Some? <==> cfg.indexers[i].unique ==> NoRepeats(TableOf(cfg, i, ls)))
            && (r.Some? ==> r.value == TableOf(cfg, i, ls))
  {
    hide Insert, NoRepeats, RowsOf, TableOf, Kept;
    var j := |ls| - 1;
    var found := cfg.indexers[i].find(ls[j]);
    Inserts(cfg.indexers[i].unique, tables[i], |Kept(cfg, ls[..j])| + 1, found, |found|);
    LastRows(cfg, ls, tables, i);
    assert found[..|found|] == found;
  }

  /** What the first n indexers do to the tables for the last line. */
  lemma {:induction false} Indexes(cfg: Config, ls: seq<Line>, tables: Tables, n: nat)
    requires ls != [] && n <= |tables| && |ls| > cfg.skipFirst
    requires TablesFit(cfg, ls[..|ls| - 1], tables) && Unique(cfg, ls[..|ls| - 1], |cfg.indexers|)
    ensures var j := |ls| - 1;
            var r := IndexLine(cfg, tables, |Kept(cfg, ls[..j])| + 1, ls[j], n);
            && (r.Some? <==> Unique(cfg, ls, n))
            && (r.Some? ==> forall i :: 0 <= i < n ==> r.value[i] == TableOf(cfg, i, ls))
  {
    hide Insert, NoRepeats, TableOf, Kept;
    if n > 0 {
      Indexes(cfg, ls, tables, n - 1);
      IndexesOne(cfg, ls, tables, n - 1);
      UniqueStep(cfg, ls, n - 1);
    }
  }

  lemma {:induction false} PrefixUnique(cfg: Config, ls: seq<Line>, n: nat)
    requires ls != [] && n <= |cfg.indexers| && Unique(cfg, ls, n)
    ensures Unique(cfg, ls[..|ls| - 1], n)
  {
    forall i | 0 <= i < n && cfg.indexers[i].unique
      ensures NoRepeats(TableOf(cfg, i, ls[..|ls| - 1]))
    {
      var all, before := TableOf(cfg, i, ls), TableOf(cfg, i, ls[..|ls| - 1]);
      assert NoRepeats(all) && before <= all;
    }
  }

  lemma {:induction false} NoLines(cfg: Config)
    ensures ScanLines(cfg, []).Some? && Unique(cfg, [], |cfg.indexers|)
    ensures TablesFit(cfg, [], ScanLines(cfg, []).value.tables)
  {
  }

  /** Indexing a text succeeds exactly when no unique index gets a key twice, and then every table holds
      exactly the rows of the lines, in order. */
  lemma {:induction false} ScanIndexes(cfg: Config, ls: seq<Line>)
    ensures ScanLines(cfg, ls).Some? <==> Unique(cfg, ls, |cfg.indexers|)
    ensures ScanLines(cfg, ls).Some? ==> TablesFit(cfg, ls, ScanLines(cfg, ls).value.tables)
  {
    hide NoRepeats, TableOf, Kept, Unique;
    if ls == [] {
      NoLines(cfg);
    } else {
      var init := ls[..|ls| - 1];
      ScanIndexes(cfg, init);
      if ScanLines(cfg, init).None? {
        if Unique(cfg, ls, |cfg.indexers|) {
          PrefixUnique(cfg, ls, |cfg.indexers|);
        }
      } else {
        ScanFits(cfg, init);
        SkippedAreKept(cfg, init);
        var before := ScanLines(cfg, init).value;
        if |ls| > cfg.skipFirst {
          Indexes(cfg, ls, before.tables, |cfg.indexers|);
        } else {
          NothingAdded(cfg, ls, before.tables);
        }
      }
    }
  }

  lemma {:induction false} NothingAdded(cfg: Config, ls: seq<Line>, tables: Tables)
    requires ls != [] && |ls| <= cfg.skipFirst && TablesFit(cfg, ls[..|ls| - 1], tables)
    ensures TablesFit(cfg, ls, tables)
    ensures Unique(cfg, ls[..|ls| - 1], |cfg.indexers|) <==> Unique(cfg, ls, |cfg.indexers|)
  {
    forall i | 0 <= i < |cfg.indexers|
      ensures TableOf(cfg, i, ls) == TableOf(cfg, i, ls[..|ls| - 1])
    {
    }
  }

  // ----- queries

  /** The rows with a key, as the query visits them. */
  function Matches(rows: seq<KeyRow>, key: seq<byte>): seq<nat> {
    if rows == [] then []
    else
      var n := |rows| - 1;
      Matches(rows[..n], key) + (if rows[n].key == key then [rows[n].line] else [])
  }

  /** queryIndex: visit the line of each row with the key, and count them. */
  method QueryIndex(rows: seq<KeyRow>, query: seq<byte>) returns (matches: nat, visited: seq<nat>)
    ensures visited == Matches(rows, query) && matches == |visited|
  {
    matches, visited := 0, [];
    var at := 0;
    while at < |rows|
      invariant 0 <= at <= |rows|
      invariant visited == Matches(rows[..at], query) && matches == |visited|
    {
      assert rows[..at + 1][..at] == rows[..at];
      if rows[at].key == query {
        visited := visited + [rows[at].line];
        matches := matches + 1;
      }
      at := at + 1;
    }
    assert rows[..|rows|] == rows;
  }

  /** How often a key is found on a line. */
  function Times(found: seq<Found>, key: seq<byte>): nat {
    if found == [] then 0
    else
      var n := |found| - 1;
      Times(found[..n], key) + if found[n].key == key then 1 else 0
  }

  /** A plain scan: the positions of the lines on which the indexer finds the key, each as often as that. */
  function PlainScan(cfg: Config, i: nat, ls: seq<Line>, key: seq<byte>): seq<nat>
    requires i < |cfg.indexers|
  {
    if ls == [] then []
    else
      var j := |ls| - 1;
      PlainScan(cfg, i, ls[..j], key) + seq(Times(FoundOn(cfg, i, ls, j), key), _ => j)
  }

  /** The places among the keys found on a line at which this key stands. */
  function Places(found: seq<Found>, key: seq<byte>): set<nat> {
    set k | 0 <= k < |found| && found[k].key == key
  }

  lemma {:induction false} TimesCounts(found: seq<Found>, key: seq<byte>)
    ensures Times(found, key) == |Places(found, key)|
  {
    if found == [] {
      assert Places(found, key) == {};
    } else {
      var n := |found| - 1;
      TimesCounts(found[..n], key);
      assert Places(found, key) == Places(found[..n], key) + if found[n].key == key then {n} else {};
    }
  }

  /** A plain scan goes through the lines in order, and lists each as often as the indexer finds the key on it, but
      for the lines that are skipped. */
  lemma {:induction false} PlainScanFinds(cfg: Config, i: nat, ls: seq<Line>, key: seq<byte>, j: nat)
    requires i < |cfg.indexers|
    ensures multiset(PlainScan(cfg, i, ls, key))[j]
         == if cfg.skipFirst <= j < |ls| then |Places(cfg.indexers[i].find(ls[j]), key)| else 0
    ensures var r := PlainScan(cfg, i, ls, key); forall a, b :: 0 <= a < b < |r| ==> r[a] <= r[b] < |ls|
  {
    if ls != [] {
      var n := |ls| - 1;
      PlainScanFinds(cfg, i, ls[..n], key, j);
      var times := Times(FoundOn(cfg, i, ls, n), key);
      TimesCounts(cfg.indexers[i].find(ls[n]), key);
      Repeated(n, times, j);
      InScan(cfg, i, ls, key);
    }
  }

  lemma {:induction false} InScan(cfg: Config, i: nat, ls: seq<Line>, key: seq<byte>)
    requires i < |cfg.indexers|
    ensures forall a :: 0 <= a < |PlainScan(cfg, i, ls, key)| ==> PlainScan(cfg, i, ls, key)[a] < |ls|
  {
    if ls != [] {
      InScan(cfg, i, ls[..|ls| - 1], key);
    }
  }

  lemma {:induction false} Repeated(n: nat, times: nat, j: nat)
    ensures multiset(seq(times, _ => n))[j] == if j == n then times else 0
  {
    var s := seq(times, _ => n);
    if times > 0 {
      Repeated(n, times - 1, j);
      assert s == seq(times - 1, _ => n) + [n];
    }
  }

  lemma {:induction false} MatchesConcat(a: seq<KeyRow>, b: seq<KeyRow>, key: seq<byte>)
    ensures Matches(a + b, key) == Matches(a, key) + Matches(b, key)
    decreases |b|
  {
    if b == [] {
      assert a + b == a;
    } else {
      var n := |b| - 1;
      assert (a + b)[..|a| + n] == a + b[..n];
      MatchesConcat(a, b[..n], key);
    }
  }

  lemma {:induction false} MatchesOnLine(found: seq<Found>, line: nat, key: seq<byte>)
    ensures Matches(RowsOf(found, line), key) == seq(Times(found, key), _ => line)
  {
    if found != [] {
      var n := |found| - 1;
      MatchesOnLine(found[..n], line, key);
      assert RowsOf(found, line)[..n] == RowsOf(found[..n], line);
    }
  }

  /** The numbers name these positions among the saved lines. */
  ghost predicate Names(kept: seq<nat>, numbers: seq<nat>, positions: seq<nat>) {
    && |numbers| == |positions|
    && forall k :: 0 <= k < |numbers| ==> 1 <= numbers[k] <= |kept| && kept[numbers[k] - 1] == positions[k]
  }

  lemma {:induction false} NamesMore(kept: seq<nat>, kept': seq<nat>, numbers: seq<nat>, positions: seq<nat>, times: nat, j: nat)
    requires Names(kept, numbers, positions)
    requires kept' == kept + [j] || (kept' == kept && times == 0)
    ensures Names(kept', numbers + seq(times, _ => |kept| + 1), positions + seq(times, _ => j))
  {
  }

  /** A query visits exactly the lines that a plain scan with the same indexer finds, each as often, under
      the numbers that they are saved under: sparse or not. */
  lemma {:induction false} QueryFinds(cfg: Config, i: nat, ls: seq<Line>, key: seq<byte>)
    requires i < |cfg.indexers|
    ensures Names(Kept(cfg, ls), Matches(TableOf(cfg, i, ls), key), PlainScan(cfg, i, ls, key))
  {
    if ls != [] {
      var j := |ls| - 1;
      var init := ls[..j];
      QueryFinds(cfg, i, init, key);
      var found, line := FoundOn(cfg, i, ls, j), |Kept(cfg, init)| + 1;
      MatchesConcat(TableOf(cfg, i, init), RowsOf(found, line), key);
      MatchesOnLine(found, line, key);
      if found != [] {
        assert cfg.indexers[i].find(ls[j]) != [];
        assert AnyKey(cfg, ls[j], |cfg.indexers|);
      }
      NamesMore(Kept(cfg, init), Kept(cfg, ls), Matches(TableOf(cfg, i, init), key), PlainScan(cfg, i, init, key), Times(found, key), j);
    }
  }

  /** Every row names a saved line, on which the indexer finds the row's key at the row's offset. */
  lemma {:induction false} RowNamesLine(cfg: Config, i: nat, ls: seq<Line>, a: nat)
    requires i < |cfg.indexers| && a < |TableOf(cfg, i, ls)|
    ensures var row, kept := TableOf(cfg, i, ls)[a], Kept(cfg, ls);
            && 1 <= row.line <= |kept| && cfg.skipFirst <= kept[row.line - 1]
            && Found(row.key, row.offset) in cfg.indexers[i].find(ls[kept[row.line - 1]])
    decreases |ls|
  {
    var j := |ls| - 1;
    var before := TableOf(cfg, i, ls[..j]);
    if a < |before| {
      RowNamesLine(cfg, i, ls[..j], a);
    } else {
      var found := FoundOn(cfg, i, ls, j);
      assert found[a - |before|] in cfg.indexers[i].find(ls[j]);
      assert AnyKey(cfg, ls[j], |cfg.indexers|);
    }
  }

  /** And every key that an indexer finds on a line that is not skipped has a row, which names that line. */
  lemma {:induction false} FoundHasRow(cfg: Config, i: nat, ls: seq<Line>, j: nat, k: nat) returns (a: nat)
    requires i < |cfg.indexers| && cfg.skipFirst <= j < |ls| && k < |cfg.indexers[i].find(ls[j])|
    ensures a < |TableOf(cfg, i, ls)|
    ensures var row, kept, f := TableOf(cfg, i, ls)[a], Kept(cfg, ls), cfg.indexers[i].find(ls[j])[k];
            row.key == f.key && row.offset == f.offset && 1 <= row.line <= |kept| && kept[row.line - 1] == j
    decreases |ls|
  {
    var n := |ls| - 1;
    if j < n {
      a := FoundHasRow(cfg, i, ls[..n], j, k);
    } else {
      a := |TableOf(cfg, i, ls[..n])| + k;
      assert AnyKey(cfg, ls[j], |cfg.indexers|);
    }
  }
}
