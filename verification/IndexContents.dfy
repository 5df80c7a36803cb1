/** What a successful build guarantees: when it succeeds, that decoding can start at every recorded checkpoint,
    and what a query finds. */
module IndexContents {
  import opened Prelude
  import opened BitPacking
  import opened Deflate
  import opened GzipFile
  import opened Checkpoints
  import opened FilePlan
  import opened Layout
  import opened TextLines
  import opened Indexing
  import opened IndexTables
  import opened IndexBuilding
  import opened Resuming
  import opened IndexReading
  import opened SavedLines
  import opened IndexQueries

  // ----- what can go wrong

  /** Building fails exactly when zlib rejects the file, a member that another one follows ends on its last
      checkpoint, or a unique index gets a key twice. */
  lemma {:induction false} AcceptsWhen(codec: Codec, s: seq<byte>, every: nat, cfg: Config)
    ensures var pl := PlanOf(codec, s);
            Accepts(pl, Clean(codec, s), every, cfg, pl.text) <==>
              && Clean(codec, s)
              && (forall i :: 0 <= i && i + 1 < |pl.outs| ==> !pl.Marking().EndsOnMark(every, i))
              && Unique(cfg, AllLines(pl.text), |cfg.indexers|)
  {
    var pl := PlanOf(codec, s);
    PlanOfValid(codec, s);
    pl.Marking().DistinctWhen(every);
    ScanIndexes(cfg, AllLines(pl.text));
  }

  // ----- checkpoints

  /** Decoding can start at this access point: the primed bits and the bytes from its compressed offset on,
      with its window as dictionary, decode to the text of member i from `key` on. */
  ghost predicate DecodesFrom(codec: Codec, s: seq<byte>, pl: Plan, key: nat, ap: AccessPoint, i: nat, width: nat) {
    && i < |pl.outs| && pl.Base(i) <= key <= pl.Base(i + 1) <= |pl.text|
    && ap.bitOffset < 8 && ap.compressedOffset <= |s| && (ap.bitOffset > 0 ==> ap.compressedOffset > 0)
    && RawDecode(codec, Primed(s, ap.compressedOffset, ap.bitOffset) + Bits(s[ap.compressedOffset..]), ap.window)
       == Some(Raw(pl.text[key..pl.Base(i + 1)], width))
  }

  /** The checkpoint behind a row. */
  lemma {:induction false} PointOf(pl: Plan, marks: seq<Mark>, n: nat, aps: map<nat, AccessPoint>, key: nat) returns (k: Mark)
    requires pl.Marking().AreMarks(marks) && PointsFit(pl, marks, n, aps) && key in aps
    ensures pl.Marking().IsMark(k) && pl.Marking().Out(k) == key
    ensures PointFits(pl, k, aps[key].compressedOffset, aps[key].bitOffset, aps[key].window)
  {
    hide PointFits;
    assert IsKey(pl, marks, n, key);
    var j :| 0 <= j < n && pl.Marking().Out(marks[j]) == key;
    assert HasPoint(pl, marks, j, aps);
    k := marks[j];
  }

  /** Random access equals sequential decoding at every checkpoint that building records. */
  lemma {:induction false} EveryCheckpointDecodes(codec: Codec, s: seq<byte>, every: nat, cfg: Config, b: Built, key: nat)
    returns (i: nat, width: nat)
    requires Describes(b, PlanOf(codec, s), every, cfg, PlanOf(codec, s).text) && key in b.accessPoints
    ensures DecodesFrom(codec, s, PlanOf(codec, s), key, b.accessPoints[key], i, width)
  {
    hide RawDecode, Bits, Primed, ScanLines, AllLines, PointFits, PointsFit, Decodes;
    var pl := PlanOf(codec, s);
    var marks, ap := pl.Marking().FileMarks(every), b.accessPoints[key];
    PlanDecodes(codec, s);
    var k := PointOf(pl, marks, if |pl.text| == 0 then 0 else |marks|, b.accessPoints, key);
    i := k.member;
    width := Resumption(codec, s, pl, k, ap.compressedOffset, ap.bitOffset, ap.window);
  }

  // ----- queries

  /** zindex, then zq with a key: the lines visited are exactly those on which a plain scan of the decompressed
      text finds the key, each under the number by which its text can be fetched. */
  method BuildThenQuery(codec: Codec, compressed: seq<byte>, indexEvery: nat, cfg: Config, i: nat, key: seq<byte>)
    returns (built: bool, matches: nat, visited: seq<nat>)
    requires compressed != [] && i < |cfg.indexers|
    ensures var pl := PlanOf(codec, compressed);
            var ls := AllLines(pl.text);
            && (built <==> Accepts(pl, Clean(codec, compressed), indexEvery, cfg, pl.text))
            && (built ==> matches == |visited| && Names(Kept(cfg, ls), visited, PlainScan(cfg, i, ls, key)))
  {
    var b := Build(codec, compressed, indexEvery, cfg);
    built, matches, visited := b.Ok?, 0, [];
    ghost var ls := AllLines(PlanOf(codec, compressed).text);
    ScanIndexes(cfg, ls);
    if built {
      QueryFinds(cfg, i, ls, key);
      matches, visited := QueryIndex(b.value.keys[i], key);
    }
  }
}
