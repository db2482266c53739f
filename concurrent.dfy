/**
 * The concurrent path (`parseFileWithConcurrency`): one worker per chunk runs
 * `processChunk` on its bytes and publishes a chunk-local map; a single
 * consumer merges the published maps, in whatever order they arrive, into the
 * result map and the key list.
 */
module Concurrent {
  import opened Bytes
  import opened Aggregation
  import opened Lines
  import opened Chunking

  /** One more line of a chunk: its entry, if any, is folded in after the others. */
  lemma ChunkPrefixStep(lines: seq<seq<Byte>>, i: nat)
    requires i < |lines|
    ensures ProcessLine(lines[i]).None? ==> ChunkEntries(lines[..i + 1]) == ChunkEntries(lines[..i])
    ensures ProcessLine(lines[i]).Some? ==>
      Aggregate(ChunkEntries(lines[..i + 1])) == Insert(Aggregate(ChunkEntries(lines[..i])), ProcessLine(lines[i]).value)
  {
    assert lines[..i + 1][..i] == lines[..i];
    var r := ProcessLine(lines[i]);
    var es := ChunkEntries(lines[..i]);
    if r.Some? {
      var es' := es + [r.value];
      assert es'[..|es'| - 1] == es && es'[|es'| - 1] == r.value;
      assert ChunkEntries(lines[..i + 1]) == es';
    }
  }

  /**
   * `processChunk`: split the chunk's bytes on "\n" and fold in every line that
   * `processLine` accepts.
   */
  method ProcessChunk(input: seq<Byte>) returns (locationMap: map<Key, Location>)
    ensures locationMap == Aggregate(ChunkEntries(Split(input)))
  {
    locationMap := map[];
    var lines := Split(input);
    for i := 0 to |lines|
      invariant locationMap == Aggregate(ChunkEntries(lines[..i]))
    {
      ChunkPrefixStep(lines, i);
      var location := ProcessLine(lines[i]);
      if location.Some? {
        locationMap := Accumulate(locationMap, location.value.key, location.value.loc);
      }
    }
    assert lines[..|lines|] == lines;
  }

  /** The part of `m` on the keys `ks`. */
  function Restrict(m: map<Key, Location>, ks: set<Key>): (r: map<Key, Location>)
    ensures r.Keys == m.Keys * ks
    ensures forall k :: k in r ==> r[k] == m[k]
  {
    map k | k in m && k in ks :: m[k]
  }

  /** Merging the chunk map key by key: one more key is one more accumulate-or-insert. */
  lemma MergeRemainingStep(m: map<Key, Location>, c: map<Key, Location>, remaining: set<Key>, key: Key)
    requires remaining <= c.Keys && key in remaining
    ensures Merge(m, Restrict(c, c.Keys - (remaining - {key})))
         == Insert(Merge(m, Restrict(c, c.Keys - remaining)), Entry(key, c[key]))
  {
    var done := c.Keys - remaining;
    assert c.Keys - (remaining - {key}) == done + {key};
    var l, r := Merge(m, Restrict(c, done + {key})), Insert(Merge(m, Restrict(c, done)), Entry(key, c[key]));
    assert l.Keys == r.Keys;
    forall k | k in l ensures l[k] == r[k] {
    }
  }

  /** Once no key remains, the whole chunk map has been merged. */
  lemma MergeNoneRemaining(m: map<Key, Location>, c: map<Key, Location>)
    ensures Merge(m, Restrict(c, c.Keys - {})) == Merge(m, c)
  {
    assert Restrict(c, c.Keys - {}) == c;
  }

  /**
   * The body of the consumer's receive case: every key of the chunk map, in
   * the map's unspecified iteration order, is accumulated into the result map;
   * a key new to it is appended to the key list.
   */
  method MergeChunk(locations: seq<Key>, locationMap: map<Key, Location>, miniLocationMap: map<Key, Location>)
    returns (keys: seq<Key>, merged: map<Key, Location>)
    requires KeyList(locations, locationMap)
    ensures merged == Merge(locationMap, miniLocationMap)
    ensures KeyList(keys, merged)
    ensures |locations| <= |keys| && keys[..|locations|] == locations
  {
    keys, merged := locations, locationMap;
    var remaining := miniLocationMap.Keys;
    while remaining != {}
      invariant remaining <= miniLocationMap.Keys
      invariant merged == Merge(locationMap, Restrict(miniLocationMap, miniLocationMap.Keys - remaining))
      invariant KeyList(keys, merged)
      invariant |locations| <= |keys| && keys[..|locations|] == locations
      decreases remaining
    {
      var key :| key in remaining;
      var location := miniLocationMap[key];
      ghost var e := Entry(key, location);
      ghost var nextKeys := if key in merged then keys else keys + [key];
      assert KeyList(nextKeys, Insert(merged, e)) by {
        KeyListInsert(keys, merged, e);
      }
      assert nextKeys[..|locations|] == locations by {
        assert keys[..|locations|] == locations;
        assert nextKeys[..|keys|] == keys;
      }
      MergeRemainingStep(locationMap, miniLocationMap, remaining, key);
      if key !in merged {
        keys := keys + [key];
      }
      merged := Accumulate(merged, key, location);
      remaining := remaining - {key};
    }
    MergeNoneRemaining(locationMap, miniLocationMap);
  }

  /** The entries each chunk's worker folds in, chunk by chunk. */
  function Runs(data: seq<Byte>, cs: seq<Chunk>): (runs: seq<seq<Entry>>)
    requires forall i :: 0 <= i < |cs| ==> 0 <= cs[i].start <= cs[i].end <= |data|
    ensures |runs| == |cs|
    ensures forall i :: 0 <= i < |cs| ==> runs[i] == ChunkEntries(Split(data[cs[i].start..cs[i].end]))
  {
    if cs == [] then []
    else [ChunkEntries(Split(data[cs[0].start..cs[0].end]))] + Runs(data, cs[1..])
  }

  /** The entries the workers fold in, chunk by chunk, for the chunks the loop hands out from `start` on. */
  function ChunkRuns(data: seq<Byte>, chunkSize: nat, start: nat): seq<seq<Entry>>
    requires chunkSize > 0 && Progress(data, chunkSize)
  {
    ChunksCut(data, chunkSize, start);
    Runs(data, Chunks(data, chunkSize, start))
  }

  /** A suffix of well-formed lines is well-formed. */
  lemma WellFormedSuffix(a: seq<seq<Byte>>, b: seq<seq<Byte>>)
    requires WellFormedLines(a + b)
    ensures WellFormedLines(b)
  {
    assert forall i :: 0 <= i < |b| ==> b[i] == (a + b)[|a| + i];
  }

  /**
   * Cutting a range at a newline: its lines are those of the piece before the
   * newline followed by those after it; from the newline on, they are an
   * empty line followed by those after it.
   */
  lemma SplitAtCut(data: seq<Byte>, s: nat, n: nat, e: nat)
    requires s <= n < e <= |data| && data[n] == NL
    ensures Split(data[s..e]) == Split(data[s..n]) + Split(data[n + 1..e])
    ensures Split(data[n..e]) == [[]] + Split(data[n + 1..e])
  {
    SliceAt(data, s, n, e);
    SplitAppend(data[s..n], data[n + 1..e]);
    SliceAt(data, n, n, e);
    SplitAppend([], data[n + 1..e]);
    assert IndexOf([], NL) == -1;
  }

  /** `SplitAtCut` for the rest of the file. */
  lemma SplitRestAtCut(data: seq<Byte>, s: nat, n: nat)
    requires s <= n < |data| && data[n] == NL
    ensures Split(data[s..]) == Split(data[s..n]) + Split(data[n + 1..])
    ensures Split(data[n..]) == [[]] + Split(data[n + 1..])
  {
    SliceToEnd(data, s);
    SliceToEnd(data, n);
    SliceToEnd(data, n + 1);
    SplitAtCut(data, s, n, |data|);
  }

  /** An empty line in front of well-formed lines keeps them well-formed. */
  lemma WellFormedEmptyFirst(lines: seq<seq<Byte>>)
    requires WellFormedLines(lines)
    ensures WellFormedLines([[]] + lines)
  {
    assert forall i :: 0 < i < |lines| + 1 ==> ([[]] + lines)[i] == lines[i - 1];
  }

  /**
   * The tail a chunk reads past its last newline is a strict prefix of the
   * next line, so in a well-formed file the worker skips it.
   */
  lemma TailSkipped(data: seq<Byte>, n: nat, e: nat)
    requires n < e < |data| && data[n] == NL && data[e] != NL
    requires forall q :: n < q <= e ==> data[q] != NL
    requires WellFormedLines(Split(data[n + 1..]))
    ensures Split(data[n + 1..e]) == [data[n + 1..e]]
    ensures ChunkEntries(Split(data[n + 1..e])) == []
  {
    var p := data[n + 1..e];
    var rest := data[n + 1..];
    assert NL !in p by {
      forall j | 0 <= j < |p| ensures p[j] != NL {
        assert p[j] == data[n + 1 + j];
      }
    }
    assert IndexOf(p, NL) == -1;
    assert rest[..|p|] == p && rest[|p|] == data[e];
    FirstLineExtends(rest, |p|);
    var line := Split(rest)[0];
    assert line[..|p|] == p;
    StrictPrefixSkipped(line, |p|);
  }

  /** The runs from a start inside the file: the first chunk's entries, then the runs from the next start. */
  lemma RunsFirst(data: seq<Byte>, chunkSize: nat, s: nat)
    requires chunkSize > 0 && Progress(data, chunkSize) && s < |data|
    ensures var e := ChunkEnd(data, chunkSize, s);
      LineBoundary(data, e) >= 0 &&
      Concat(ChunkRuns(data, chunkSize, s))
        == ChunkEntries(Split(data[s..e])) + Concat(ChunkRuns(data, chunkSize, LineBoundary(data, e)))
  {
    var e := ChunkEnd(data, chunkSize, s);
    NextStartAdvances(data, chunkSize, s);
    var next := LineBoundary(data, e);
    var rest := Chunks(data, chunkSize, next);
    ChunksCut(data, chunkSize, s);
    ChunksCut(data, chunkSize, next);
    assert Chunks(data, chunkSize, s) == [Chunk(s, e)] + rest;
    var first := ChunkEntries(Split(data[s..e]));
    assert ([Chunk(s, e)] + rest)[1..] == rest;
    assert ChunkRuns(data, chunkSize, s) == [first] + ChunkRuns(data, chunkSize, next);
  }

  /**
   * A chunk whose end is past the next start reads a tail past it that is
   * skipped: it yields the entries of the lines before that start.
   */
  lemma TailDropped(data: seq<Byte>, s: nat, next: nat, e: nat)
    requires s < next < e < |data| && data[next] == NL && data[e] != NL
    requires forall q :: next < q <= e ==> data[q] != NL
    requires WellFormedLines(Split(data[next + 1..]))
    ensures ChunkEntries(Split(data[s..e])) == ChunkEntries(Split(data[s..next]))
  {
    var before, tail := Split(data[s..next]), Split(data[next + 1..e]);
    SplitAtCut(data, s, next, e);
    ChunkEntriesAppend(before, tail);
    TailSkipped(data, next, e);
    calc {
      ChunkEntries(Split(data[s..e]));
    ==
      ChunkEntries(before + tail);
    ==
      ChunkEntries(before) + ChunkEntries(tail);
    ==
      ChunkEntries(before) + [];
    ==
      ChunkEntries(before);
    }
  }

  /** The lines from a newline on, in a well-formed rest of the file, are well-formed. */
  lemma NextLinesWellFormed(data: seq<Byte>, s: nat, n: nat)
    requires s <= n < |data| && data[n] == NL
    requires WellFormedLines(Split(data[s..]))
    ensures WellFormedLines(Split(data[n + 1..]))
    ensures WellFormedLines(Split(data[n..]))
  {
    SplitRestAtCut(data, s, n);
    WellFormedSuffix(Split(data[s..n]), Split(data[n + 1..]));
    WellFormedEmptyFirst(Split(data[n + 1..]));
  }

  /**
   * One step of coverage: if the chunks from the next start cover the lines
   * from there, the chunks from `s` cover the lines from `s`.
   */
  lemma CoverStep(data: seq<Byte>, chunkSize: nat, s: nat, next: nat)
    requires chunkSize > 0 && Progress(data, chunkSize) && s < |data|
    requires ChunkEnd(data, chunkSize, s) < |data| && next == LineBoundary(data, ChunkEnd(data, chunkSize, s))
    requires WellFormedLines(Split(data[s..]))
    requires Concat(ChunkRuns(data, chunkSize, next)) == ChunkEntries(Split(data[next..]))
    ensures Concat(ChunkRuns(data, chunkSize, s)) == ChunkEntries(Split(data[s..]))
  {
    var e := ChunkEnd(data, chunkSize, s);
    NextStartAdvances(data, chunkSize, s);
    var before, after := Split(data[s..next]), Split(data[next + 1..]);
    var first, later := ChunkEntries(Split(data[s..e])), Concat(ChunkRuns(data, chunkSize, next));
    assert Concat(ChunkRuns(data, chunkSize, s)) == first + later by {
      RunsFirst(data, chunkSize, s);
    }
    assert first == ChunkEntries(before) by {
      if next < e {
        NextLinesWellFormed(data, s, next);
        TailDropped(data, s, next, e);
      }
    }
    assert later == ChunkEntries(after) by {
      SplitRestAtCut(data, s, next);
      ChunkEntriesAppend([[]], after);
      assert ChunkEntries([[]]) == [];
      assert [] + ChunkEntries(after) == ChunkEntries(after);
    }
    assert ChunkEntries(Split(data[s..])) == ChunkEntries(before) + ChunkEntries(after) by {
      SplitRestAtCut(data, s, next);
      ChunkEntriesAppend(before, after);
    }
  }

  /** Coverage at the end of the file, and for a last chunk that reaches it. */
  lemma CoverLast(data: seq<Byte>, chunkSize: nat, s: nat)
    requires chunkSize > 0 && Progress(data, chunkSize) && s <= |data|
    requires s == |data| || ChunkEnd(data, chunkSize, s) == |data|
    ensures Concat(ChunkRuns(data, chunkSize, s)) == ChunkEntries(Split(data[s..]))
  {
    if s == |data| {
      CoverEnd(data, chunkSize);
    } else {
      CoverLastChunk(data, chunkSize, s);
    }
  }

  /** At the end of the file there are no chunks and no entries. */
  lemma CoverEnd(data: seq<Byte>, chunkSize: nat)
    requires chunkSize > 0 && Progress(data, chunkSize)
    ensures Concat(ChunkRuns(data, chunkSize, |data|)) == ChunkEntries(Split(data[|data|..]))
  {
    assert ChunkRuns(data, chunkSize, |data|) == [];
    assert data[|data|..] == [];
    assert IndexOf([], NL) == -1;
  }

  /** A last chunk that reaches the end of the file reads all the rest of it. */
  lemma CoverLastChunk(data: seq<Byte>, chunkSize: nat, s: nat)
    requires chunkSize > 0 && Progress(data, chunkSize) && s < |data|
    requires ChunkEnd(data, chunkSize, s) == |data|
    ensures Concat(ChunkRuns(data, chunkSize, s)) == ChunkEntries(Split(data[s..]))
  {
    RunsFirst(data, chunkSize, s);
    assert data[s..|data|] == data[s..];
    assert LineBoundary(data, |data|) == |data|;
    CoverEnd(data, chunkSize);
    assert ChunkEntries(Split(data[|data|..])) == [];
  }

  /**
   * Coverage: in a well-formed file the entries the workers fold in, chunk by
   * chunk, are exactly the entries of the file's lines: a line cut off at the
   * end of one chunk is skipped there and read whole by the next one, and the
   * empty line before each next chunk's leading newline is skipped.
   */
  lemma {:induction false} ChunksCover(data: seq<Byte>, chunkSize: nat, s: nat)
    requires chunkSize > 0 && Progress(data, chunkSize) && s <= |data|
    requires WellFormedLines(Split(data[s..]))
    ensures Concat(ChunkRuns(data, chunkSize, s)) == ChunkEntries(Split(data[s..]))
    decreases |data| - s
  {
    if s == |data| || ChunkEnd(data, chunkSize, s) == |data| {
      CoverLast(data, chunkSize, s);
    } else {
      var next := LineBoundary(data, ChunkEnd(data, chunkSize, s));
      NextStartAdvances(data, chunkSize, s);
      NextLinesWellFormed(data, s, next);
      ChunksCover(data, chunkSize, next);
      CoverStep(data, chunkSize, s, next);
    }
  }

  /**
   * The workers `lineOrchestrator` starts, one per chunk: each reads its
   * chunk's bytes and publishes `processChunk` of them.
   */
  method RunWorkers(data: seq<Byte>, chunks: seq<Chunk>) returns (results: seq<map<Key, Location>>)
    requires forall i :: 0 <= i < |chunks| ==> 0 <= chunks[i].start <= chunks[i].end <= |data|
    ensures results == AggregateEach(Runs(data, chunks))
  {
    ghost var runs := Runs(data, chunks);
    results := [];
    for i := 0 to |chunks|
      invariant results == AggregateEach(runs[..i])
    {
      var miniLocationMap := ProcessChunk(data[chunks[i].start..chunks[i].end]);
      AggregateEachStep(runs, i, miniLocationMap);
      results := results + [miniLocationMap];
    }
    assert runs[..|chunks|] == runs;
  }

  /**
   * The consumer's receive loop: while published maps are pending, it takes
   * whichever arrives next and merges it into the result map and key list.
   * The result is the merge of all of them, whatever the arrival order.
   */
  method MergeResults(results: seq<map<Key, Location>>) returns (locations: seq<Key>, locationMap: map<Key, Location>)
    ensures locationMap == MergeAll(results)
    ensures KeyList(locations, locationMap)
  {
    locations := [];
    locationMap := map[];
    var pending := results;
    ghost var arrived: seq<map<Key, Location>> := [];
    while pending != []
      invariant multiset(arrived) + multiset(pending) == multiset(results)
      invariant locationMap == MergeAll(arrived)
      invariant KeyList(locations, locationMap)
      decreases |pending|
    {
      var j :| 0 <= j < |pending|;
      var miniLocationMap := pending[j];
      assert pending == pending[..j] + [miniLocationMap] + pending[j + 1..];
      pending := pending[..j] + pending[j + 1..];
      locations, locationMap := MergeChunk(locations, locationMap, miniLocationMap);
      assert (arrived + [miniLocationMap])[..|arrived|] == arrived;
      arrived := arrived + [miniLocationMap];
    }
    MergeAllPermutation(arrived, results);
  }

  /**
   * `parseFileWithConcurrency` together with `lineOrchestrator`: the loop
   * cuts the file into chunks, the workers process them, and the consumer
   * merges what they publish. Whatever the arrival order, the result is the
   * aggregate of every chunk's accepted lines, and for a well-formed file that
   * is the aggregate of the file's lines.
   */
  method ParseFileWithConcurrency(data: seq<Byte>, chunkSize: nat) returns (locations: seq<Key>, locationMap: map<Key, Location>)
    requires chunkSize > 0 && Progress(data, chunkSize)
    ensures locationMap == Aggregate(Concat(ChunkRuns(data, chunkSize, 0)))
    ensures WellFormedFile(data) ==> locationMap == Aggregate(ChunkEntries(Split(data)))
    ensures KeyList(locations, locationMap)
  {
    var chunks, _ := LineOrchestrator(data, chunkSize);
    ChunksCut(data, chunkSize, 0);
    var results := RunWorkers(data, chunks);
    locations, locationMap := MergeResults(results);
    MergeAllAggregates(ChunkRuns(data, chunkSize, 0));
    if WellFormedFile(data) {
      assert data[0..] == data;
      ChunksCover(data, chunkSize, 0);
    }
  }
}
