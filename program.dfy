/**
 * `run`: read the measurements either with the sequential scan or with the
 * chunked workers, then render the report.
 */
module Program {
  import opened Wrappers
  import opened Bytes
  import opened Aggregation
  import opened Lines
  import opened Sequential
  import opened Chunking
  import opened Concurrent
  import opened Ordering
  import opened Output

  /** The keys of a set in some order, each once. */
  ghost function ListOf(ks: set<Key>): (s: seq<Key>)
    ensures NoDuplicates(s) && Elements(s) == ks
    decreases ks
  {
    if ks == {} then []
    else
      var k :| k in ks;
      var rest := ListOf(ks - {k});
      var s := [k] + rest;
      assert Elements(s) == {k} + Elements(rest) by {
        assert s[0] == k && k in Elements(s);
        forall x | x in Elements(rest) ensures x in Elements(s) {
          var i :| 0 <= i < |rest| && rest[i] == x;
          assert s[i + 1] == x;
        }
        forall x | x in Elements(s) ensures x == k || x in Elements(rest) {
          var i :| 0 <= i < |s| && s[i] == x;
          if i > 0 {
            assert rest[i - 1] == x;
          }
        }
      }
      [k] + rest
  }

  /** The names of a key list are keys of the map. */
  lemma KeyListListed(l: seq<Key>, m: map<Key, Location>)
    requires KeyList(l, m)
    ensures Listed(l, m)
  {
    forall i | 0 <= i < |l| ensures l[i] in m {
      assert l[i] in Elements(l);
    }
  }

  /** Sorting keeps exactly the names it was given. */
  lemma SortedListed(l: seq<Key>, m: map<Key, Location>)
    requires Listed(l, m)
    ensures Listed(SortKeys(l), m)
  {
    var s := SortKeys(l);
    forall i | 0 <= i < |s| ensures s[i] in m {
      assert s[i] in multiset(s);
      var j :| 0 <= j < |l| && l[j] == s[i];
    }
  }

  /** The report for an aggregate map: every key, in ascending byte order. */
  ghost function Report(m: map<Key, Location>): seq<Byte> {
    var names := SortKeys(ListOf(m.Keys));
    KeyListListed(ListOf(m.Keys), m);
    SortedListed(ListOf(m.Keys), m);
    Render(names, m)
  }

  /** `createResult` on any key list of a map writes the map's report, and never fails. */
  method CreateReport(locations: seq<Key>, locationMap: map<Key, Location>) returns (r: Result<seq<Byte>, Error>)
    requires KeyList(locations, locationMap)
    ensures r == Success(Report(locationMap))
  {
    var buffer := new Key[|locations|](i requires 0 <= i < |locations| => locations[i]);
    assert buffer[..] == locations;
    r := CreateResult(buffer, locationMap);
    KeyListsSortAlike(locations, ListOf(locationMap.Keys), locationMap);
    KeyListListed(locations, locationMap);
    SortedListed(locations, locationMap);
  }

  /**
   * `run` on the bytes of the file: the sequential scan reads the scanner's
   * lines, the concurrent path the 80 KiB chunks; either way the report is
   * that of what was read, and on a well-formed file both give the report of
   * its records.
   */
  method Run(data: seq<Byte>, concurrency: bool) returns (r: Result<seq<Byte>, Error>)
    requires concurrency ==> Progress(data, ChunkSize)
    requires !concurrency ==> forall i :: 0 <= i < |ScannerLines(data)| ==> ScanSafe(ScannerLines(data)[i])
    ensures concurrency ==> r == Success(Report(Aggregate(Concat(ChunkRuns(data, ChunkSize, 0)))))
    ensures !concurrency ==> r == Success(Report(Aggregate(ScanEntries(ScannerLines(data)))))
    ensures WellFormedFile(data) ==> r == Success(Report(Aggregate(ChunkEntries(Split(data)))))
  {
    var locations: seq<Key>;
    var locationMap: map<Key, Location>;
    if concurrency {
      locations, locationMap := ParseFileWithConcurrency(data, ChunkSize);
    } else {
      locations, locationMap := ParseFile(ScannerLines(data));
      if WellFormedFile(data) {
        ScannerLinesAgree(data);
      }
    }
    r := CreateReport(locations, locationMap);
  }

  /**
   * On a well-formed file in which every 80 KiB window holds a newline, the
   * two paths of `run` aggregate the same map, and so write the same report.
   */
  lemma PathsAgree(data: seq<Byte>)
    requires WellFormedFile(data) && Progress(data, ChunkSize)
    ensures forall i :: 0 <= i < |ScannerLines(data)| ==> ScanSafe(ScannerLines(data)[i])
    ensures Aggregate(Concat(ChunkRuns(data, ChunkSize, 0))) == Aggregate(ScanEntries(ScannerLines(data)))
  {
    ScannerLinesAgree(data);
    assert data[0..] == data;
    ChunksCover(data, ChunkSize, 0);
  }

  /**
   * The sequential scan's entries are single readings, so every aggregate it
   * stores summarises its key's readings (`AggregateSummary`), has Count at
   * least 1, and reports a mean between its minimum and maximum.
   */
  lemma SequentialAggregates(data: seq<Byte>)
    requires forall i :: 0 <= i < |ScannerLines(data)| ==> ScanSafe(ScannerLines(data)[i])
    ensures Observations(ScanEntries(ScannerLines(data)))
    ensures var m := Aggregate(ScanEntries(ScannerLines(data)));
      forall k :: k in m ==>
        m[k].count >= 1 && m[k].min <= RoundHalfAway(m[k].total, m[k].count) <= m[k].max
  {
    var es := ScanEntries(ScannerLines(data));
    ScanEntriesObservations(ScannerLines(data));
    ObservationsValid(es);
    MeansBetween(Aggregate(es));
  }

  /**
   * The chunk workers' entries, chunk after chunk, are single readings, so
   * every aggregate the concurrent path stores summarises its key's readings,
   * has Count at least 1, and reports a mean between its minimum and maximum.
   */
  lemma ConcurrentAggregates(data: seq<Byte>)
    requires Progress(data, ChunkSize)
    ensures Observations(Concat(ChunkRuns(data, ChunkSize, 0)))
    ensures var m := Aggregate(Concat(ChunkRuns(data, ChunkSize, 0)));
      forall k :: k in m ==>
        m[k].count >= 1 && m[k].min <= RoundHalfAway(m[k].total, m[k].count) <= m[k].max
  {
    var cs := Chunks(data, ChunkSize, 0);
    ChunksCut(data, ChunkSize, 0);
    var runs := ChunkRuns(data, ChunkSize, 0);
    assert runs == Runs(data, cs);
    forall i | 0 <= i < |runs| ensures Observations(runs[i]) {
      ChunkEntriesObservations(Split(data[cs[i].start..cs[i].end]));
    }
    ObservationsConcat(runs);
    ObservationsValid(Concat(runs));
    MeansBetween(Aggregate(Concat(runs)));
  }
}
