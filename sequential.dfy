/**
 * The sequential scan (`parseFile`): one pass over the scanner's lines,
 * accumulating into a map and appending each new key to an ordered key list.
 */
module Sequential {
  import opened Wrappers
  import opened Bytes
  import opened FixedPoint
  import opened Aggregation
  import opened Lines

  /**
   * The lines `bufio.Scanner` yields for a file: the pieces between newlines,
   * without the empty piece after a final newline (and none for an empty file).
   */
  function ScannerLines(data: seq<Byte>): (lines: seq<seq<Byte>>)
    ensures Split(data)[|Split(data)| - 1] != [] ==> lines == Split(data)
    ensures Split(data)[|Split(data)| - 1] == [] ==> lines + [[]] == Split(data)
  {
    DropEmptyLast(Split(data))
  }

  /** The pieces without the last one when that one is empty. */
  function DropEmptyLast(pieces: seq<seq<Byte>>): (lines: seq<seq<Byte>>)
    requires |pieces| >= 1
    ensures pieces[|pieces| - 1] != [] ==> lines == pieces
    ensures pieces[|pieces| - 1] == [] ==> lines + [[]] == pieces
  {
    if pieces[|pieces| - 1] == [] then pieces[..|pieces| - 1] else pieces
  }

  /** The keys of `es` in the order of their first occurrence. */
  function FirstOccurrences(es: seq<Entry>): seq<Key> {
    if es == [] then []
    else
      var es', e := es[..|es| - 1], es[|es| - 1];
      FirstOccurrences(es') + (if e.key in Aggregate(es') then [] else [e.key])
  }

  /**
   * `parseFile`'s loop over the scanner's lines: a line without ';' is
   * skipped; otherwise the prefix is the key and the rest is parsed, with no
   * completeness check (so every such value must be readable). A new key is
   * appended to `locations` and inserted with a singleton aggregate; a known
   * key has Count, Total, Max and Min updated in place.
   */
  method ParseFile(lines: seq<seq<Byte>>) returns (locations: seq<Key>, locationMap: map<Key, Location>)
    requires forall i :: 0 <= i < |lines| ==> ScanSafe(lines[i])
    ensures locationMap == Aggregate(ScanEntries(lines))
    ensures locations == FirstOccurrences(ScanEntries(lines))
    ensures KeyList(locations, locationMap)
  {
    locations := [];
    locationMap := map[];
    for i := 0 to |lines|
      invariant locationMap == Aggregate(ScanEntries(lines[..i]))
      invariant locations == FirstOccurrences(ScanEntries(lines[..i]))
    {
      var line := lines[i];
      ScanPrefixStep(lines, i);
      var splitIndex := IndexOf(line, SEMI);
      if splitIndex == -1 {
        assert ScanLine(line).None?;
        continue;
      }
      var locationName := line[..splitIndex];
      var temperature := ParseNumber(line[splitIndex + 1..]);
      assert ScanLine(line) == Some(Entry(locationName, Single(temperature)));
      if locationName !in locationMap {
        // a new key goes at the end of the ordered key list
        locations := locations + [locationName];
      }
      locationMap := Accumulate(locationMap, locationName, Single(temperature));
    }
    assert lines[..|lines|] == lines;
    FirstOccurrencesKeyList(ScanEntries(lines));
  }

  /** The first occurrences of the keys list every key of the aggregate exactly once. */
  lemma {:induction false} FirstOccurrencesKeyList(es: seq<Entry>)
    ensures KeyList(FirstOccurrences(es), Aggregate(es))
  {
    if es != [] {
      var es', e := es[..|es| - 1], es[|es| - 1];
      FirstOccurrencesKeyList(es');
      assert Aggregate(es) == Insert(Aggregate(es'), e);
      KeyListInsert(FirstOccurrences(es'), Aggregate(es'), e);
      if e.key in Aggregate(es') {
        assert FirstOccurrences(es) == FirstOccurrences(es');
      } else {
        assert FirstOccurrences(es) == FirstOccurrences(es') + [e.key];
      }
    }
  }

  /** One more line of the scan: its entry, if any, goes at the end of the entries and of the map's history. */
  lemma ScanPrefixStep(lines: seq<seq<Byte>>, i: nat)
    requires i < |lines| && forall j :: 0 <= j < |lines| ==> ScanSafe(lines[j])
    ensures ScanLine(lines[i]).None? ==> ScanEntries(lines[..i + 1]) == ScanEntries(lines[..i])
    ensures ScanLine(lines[i]).Some? ==>
      && Aggregate(ScanEntries(lines[..i + 1])) == Insert(Aggregate(ScanEntries(lines[..i])), ScanLine(lines[i]).value)
      && FirstOccurrences(ScanEntries(lines[..i + 1]))
         == FirstOccurrences(ScanEntries(lines[..i]))
            + (if ScanLine(lines[i]).value.key in Aggregate(ScanEntries(lines[..i])) then [] else [ScanLine(lines[i]).value.key])
  {
    assert lines[..i + 1][..i] == lines[..i];
    var r := ScanLine(lines[i]);
    var es := ScanEntries(lines[..i]);
    if r.Some? {
      var es' := es + [r.value];
      assert es'[..|es'| - 1] == es && es'[|es'| - 1] == r.value;
      assert ScanEntries(lines[..i + 1]) == es';
    }
  }

  /**
   * On a well-formed file the scanner's lines can all be read, and they yield
   * the entries the chunk workers take from the pieces between newlines: the
   * empty piece after a final newline contributes nothing either way.
   */
  lemma ScannerLinesAgree(data: seq<Byte>)
    requires WellFormedFile(data)
    ensures forall i :: 0 <= i < |ScannerLines(data)| ==> ScanSafe(ScannerLines(data)[i])
    ensures ScanEntries(ScannerLines(data)) == ChunkEntries(Split(data))
  {
    var pieces, lines := Split(data), ScannerLines(data);
    if lines != pieces {
      assert lines + [[]] == pieces;
      assert forall i :: 0 <= i < |lines| ==> lines[i] == pieces[i];
      ChunkEntriesAppend(lines, [[]]);
      var empty: seq<seq<Byte>> := [[]];
      assert ChunkEntries(empty) == [] by {
        assert ProcessLine([]) == None;
        assert empty[..0] == [];
      }
    }
    WellFormedLinesAgree(lines);
  }
}
