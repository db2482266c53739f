/**
 * What one line contributes: `processLine` for the chunk workers, and the body
 * of the sequential scan's loop, which reads every line that has a ';'.
 */
module Lines {
  import opened Wrappers
  import opened Bytes
  import opened FixedPoint
  import opened Aggregation

  /** The completeness check: a value of at least three bytes whose second-to-last byte is '.'. */
  predicate Complete(val: seq<Byte>) {
    |val| >= 3 && val[|val| - 2] == DOT
  }

  /** What `processLine` does with a line, including the run-time panic of an index out of range. */
  datatype LineOutcome = Skipped | Accepted(entry: Entry) | IndexOutOfRange

  /**
   * `processLine` as written: it skips an empty line, a line without ';' and a
   * value that fails the completeness check, and otherwise parses the value.
   * A value "-.X" passes the check, and `parseNumber` then reads index 3 of
   * the two bytes ".X".
   */
  function ProcessLineAsWritten(line: seq<Byte>): LineOutcome {
    if line == [] then Skipped
    else
      var splitIndex := IndexOf(line, SEMI);
      if splitIndex == -1 then Skipped
      else
        var val := line[splitIndex + 1..];
        if !Complete(val) then Skipped
        else if !ParseSafe(val) then IndexOutOfRange
        else Accepted(Entry(line[..splitIndex], Single(ParseNumber(val))))
  }

  /** The check lets through exactly one shape that the parser cannot read: "-.X". */
  lemma CompleteButUnreadable(val: seq<Byte>)
    ensures Complete(val) && !ParseSafe(val) <==> |val| == 3 && val[0] == MINUS && val[1] == DOT
  {
  }

  /** The line "x;-.5" panics as written. */
  lemma AsWrittenPanicsOnMinusDot()
    ensures ProcessLineAsWritten([120, SEMI, MINUS, DOT, 53]) == IndexOutOfRange
  {
    var line: seq<Byte> := [120, SEMI, MINUS, DOT, 53];
    assert IndexOf(line, SEMI) == 1 by {
      assert line[0] != SEMI && line[1] == SEMI;
      assert line[1..][0] == SEMI;
    }
    assert line[2..] == [MINUS, DOT, 53];
  }

  /**
   * `processLine` with the value also required to be readable: it skips the
   * lines that panic as written and otherwise does what the source does,
   * yielding the prefix before the first ';' and a singleton aggregate.
   */
  function ProcessLine(line: seq<Byte>): (r: Option<Entry>)
    ensures ProcessLineAsWritten(line) == IndexOutOfRange ==> r == None
    ensures ProcessLineAsWritten(line) == Skipped ==> r == None
    ensures ProcessLineAsWritten(line).Accepted? ==> r == Some(ProcessLineAsWritten(line).entry)
    ensures r.Some? ==>
      && SEMI !in r.value.key
      && |r.value.key| < |line| && line[..|r.value.key| + 1] == r.value.key + [SEMI]
      && r.value.loc == Single(r.value.loc.total)
  {
    if line == [] then None
    else
      var splitIndex := IndexOf(line, SEMI);
      if splitIndex == -1 then None
      else
        var locationName := line[..splitIndex];
        var val := line[splitIndex + 1..];
        if !Complete(val) || !ParseSafe(val) then None
        else
          assert line[..splitIndex + 1] == locationName + [SEMI];
          Some(Entry(locationName, Single(ParseNumber(val))))
  }

  /** A record line: a key without ';' or newline, ';', and a well-formed value. */
  function RecordLine(key: Key, v: int): seq<Byte> {
    key + [SEMI] + FormatTenths(v)
  }

  /** A line written from a record is read back as that record. */
  lemma ProcessRecordLine(key: Key, v: int)
    requires SEMI !in key && -999 <= v <= 999
    ensures ProcessLine(RecordLine(key, v)) == Some(Entry(key, Single(v)))
  {
    var line := RecordLine(key, v);
    assert line[|key|] == SEMI && line[..|key|] == key;
    IndexOfSplit(line, |key|);
    assert line[|key| + 1..] == FormatTenths(v);
    FormatThenParse(v);
  }

  lemma IndexOfSplit(s: seq<Byte>, i: nat)
    requires i < |s| && s[i] == SEMI && SEMI !in s[..i]
    ensures IndexOf(s, SEMI) == i
  {
  }

  /** A line of a well-formed file: no ';' at all, or a well-formed value after the first ';'. */
  predicate WellFormedLine(line: seq<Byte>) {
    SEMI !in line || ValueShape(line[IndexOf(line, SEMI) + 1..])
  }

  /** Lines that are all well-formed. */
  predicate WellFormedLines(lines: seq<seq<Byte>>) {
    forall i :: 0 <= i < |lines| ==> WellFormedLine(lines[i])
  }

  /** A well-formed file: every piece between newlines is a well-formed line. */
  predicate WellFormedFile(data: seq<Byte>) {
    WellFormedLines(Split(data))
  }

  /** No strict prefix of a well-formed value passes the completeness check. */
  lemma StrictPrefixIncomplete(v: seq<Byte>, n: nat)
    requires ValueShape(v) && n < |v|
    ensures !Complete(v[..n])
  {
  }

  /**
   * A chunk cut off inside a well-formed line leaves a strict prefix of it,
   * and every such prefix is skipped.
   */
  lemma StrictPrefixSkipped(line: seq<Byte>, n: nat)
    requires WellFormedLine(line) && n < |line|
    ensures ProcessLine(line[..n]) == None
  {
    if SEMI in line[..n] {
      IndexOfTruncated(line, n, SEMI);
      var i := IndexOf(line, SEMI);
      TailOfPrefix(line, i, n);
      StrictPrefixIncomplete(line[i + 1..], n - i - 1);
    }
  }

  /** The entries the chunk worker folds in: one per line it accepts, in order. */
  function ChunkEntries(lines: seq<seq<Byte>>): seq<Entry> {
    if lines == [] then []
    else
      var r := ProcessLine(lines[|lines| - 1]);
      ChunkEntries(lines[..|lines| - 1]) + (if r.Some? then [r.value] else [])
  }

  lemma {:induction false} ChunkEntriesAppend(a: seq<seq<Byte>>, b: seq<seq<Byte>>)
    ensures ChunkEntries(a + b) == ChunkEntries(a) + ChunkEntries(b)
    decreases |b|
  {
    if b == [] {
      assert a + b == a;
    } else {
      assert (a + b)[..|a + b| - 1] == a + b[..|b| - 1];
      ChunkEntriesAppend(a, b[..|b| - 1]);
    }
  }

  lemma ChunkEntriesObservations(lines: seq<seq<Byte>>)
    ensures Observations(ChunkEntries(lines))
  {
    if lines != [] {
      ChunkEntriesObservations(lines[..|lines| - 1]);
    }
  }

  /** What the sequential scan needs of a line: a value it can read after a ';'. */
  predicate ScanSafe(line: seq<Byte>) {
    SEMI in line ==> ParseSafe(line[IndexOf(line, SEMI) + 1..])
  }

  /** The sequential scan's reading of a line: skipped without ';', otherwise parsed as it is. */
  function ScanLine(line: seq<Byte>): (r: Option<Entry>)
    requires ScanSafe(line)
    ensures r.None? <==> SEMI !in line
  {
    var splitIndex := IndexOf(line, SEMI);
    if splitIndex == -1 then None
    else Some(Entry(line[..splitIndex], Single(ParseNumber(line[splitIndex + 1..]))))
  }

  /** The entries the sequential scan folds in. */
  function ScanEntries(lines: seq<seq<Byte>>): seq<Entry>
    requires forall i :: 0 <= i < |lines| ==> ScanSafe(lines[i])
  {
    if lines == [] then []
    else
      var r := ScanLine(lines[|lines| - 1]);
      ScanEntries(lines[..|lines| - 1]) + (if r.Some? then [r.value] else [])
  }

  /** Every line the sequential scan reads gives a single reading (Min = Max = Total, Count 1). */
  lemma {:induction false} ScanEntriesObservations(lines: seq<seq<Byte>>)
    requires forall i :: 0 <= i < |lines| ==> ScanSafe(lines[i])
    ensures Observations(ScanEntries(lines))
    decreases |lines|
  {
    if lines != [] {
      ScanEntriesObservations(lines[..|lines| - 1]);
    }
  }

  /**
   * On a well-formed line the two readings agree: the sequential scan can read
   * it, and it yields what the chunk worker yields.
   */
  lemma WellFormedLineAgrees(line: seq<Byte>)
    requires WellFormedLine(line)
    ensures ScanSafe(line) && ScanLine(line) == ProcessLine(line)
  {
  }

  lemma {:induction false} WellFormedLinesAgree(lines: seq<seq<Byte>>)
    requires forall i :: 0 <= i < |lines| ==> WellFormedLine(lines[i])
    ensures forall i :: 0 <= i < |lines| ==> ScanSafe(lines[i])
    ensures ScanEntries(lines) == ChunkEntries(lines)
    decreases |lines|
  {
    forall i | 0 <= i < |lines| ensures ScanSafe(lines[i]) {
      WellFormedLineAgrees(lines[i]);
    }
    if lines != [] {
      WellFormedLinesAgree(lines[..|lines| - 1]);
      WellFormedLineAgrees(lines[|lines| - 1]);
    }
  }
}
