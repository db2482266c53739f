/**
 * How the concurrent path cuts the file: `lineOrchestrator` hands out byte
 * ranges of at most `chunkSize` bytes, and `findNextLineBoundary` moves each
 * next start back to the last newline at or before the previous end.
 */
module Chunking {
  import opened Bytes

  /** The chunk size the program uses: 80 KiB. */
  const ChunkSize: nat := 1024 * 80

  /** The byte range [start, end) one worker reads. */
  datatype Chunk = Chunk(start: int, end: int)

  /**
   * `findNextLineBoundary`: from `start`, step back one byte at a time until a
   * one-byte read fails (an offset below zero or at or past the end of the
   * file) or reads '\n'; that offset is the result.
   */
  function LineBoundary(data: seq<Byte>, start: int): (r: int)
    ensures r <= start
    ensures start < 0 || start >= |data| || data[start] == NL ==> r == start
    ensures 0 <= start < |data| && data[start] != NL ==>
      && -1 <= r < start
      && (0 <= r ==> data[r] == NL)
      && forall q :: r < q <= start ==> data[q] != NL
    decreases if start < 0 then 0 else start + 1
  {
    if start < 0 || start >= |data| || data[start] == NL then start
    else LineBoundary(data, start - 1)
  }

  /** The loop of `findNextLineBoundary`, one byte read per step. */
  method FindNextLineBoundary(data: seq<Byte>, start: int) returns (r: int)
    ensures r == LineBoundary(data, start)
  {
    r := start;
    while true
      invariant LineBoundary(data, r) == LineBoundary(data, start)
      decreases if r < 0 then 0 else r + 1
    {
      if r < 0 || r >= |data| || data[r] == NL {
        return;
      }
      r := r - 1;
    }
  }

  /** A newline strictly after `s` and at most `chunkSize` bytes further on. */
  predicate NewlineWithin(data: seq<Byte>, s: int, chunkSize: nat) {
    exists q :: s < q <= s + chunkSize && 0 <= q < |data| && data[q] == NL
  }

  /**
   * What the loop needs to move forward: every window of `chunkSize` bytes that
   * ends before the end of the file holds a newline after its first byte.
   */
  predicate Progress(data: seq<Byte>, chunkSize: nat) {
    forall s :: 0 <= s && s + chunkSize < |data| ==> NewlineWithin(data, s, chunkSize)
  }

  /** The end of the chunk that starts at `start`. */
  function ChunkEnd(data: seq<Byte>, chunkSize: nat, start: int): (end: int)
    ensures end == start + chunkSize || end == |data|
    ensures end <= start + chunkSize
    ensures start <= |data| ==> start <= end <= |data|
  {
    if start + chunkSize > |data| then |data| else start + chunkSize
  }

  /**
   * Each start moves strictly forward, and stays at or before the end of the
   * chunk it follows; a start short of the end of the file is on a newline.
   */
  lemma NextStartAdvances(data: seq<Byte>, chunkSize: nat, start: int)
    requires chunkSize > 0 && Progress(data, chunkSize) && 0 <= start < |data|
    ensures var end := ChunkEnd(data, chunkSize, start);
      var next := LineBoundary(data, end);
      && start < next <= end
      && (next < |data| ==> data[next] == NL)
      && (next == |data| <==> end == |data|)
  {
    var end := ChunkEnd(data, chunkSize, start);
    if end < |data| && data[end] != NL {
      assert NewlineWithin(data, start, chunkSize);
      var q :| start < q <= start + chunkSize && 0 <= q < |data| && data[q] == NL;
    }
  }

  /** Without a newline in the window, the next start does not move past the current one. */
  lemma StallWithoutNewline(data: seq<Byte>, chunkSize: nat, start: int)
    requires 0 <= start && start + chunkSize < |data|
    requires !NewlineWithin(data, start, chunkSize)
    ensures LineBoundary(data, ChunkEnd(data, chunkSize, start)) <= start
  {
  }

  /** The chunks the loop hands out from `start` on, in order. */
  function Chunks(data: seq<Byte>, chunkSize: nat, start: int): seq<Chunk>
    requires chunkSize > 0 && Progress(data, chunkSize) && 0 <= start
    decreases |data| - start
  {
    if start >= |data| then []
    else
      var end := ChunkEnd(data, chunkSize, start);
      NextStartAdvances(data, chunkSize, start);
      [Chunk(start, end)] + Chunks(data, chunkSize, LineBoundary(data, end))
  }

  /**
   * How a run of chunks from `start` cuts the file: there is one exactly when
   * `start` is inside the file; the first starts at `start` and the last ends
   * at the end of the file; each is non-empty, reads at most `chunkSize`
   * bytes, and ends at the end of the file or `chunkSize` bytes on; each later
   * one starts on a newline, at the line boundary of the previous end,
   * strictly after the previous start and no later than the previous end.
   */
  predicate Cut(data: seq<Byte>, chunkSize: nat, start: int, cs: seq<Chunk>) {
    && (start < |data| <==> |cs| > 0)
    && (|cs| > 0 ==> cs[0].start == start && cs[|cs| - 1].end == |data|)
    && (forall i :: 0 <= i < |cs| ==>
          start <= cs[i].start < cs[i].end <= |data| && cs[i].end == ChunkEnd(data, chunkSize, cs[i].start))
    && (forall i :: 0 <= i < |cs| - 1 ==>
          cs[i + 1].start == LineBoundary(data, cs[i].end) && cs[i].start < cs[i + 1].start <= cs[i].end)
    && (forall i :: 0 < i < |cs| ==> 0 <= cs[i].start < |data| && data[cs[i].start] == NL)
  }

  /** The loop's chunks cut the file as `Cut` says: in order, overlapping only at a line's tail, with nothing left out. */
  lemma {:induction false} ChunksCut(data: seq<Byte>, chunkSize: nat, start: int)
    requires chunkSize > 0 && Progress(data, chunkSize) && 0 <= start
    ensures Cut(data, chunkSize, start, Chunks(data, chunkSize, start))
    decreases |data| - start
  {
    if start < |data| {
      var end := ChunkEnd(data, chunkSize, start);
      NextStartAdvances(data, chunkSize, start);
      var next := LineBoundary(data, end);
      ChunksCut(data, chunkSize, next);
      var rest := Chunks(data, chunkSize, next);
      var cs := [Chunk(start, end)] + rest;
      assert Chunks(data, chunkSize, start) == cs;
      forall i | 0 <= i < |cs| - 1
        ensures cs[i + 1].start == LineBoundary(data, cs[i].end) && cs[i].start < cs[i + 1].start <= cs[i].end
      {
        assert cs[i + 1] == rest[i];
        if i > 0 {
          assert cs[i] == rest[i - 1];
        }
      }
      forall i | 0 < i < |cs|
        ensures 0 <= cs[i].start < |data| && data[cs[i].start] == NL
      {
        assert cs[i] == rest[i - 1];
      }
      if rest != [] {
        assert cs[|cs| - 1] == rest[|rest| - 1];
      }
    }
  }

  /**
   * The loop of `lineOrchestrator`: while the start is inside the file, it
   * hands out [start, min(start + chunkSize, size)) and moves the start to the
   * line boundary of that end. The last end it reached is returned too.
   */
  method LineOrchestrator(data: seq<Byte>, chunkSize: nat) returns (chunks: seq<Chunk>, end: int)
    requires chunkSize > 0 && Progress(data, chunkSize)
    ensures chunks == Chunks(data, chunkSize, 0)
    ensures end == |data|
  {
    chunks := [];
    var start := 0;
    end := 0;
    while start < |data|
      invariant 0 <= start <= |data|
      invariant chunks + Chunks(data, chunkSize, start) == Chunks(data, chunkSize, 0)
      invariant start == |data| ==> end == |data|
      decreases |data| - start
    {
      end := start + chunkSize;
      if end > |data| {
        end := |data|;
      }
      NextStartAdvances(data, chunkSize, start);
      ghost var rest := Chunks(data, chunkSize, LineBoundary(data, end));
      assert Chunks(data, chunkSize, start) == [Chunk(start, end)] + rest;
      AppendAssoc(chunks, [Chunk(start, end)], rest);
      chunks := chunks + [Chunk(start, end)];
      start := FindNextLineBoundary(data, end);
    }
  }
}
