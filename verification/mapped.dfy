/** The Python program's `process_chunk` and `process_measurements`: each worker maps the
    file from the allocation-granularity boundary at or below its chunk's start up to its
    chunk's end, seeks to the chunk's start inside the map and reads lines until the map
    is exhausted. */
module MappedChunks {
  import opened Bytes
  import opened Registries
  import opened Chunks
  import opened Partitioning
  import opened Measurements

  /** `(start_byte // ALLOCATIONGRANULARITY) * ALLOCATIONGRANULARITY`: the largest multiple
      of the granularity at or below `start`; it is `start` itself exactly when `start` is
      a multiple of the granularity. */
  function MmapOffset(start: nat, granularity: nat): (offset: nat)
    requires granularity > 0
    ensures offset % granularity == 0
    ensures offset <= start < offset + granularity
    ensures offset == start <==> start % granularity == 0
  {
    DivBounds(start, granularity);
    (start / granularity) * granularity
  }

  lemma DivBounds(a: nat, g: nat)
    requires g > 0
    ensures ((a / g) * g) % g == 0
    ensures (a / g) * g <= a < (a / g) * g + g
    ensures (a / g) * g == a <==> a % g == 0
  {
    assert a == (a / g) * g + a % g;
    ModUnique((a / g) * g, g, a / g);
  }

  /** A multiple of `g` leaves no remainder. */
  lemma ModUnique(m: int, g: int, q: int)
    requires g > 0 && m == q * g
    ensures m % g == 0
  {
    var r := m % g;
    var d := m / g;
    assert m == d * g + r && 0 <= r < g;
    assert (q - d) * g == r;
    if q - d > 0 {
      MulAtLeast(q - d, g);
    } else if q - d < 0 {
      MulAtLeast(d - q, g);
      assert (q - d) * g == -((d - q) * g);
    }
  }

  lemma {:induction false} MulAtLeast(x: nat, g: nat)
    requires x >= 1
    ensures x * g >= g
    decreases x
  {
    if x > 1 {
      MulAtLeast(x - 1, g);
      assert x * g == (x - 1) * g + g;
    }
  }

  /** A read-only `mmap(fd, length, offset=offset)` as CPython answers it: an offset that
      is not a multiple of the allocation granularity is refused; a length of 0 maps from
      `offset` to the end of the file and is refused when `offset` is not below the file's
      size (so an empty file cannot be mapped); a map reaching past the end of the file is
      refused. */
  function Mmap(file: seq<byte>, offset: nat, length: nat, granularity: nat): (r: Option<seq<byte>>)
    requires granularity > 0
    ensures r.Some? ==> offset + |r.value| <= |file| && r.value == file[offset..offset + |r.value|]
    ensures r.Some? && length > 0 ==> |r.value| == length
    ensures r.Some? && length == 0 ==> offset + |r.value| == |file|
    ensures r.Some? <==>
      offset % granularity == 0 && (if length == 0 then offset < |file| else offset + length <= |file|)
  {
    if offset % granularity != 0 then None
    else if length == 0 then
      if offset < |file| then Some(file[offset..]) else None
    else if offset + length <= |file| then Some(file[offset..offset + length])
    else None
  }

  /** `process_chunk(source, start_byte, end_byte)` exactly as written, reading every line
      as `CORRECTED` does (`float` reads the value whatever follows it on the line): map
      `[offset, end_byte)` with `length = end_byte - offset`, seek to `start_byte - offset`
      (a seek past the map is refused) and read the lines up to the end of the map. */
  function MappedChunkAsWritten(file: seq<byte>, start: nat, end: nat, granularity: nat): Option<Table>
    requires granularity > 0 && start <= end <= |file|
  {
    var offset := MmapOffset(start, granularity);
    match Mmap(file, offset, end - offset, granularity)
    case None => None
    case Some(window) =>
      if start - offset <= |window| then Aggregate(CORRECTED, map[], window[start - offset..]) else None
  }

  /** `process_chunk` with an empty chunk read as empty instead of mapped: the worker that
      `ProcessChunkMapped` and `ProcessMeasurementsMapped` implement. */
  function MappedChunk(file: seq<byte>, start: nat, end: nat, granularity: nat): Option<Table>
    requires granularity > 0 && start <= end <= |file|
  {
    if start == end then Some(map[]) else MappedChunkAsWritten(file, start, end, granularity)
  }

  /** The corrected worker scans exactly the bytes of its chunk, for every chunk. */
  lemma MappedChunkScans(file: seq<byte>, start: nat, end: nat, granularity: nat)
    requires granularity > 0 && start <= end <= |file|
    ensures MappedChunk(file, start, end, granularity) == Aggregate(CORRECTED, map[], file[start..end])
  {
    if start == end {
      assert file[start..end] == [];
    } else {
      var offset := MmapOffset(start, granularity);
      var window := file[offset..end];
      assert Mmap(file, offset, end - offset, granularity) == Some(window);
      assert window[start - offset..] == file[start..end];
    }
  }

  /** The worker as written agrees with the corrected one on every non-empty chunk; on the
      empty chunk at the end of the file it fails exactly when the file's size is a
      multiple of the granularity (the map of length 0 at offset `S` is refused). */
  lemma MappedChunkAsWrittenFails(file: seq<byte>, start: nat, end: nat, granularity: nat)
    requires granularity > 0 && start <= end <= |file|
    ensures start < end ==>
      MappedChunkAsWritten(file, start, end, granularity) == MappedChunk(file, start, end, granularity)
    ensures start == end == |file| ==>
      (MappedChunkAsWritten(file, start, end, granularity) == None <==> |file| % granularity == 0)
    ensures start == end == |file| && |file| % granularity != 0 ==>
      MappedChunkAsWritten(file, start, end, granularity) == MappedChunk(file, start, end, granularity)
  {
    if start == end == |file| {
      var offset := MmapOffset(start, granularity);
      if |file| % granularity != 0 {
        var window := file[offset..];
        assert window[start - offset..] == [];
      }
    }
  }

  /** A file of one line whose size is a multiple of the granularity, split between two
      workers: the first chunk takes the whole line, the second is the empty chunk at `S`,
      and the worker as written fails on it, while the corrected worker reads nothing. */
  lemma OneLineTwoWorkers(file: seq<byte>, chunks: seq<Chunk>, granularity: nat)
    requires granularity > 0 && |file| > 0 && |file| % granularity == 0
    requires forall j :: 0 <= j < |file| - 1 ==> file[j] != NEWLINE
    requires |chunks| == 2 && Cuts(file, FloorDiv(|file|, 2), chunks)
    ensures chunks == [Chunk(0, |file|), Chunk(|file|, |file|)]
    ensures MappedChunkAsWritten(file, |file|, |file|, granularity) == None
    ensures MappedChunk(file, |file|, |file|, granularity) == Some(map[])
  {
    var half := FloorDiv(|file|, 2);
    assert chunks[..1][..0] == [];
    assert chunks[0].start == 0;
    PastNextStops(file, half, NEWLINE);
    assert chunks[0].end == |file|;
    MappedChunkAsWrittenFails(file, |file|, |file|, granularity);
  }

  /** `for line in iter(mmapped_file.readline, b"")`: from `lo`, hand every line of the
      map to `process_line` until the map is exhausted. */
  method ReadLines(window: seq<byte>, lo: nat) returns (r: Option<Table>)
    requires lo <= |window|
    ensures r == Aggregate(CORRECTED, map[], window[lo..])
  {
    var registry := new Registry();
    var pos := lo;
    assert window[lo..lo] == [];
    while pos < |window|
      invariant lo <= pos <= |window|
      invariant pos == lo || Boundary(window, pos)
      invariant Fold(CORRECTED, map[], Lines(window[lo..pos])) == Some(registry.entries)
      decreases |window| - pos
    {
      var next := SeekTo(window, pos, NEWLINE);
      LineEndBoundary(window, pos);
      ScanOneMore(CORRECTED, window, lo, pos, registry.entries);
      var ok := registry.ProcessLine(CORRECTED.decoder, Content(CORRECTED.strip, window[pos..next]));
      if !ok {
        ScanFails(CORRECTED, window, lo, next, |window|);
        assert window[lo..|window|] == window[lo..];
        return None;
      }
      pos := next;
    }
    assert window[lo..pos] == window[lo..];
    r := Some(registry.entries);
  }

  /** `process_chunk` of the Python program, reading an empty chunk as empty: map the
      chunk from the granularity boundary below it, seek to its start, and read its
      lines. */
  method ProcessChunkMapped(file: seq<byte>, start: nat, end: nat, granularity: nat) returns (r: Option<Table>)
    requires granularity > 0 && start <= end <= |file|
    ensures r == Aggregate(CORRECTED, map[], file[start..end])
  {
    if start == end {
      assert file[start..end] == [];
      return Some(map[]);
    }
    var offset := MmapOffset(start, granularity);
    var mapped := Mmap(file, offset, end - offset, granularity);
    assert mapped == Some(file[offset..end]);
    var window := mapped.value;
    assert window[start - offset..] == file[start..end];
    r := ReadLines(window, start - offset);
  }

  /** `process_measurements` of the Python program: chunks of `S // n` bytes pushed to the
      next line end, one worker per chunk, and the registries merged in chunk order
      (`Pool.starmap` keeps it). With no workers the division raises; an empty file cannot
      be mapped: both `None`. */
  method ProcessMeasurementsMapped(file: seq<byte>, n: nat, granularity: nat) returns (r: Option<Table>)
    requires granularity > 0
    ensures r == if n == 0 || |file| == 0 then None else Aggregate(CORRECTED, map[], file)
  {
    if n == 0 || |file| == 0 {
      return None;
    }
    var base := FloorDiv(|file|, n);
    FloorCovers(|file|, n);
    var chunks := Partition(file, n, base);
    CutsTile(file, base, chunks);
    var results: seq<Option<Table>> := [];
    for i := 0 to n
      invariant results == Scans(CORRECTED, file, chunks[..i])
    {
      var c := chunks[i];
      ChunkScan(file, chunks, i);
      ScansSnoc(CORRECTED, file, chunks, i);
      var scanned := ProcessChunkMapped(file, c.start, c.end, granularity);
      results := results + [scanned];
    }
    assert chunks[..n] == chunks;
    TiledAggregate(CORRECTED, file, chunks);
    r := Collect(results, Range(n));
  }

  /** `process_chunk` of the Python program as written: map `[offset, end_byte)`, seek to
      the chunk's start and read the lines of the map. It reads exactly its chunk, except
      for an empty chunk starting on a granularity boundary: there the length `0` maps the
      rest of the file, which it then reads, and at the end of the file the map is
      refused. */
  method ProcessChunkMappedAsWritten(file: seq<byte>, start: nat, end: nat, granularity: nat) returns (r: Option<Table>)
    requires granularity > 0 && start <= end <= |file|
    ensures start < end || start % granularity != 0 ==> r == Aggregate(CORRECTED, map[], file[start..end])
    ensures start == end && start % granularity == 0 ==>
      r == if start < |file| then Aggregate(CORRECTED, map[], file[start..]) else None
  {
    var offset := MmapOffset(start, granularity);
    var mapped := Mmap(file, offset, end - offset, granularity);
    if mapped.None? {
      return None;
    }
    var window := mapped.value;
    if start - offset > |window| {
      return None;
    }
    r := ReadLines(window, start - offset);
    if end - offset > 0 {
      assert window[start - offset..] == file[start..end];
    } else {
      assert window[start - offset..] == file[start..];
    }
  }

  /** What worker `k` as written returns, given that a chunk is empty only at the end of
      the file: the scan of its chunk, or a failure on the empty chunk at `S` when `S` is
      a multiple of the granularity. */
  function WorkerAsWritten(file: seq<byte>, c: Chunk, granularity: nat): Option<Table>
    requires granularity > 0
  {
    if c.start == |file| && |file| % granularity == 0 then None
    else Aggregate(CORRECTED, map[], Piece(file, c))
  }

  /** The outcomes of the workers as written, in chunk order. */
  function WorkersAsWritten(file: seq<byte>, chunks: seq<Chunk>, granularity: nat): (rs: seq<Option<Table>>)
    requires granularity > 0
    ensures |rs| == |chunks|
  {
    if chunks == [] then []
    else WorkersAsWritten(file, chunks[..|chunks| - 1], granularity) + [WorkerAsWritten(file, chunks[|chunks| - 1], granularity)]
  }

  /** Worker `k` as written returns `WorkerAsWritten`. */
  lemma {:induction false} WorkersIndex(file: seq<byte>, chunks: seq<Chunk>, granularity: nat, k: nat)
    requires granularity > 0 && k < |chunks|
    ensures WorkersAsWritten(file, chunks, granularity)[k] == WorkerAsWritten(file, chunks[k], granularity)
    decreases |chunks|
  {
    if k < |chunks| - 1 {
      WorkersIndex(file, chunks[..|chunks| - 1], granularity, k);
      assert chunks[..|chunks| - 1][k] == chunks[k];
    }
  }

  /** Worker `i` of a partition, run as written, returns `WorkerAsWritten`. */
  lemma WorkerStep(file: seq<byte>, base: nat, chunks: seq<Chunk>, i: nat, granularity: nat, scanned: Option<Table>)
    requires granularity > 0 && Cuts(file, base, chunks) && Tiling(file, chunks) && i < |chunks|
    requires var c := chunks[i]; c.start <= c.end <= |file|
    requires var c := chunks[i];
      (c.start < c.end || c.start % granularity != 0 ==> scanned == Aggregate(CORRECTED, map[], file[c.start..c.end]))
      && (c.start == c.end && c.start % granularity == 0 ==>
        scanned == if c.start < |file| then Aggregate(CORRECTED, map[], file[c.start..]) else None)
    ensures scanned == WorkerAsWritten(file, chunks[i], granularity)
  {
    ChunkScan(file, chunks, i);
    EmptyChunk(file, base, chunks, i);
  }

  /** `process_measurements` of the Python program as written. It equals one scan of the
      whole file unless the boundary loop reaches the end of the file within `n - 1`
      turns, leaving an empty last chunk at `S`, and `S` is a multiple of the
      granularity: then the last worker's map is refused and the run fails. */
  method ProcessMeasurementsMappedAsWritten(file: seq<byte>, n: nat, granularity: nat) returns (r: Option<Table>)
    requires granularity > 0
    ensures r == if n == 0 || |file| == 0 then None
      else if Reach(file, FloorDiv(|file|, n), n - 1) == |file| && |file| % granularity == 0 then None
      else Aggregate(CORRECTED, map[], file)
  {
    if n == 0 || |file| == 0 {
      return None;
    }
    var base := FloorDiv(|file|, n);
    FloorCovers(|file|, n);
    var chunks := Partition(file, n, base);
    CutsTile(file, base, chunks);
    var results: seq<Option<Table>> := [];
    for i := 0 to n
      invariant results == WorkersAsWritten(file, chunks[..i], granularity)
    {
      var c := chunks[i];
      ChunkScan(file, chunks, i);
      var scanned := ProcessChunkMappedAsWritten(file, c.start, c.end, granularity);
      WorkerStep(file, base, chunks, i, granularity, scanned);
      assert chunks[..i + 1][..i] == chunks[..i];
      results := results + [scanned];
    }
    assert chunks[..n] == chunks;
    r := Collect(results, Range(n));
    AsWrittenOutcome(file, base, chunks, results, granularity);
  }

  /** The workers as written, merged: the run fails on a refused empty last chunk, and
      otherwise every worker scans its chunk and the merge is one scan of the file. */
  lemma AsWrittenOutcome(file: seq<byte>, base: nat, chunks: seq<Chunk>, results: seq<Option<Table>>, granularity: nat)
    requires granularity > 0 && Cuts(file, base, chunks) && Tiling(file, chunks)
    requires results == WorkersAsWritten(file, chunks, granularity)
    ensures Joined(results) ==
      if Reach(file, base, |chunks| - 1) == |file| && |file| % granularity == 0 then None
      else Aggregate(CORRECTED, map[], file)
  {
    var last := |chunks| - 1;
    if Reach(file, base, last) == |file| && |file| % granularity == 0 {
      EmptyChunk(file, base, chunks, last);
      WorkersIndex(file, chunks, granularity, last);
      JoinedNone(results, last);
    } else {
      var scans := Scans(CORRECTED, file, chunks);
      forall k | 0 <= k < |chunks| ensures results[k] == scans[k] {
        WorkerScans(file, base, chunks, k, granularity);
        ScansIndex(CORRECTED, file, chunks, k);
        WorkersIndex(file, chunks, granularity, k);
      }
      assert results == scans;
      TiledAggregate(CORRECTED, file, chunks);
    }
  }

  /** Unless the run fails on an empty last chunk, every worker as written scans its
      chunk. */
  lemma WorkerScans(file: seq<byte>, base: nat, chunks: seq<Chunk>, k: nat, granularity: nat)
    requires granularity > 0 && Cuts(file, base, chunks) && k < |chunks|
    requires !(Reach(file, base, |chunks| - 1) == |file| && |file| % granularity == 0)
    ensures WorkerAsWritten(file, chunks[k], granularity) == Aggregate(CORRECTED, map[], Piece(file, chunks[k]))
  {
    EmptyChunk(file, base, chunks, k);
  }
}
