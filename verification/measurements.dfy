/** `process_measurements`: partition the file, scan every chunk in its own worker, and
    merge the workers' registries. The headline property: for every worker count `n >= 1`
    and every order in which the workers' registries reach the merge, the outcome is the
    outcome of one sequential scan of the whole file. */
module Measurements {
  import opened Bytes
  import opened Registries
  import opened Chunks
  import opened Partitioning

  /** The bytes of `c`; a range that does not lie inside the file holds nothing. */
  function Piece(file: seq<byte>, c: Chunk): seq<byte> {
    if c.start <= c.end <= |file| then file[c.start..c.end] else []
  }

  /** The workers' outcomes, in chunk order: each is the scan of its own byte range. */
  function Scans(r: Reader, file: seq<byte>, chunks: seq<Chunk>): (rs: seq<Option<Table>>)
    ensures |rs| == |chunks|
  {
    if chunks == [] then []
    else Scans(r, file, chunks[..|chunks| - 1]) + [Aggregate(r, map[], Piece(file, chunks[|chunks| - 1]))]
  }

  /** Merging one more worker's outcome into the merge of the others. */
  function Join(acc: Option<Table>, shard: Option<Table>): Option<Table> {
    match (acc, shard)
    case (Some(a), Some(b)) => Some(Absorbed(a, b))
    case _ => None
  }

  /** Waiting for the workers and merging their registries in the order given: a worker
      that failed (a panic, an exception) makes the whole run fail. */
  function Joined(rs: seq<Option<Table>>): Option<Table> {
    if rs == [] then Some(map[]) else Join(Joined(rs[..|rs| - 1]), rs[|rs| - 1])
  }

  /** When every worker succeeded, joining is `gather` of their registries. */
  lemma {:induction false} JoinedSome(rs: seq<Option<Table>>, shards: seq<Table>)
    requires |rs| == |shards| && forall k :: 0 <= k < |rs| ==> rs[k] == Some(shards[k])
    ensures Joined(rs) == Some(Merged(shards))
  {
    if rs != [] {
      JoinedSome(rs[..|rs| - 1], shards[..|shards| - 1]);
    }
  }

  /** One failed worker makes the join fail. */
  lemma {:induction false} JoinedNone(rs: seq<Option<Table>>, i: nat)
    requires i < |rs| && rs[i] == None
    ensures Joined(rs) == None
  {
    if i < |rs| - 1 {
      JoinedNone(rs[..|rs| - 1], i);
    }
  }

  /** The step of the headline property: scanning a text that a line boundary splits in
      two is scanning each half separately and merging the two registries. */
  lemma AggregateAppend(r: Reader, prefix: seq<byte>, piece: seq<byte>)
    requires prefix == [] || piece == [] || prefix[|prefix| - 1] == NEWLINE
    ensures Aggregate(r, map[], prefix + piece) == Join(Aggregate(r, map[], prefix), Aggregate(r, map[], piece))
  {
    var s := prefix + piece;
    assert s[..|prefix|] == prefix && s[|prefix|..] == piece;
    AggregateSplit(r, map[], s, |prefix|);
    match Aggregate(r, map[], prefix)
    case None =>
    case Some(t) =>
      AggregateFrom(r, t, piece);
  }

  /** Worker `k` scans chunk `k`. */
  lemma {:induction false} ScansIndex(r: Reader, file: seq<byte>, chunks: seq<Chunk>, k: nat)
    requires k < |chunks|
    ensures Scans(r, file, chunks)[k] == Aggregate(r, map[], Piece(file, chunks[k]))
    decreases |chunks|
  {
    if k < |chunks| - 1 {
      ScansIndex(r, file, chunks[..|chunks| - 1], k);
      assert chunks[..|chunks| - 1][k] == chunks[k];
    }
  }

  /** Joining the scans of one more chunk. */
  lemma ScansLast(r: Reader, file: seq<byte>, chunks: seq<Chunk>)
    requires chunks != []
    ensures Joined(Scans(r, file, chunks)) ==
      Join(Joined(Scans(r, file, chunks[..|chunks| - 1])), Aggregate(r, map[], Piece(file, chunks[|chunks| - 1])))
  {
    var rs := Scans(r, file, chunks);
    assert rs[..|chunks| - 1] == Scans(r, file, chunks[..|chunks| - 1]);
  }

  /** The last chunk of a tiling of `file[..upto]` follows a tiling of the bytes before
      it, from a line boundary. */
  lemma TilesLast(file: seq<byte>, chunks: seq<Chunk>, upto: nat)
    requires Tiles(file, chunks, upto) && chunks != []
    ensures var c := chunks[|chunks| - 1];
      var prefix, piece := file[..c.start], Piece(file, c);
      && c.start <= c.end == upto <= |file|
      && Tiles(file, chunks[..|chunks| - 1], c.start)
      && file[..upto] == prefix + piece
      && (prefix == [] || piece == [] || prefix[|prefix| - 1] == NEWLINE)
  {
    var init, c := chunks[..|chunks| - 1], chunks[|chunks| - 1];
    assert file[..upto] == file[..c.start] + file[c.start..c.end];
    if 0 < c.start < c.end {
      assert init != [] && Boundary(file, init[|init| - 1].end);
    }
  }

  /** Scanning the chunks that tile `file[..upto]` and joining the results is scanning
      `file[..upto]`. */
  lemma {:induction false} TilesAggregate(r: Reader, file: seq<byte>, chunks: seq<Chunk>, upto: nat)
    requires Tiles(file, chunks, upto)
    ensures upto <= |file| && Joined(Scans(r, file, chunks)) == Aggregate(r, map[], file[..upto])
    decreases |chunks|
  {
    if chunks == [] {
      assert file[..upto] == [];
    } else {
      var c := chunks[|chunks| - 1];
      TilesLast(file, chunks, upto);
      ScansLast(r, file, chunks);
      TilesAggregate(r, file, chunks[..|chunks| - 1], c.start);
      AggregateAppend(r, file[..c.start], Piece(file, c));
    }
  }

  /** The headline property, in chunk order: scanning the chunks of a tiling separately
      and merging the results is one scan of the whole file. */
  lemma TiledAggregate(r: Reader, file: seq<byte>, chunks: seq<Chunk>)
    requires Tiling(file, chunks)
    ensures Joined(Scans(r, file, chunks)) == Aggregate(r, map[], file)
  {
    TilesAggregate(r, file, chunks, |file|);
    assert file[..|file|] == file;
  }

  /** `0, 1, ..., n - 1`. */
  function Range(n: nat): (r: seq<nat>)
    ensures |r| == n && forall i :: 0 <= i < n ==> r[i] == i
  {
    if n == 0 then [] else Range(n - 1) + [n - 1]
  }

  /** `order` lists every worker index below `n` exactly once. */
  predicate IsOrder(order: seq<nat>, n: nat) {
    && |order| == n
    && (forall j :: 0 <= j < |order| ==> order[j] < n)
    && multiset(order) == multiset(Range(n))
  }

  /** The elements of `s` in the order `order` lists their indices. */
  function Select<T>(s: seq<T>, order: seq<nat>): (r: seq<T>)
    requires forall j :: 0 <= j < |order| ==> order[j] < |s|
    ensures |r| == |order| && forall j :: 0 <= j < |order| ==> r[j] == s[order[j]]
  {
    seq(|order|, j requires 0 <= j < |order| => s[order[j]])
  }

  /** Listing the same indices in another order lists the same elements. */
  lemma {:induction false} SelectMultiset<T>(s: seq<T>, a: seq<nat>, b: seq<nat>)
    requires forall j :: 0 <= j < |a| ==> a[j] < |s|
    requires forall j :: 0 <= j < |b| ==> b[j] < |s|
    requires multiset(a) == multiset(b)
    ensures multiset(Select(s, a)) == multiset(Select(s, b))
    decreases |a|
  {
    if a != [] {
      var j := RemoveOne(a, b);
      var a' := a[..|a| - 1];
      var b1, b2 := b[..j], b[j + 1..];
      SelectMultiset(s, a', b1 + b2);
      SelectLast(s, a);
      SelectRemove(s, b, j);
    } else {
      assert |b| == |multiset(b)| == 0;
    }
  }

  lemma SelectLast<T>(s: seq<T>, a: seq<nat>)
    requires a != [] && forall j :: 0 <= j < |a| ==> a[j] < |s|
    ensures multiset(Select(s, a)) == multiset(Select(s, a[..|a| - 1])) + multiset{s[a[|a| - 1]]}
  {
    assert Select(s, a) == Select(s, a[..|a| - 1]) + [s[a[|a| - 1]]];
  }

  lemma SelectRemove<T>(s: seq<T>, b: seq<nat>, j: nat)
    requires j < |b| && forall i :: 0 <= i < |b| ==> b[i] < |s|
    ensures multiset(Select(s, b)) == multiset(Select(s, b[..j] + b[j + 1..])) + multiset{s[b[j]]}
  {
    var b1, b2 := b[..j], b[j + 1..];
    assert Select(s, b) == Select(s, b1) + [s[b[j]]] + Select(s, b2);
    assert Select(s, b1 + b2) == Select(s, b1) + Select(s, b2);
  }

  /** The workers' outcomes merged in the order they finish, whatever it is, equal the
      outcomes merged in chunk order. */
  lemma JoinedReordered(rs: seq<Option<Table>>, order: seq<nat>)
    requires IsOrder(order, |rs|)
    ensures Joined(Select(rs, order)) == Joined(rs)
  {
    if i :| 0 <= i < |rs| && rs[i] == None {
      JoinedReorderedFailed(rs, order, i);
    } else {
      JoinedReorderedSucceeded(rs, order);
    }
  }

  /** A failed worker fails the merge in every order. */
  lemma JoinedReorderedFailed(rs: seq<Option<Table>>, order: seq<nat>, i: nat)
    requires IsOrder(order, |rs|) && i < |rs| && rs[i] == None
    ensures Joined(Select(rs, order)) == None == Joined(rs)
  {
    JoinedNone(rs, i);
    assert Range(|rs|)[i] == i;
    assert i in multiset(order);
    var j :| 0 <= j < |order| && order[j] == i;
    JoinedNone(Select(rs, order), j);
  }

  /** When every worker succeeded, the merge does not depend on the order. */
  lemma JoinedReorderedSucceeded(rs: seq<Option<Table>>, order: seq<nat>)
    requires IsOrder(order, |rs|) && forall i :: 0 <= i < |rs| ==> rs[i].Some?
    ensures Joined(Select(rs, order)) == Joined(rs)
  {
    var shards := seq(|rs|, k requires 0 <= k < |rs| => rs[k].value);
    JoinedSome(rs, shards);
    JoinedSome(Select(rs, order), Select(shards, order));
    SelectMultiset(shards, order, Range(|rs|));
    SelectRange(shards);
    MergedPermutation(Select(shards, order), shards);
  }

  /** Listing every index in increasing order lists the sequence itself. */
  lemma SelectRange<T>(s: seq<T>)
    ensures Select(s, Range(|s|)) == s
  {
  }

  /** The workers of the C++ and Rust programs: one `process_chunk` per chunk, each on the
      byte range `[start, end)` of its chunk. */
  method RunWorkers(reader: Reader, file: seq<byte>, chunks: seq<Chunk>) returns (results: seq<Option<Table>>)
    requires |file| < U64_LIMIT && Tiling(file, chunks)
    ensures results == Scans(reader, file, chunks)
  {
    results := [];
    for i := 0 to |chunks|
      invariant results == Scans(reader, file, chunks[..i])
    {
      var c := chunks[i];
      ChunkScan(file, chunks, i);
      ScansSnoc(reader, file, chunks, i);
      var scanned := ProcessChunk(reader, file, c.start, c.end - c.start);
      results := results + [scanned];
    }
    assert chunks[..|chunks|] == chunks;
  }

  /** A worker's `process_chunk` on a chunk of a tiling scans exactly that chunk. */
  lemma ChunkScan(file: seq<byte>, chunks: seq<Chunk>, i: nat)
    requires Tiling(file, chunks) && i < |chunks|
    ensures var c := chunks[i];
      && c.start <= c.end <= |file|
      && Min(c.start, |file|) == c.start
      && ScanEnd(file, c.start, c.end - c.start) == c.end
      && Piece(file, c) == file[c.start..c.end]
  {
    TilesIndex(file, chunks, |file|, i);
  }

  /** The scans of one more chunk. */
  lemma ScansSnoc(r: Reader, file: seq<byte>, chunks: seq<Chunk>, i: nat)
    requires i < |chunks|
    ensures Scans(r, file, chunks[..i + 1]) == Scans(r, file, chunks[..i]) + [Aggregate(r, map[], Piece(file, chunks[i]))]
  {
    assert chunks[..i + 1][..i] == chunks[..i];
  }

  /** Handing the workers' registries to `gather` / `merge` in `order`; a worker that
      failed takes the whole run down. */
  method Collect(results: seq<Option<Table>>, order: seq<nat>) returns (r: Option<Table>)
    requires IsOrder(order, |results|)
    ensures r == Joined(results)
  {
    JoinedReordered(results, order);
    var shards: seq<Table> := [];
    for j := 0 to |order|
      invariant |shards| == j
      invariant forall k :: 0 <= k < j ==> results[order[k]] == Some(shards[k])
    {
      var scanned := results[order[j]];
      if scanned.None? {
        JoinedNone(Select(results, order), j);
        return None;
      }
      shards := shards + [scanned.value];
    }
    JoinedSome(Select(results, order), shards);
    var merged := Gather(shards);
    r := Some(merged);
  }

  /** `process_measurements` of the C++ and Rust programs: chunks of `ceil(S / n)` bytes
      pushed to the next line end, one worker per chunk reading its lines as `reader`
      does (`CPP` or `RUST` for the programs as written), and the registries merged in
      `order`, the order the workers hand them over (chunk order in C++, completion order
      in Rust). With no workers the target size divides by zero: `None`. */
  method ProcessMeasurements(reader: Reader, file: seq<byte>, n: nat, order: seq<nat>) returns (r: Option<Table>)
    requires |file| < U64_LIMIT
    requires IsOrder(order, n)
    ensures r == if n == 0 then None else Aggregate(reader, map[], file)
  {
    if n == 0 {
      return None;
    }
    var base := CeilDiv(|file|, n);
    CeilCovers(|file|, n);
    var chunks := Partition(file, n, base);
    CutsTile(file, base, chunks);
    var results := RunWorkers(reader, file, chunks);
    TiledAggregate(reader, file, chunks);
    r := Collect(results, order);
  }
}
