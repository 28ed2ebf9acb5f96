/** The boundary loop of `process_measurements`: cutting the file into `n` contiguous
    chunks whose ends are pushed forward to just past the next `\n`. */
module Partitioning {
  import opened Bytes
  import opened Chunks

  /** The byte range `[start, end)` of one worker. */
  datatype Chunk = Chunk(start: nat, end: nat)

  /** `chunks` is what the boundary loop produces for target size `base`: the first chunk
      starts at 0, every chunk starts where the previous one ended, and every chunk ends
      just past the first `\n` at or after `min(S, start + base)`, or at `S`. */
  predicate Cuts(file: seq<byte>, base: nat, chunks: seq<Chunk>)
    decreases |chunks|
  {
    if chunks == [] then true
    else
      var init, c := chunks[..|chunks| - 1], chunks[|chunks| - 1];
      && Cuts(file, base, init)
      && c.start == (if init == [] then 0 else init[|init| - 1].end)
      && c.start <= |file|
      && c.end == LineEnd(file, Min(|file|, c.start + base))
  }

  /** Where the boundary loop stands after `k` turns: the end of the `k`-th chunk. */
  function Reach(file: seq<byte>, base: nat, k: nat): (e: nat)
    ensures e <= |file|
  {
    if k == 0 then 0 else LineEnd(file, Min(|file|, Reach(file, base, k - 1) + base))
  }

  /** The chunks the loop produces are the ranges between consecutive reaches. */
  lemma {:induction false} CutsReach(file: seq<byte>, base: nat, chunks: seq<Chunk>, i: nat)
    requires Cuts(file, base, chunks) && i < |chunks|
    ensures chunks[i] == Chunk(Reach(file, base, i), Reach(file, base, i + 1))
    decreases |chunks|
  {
    var n := |chunks|;
    var init, c := chunks[..n - 1], chunks[n - 1];
    if i < n - 1 {
      CutsReach(file, base, init, i);
      assert init[i] == chunks[i];
    } else {
      if init != [] {
        CutsReach(file, base, init, i - 1);
        assert c.start == init[i - 1].end;
      }
      assert c.start == Reach(file, base, i);
      assert Reach(file, base, i + 1) == LineEnd(file, Min(|file|, Reach(file, base, i) + base));
    }
  }

  /** One turn of the loop moves forward from inside the file, and stays at its end. */
  lemma ReachStep(file: seq<byte>, base: nat, k: nat)
    ensures Reach(file, base, k) < |file| ==> Reach(file, base, k) < Reach(file, base, k + 1)
    ensures Reach(file, base, k) == |file| ==> Reach(file, base, k + 1) == |file|
  {
    var e := Reach(file, base, k);
    assert Reach(file, base, k + 1) == LineEnd(file, Min(|file|, e + base));
  }

  /** The loop never moves back. */
  lemma {:induction false} ReachMonotone(file: seq<byte>, base: nat, i: nat, j: nat)
    requires i <= j
    ensures Reach(file, base, i) <= Reach(file, base, j)
    decreases j
  {
    if i < j {
      ReachMonotone(file, base, i, j - 1);
      ReachStep(file, base, j - 1);
    }
  }

  /** A chunk is empty only when it starts at the end of the file, and then every later
      turn of the loop stays there: the chunks are empty exactly from the first one that
      starts at `S`, and there is one among `n` exactly when `n - 1` turns reach `S`. */
  lemma EmptyChunk(file: seq<byte>, base: nat, chunks: seq<Chunk>, i: nat)
    requires Cuts(file, base, chunks) && i < |chunks|
    ensures chunks[i].start == chunks[i].end <==> chunks[i].start == |file|
    ensures chunks[i].start == |file| ==> Reach(file, base, |chunks| - 1) == |file|
    ensures Reach(file, base, |chunks| - 1) == |file| ==> chunks[|chunks| - 1] == Chunk(|file|, |file|)
  {
    var last := |chunks| - 1;
    CutsReach(file, base, chunks, i);
    CutsReach(file, base, chunks, last);
    ReachStep(file, base, i);
    ReachStep(file, base, last);
    ReachMonotone(file, base, i, last);
  }

  /** `chunks` cut `file[..upto]` into contiguous pieces starting at 0, each ending on a
      line boundary of the file. */
  predicate Tiles(file: seq<byte>, chunks: seq<Chunk>, upto: nat)
    decreases |chunks|
  {
    if chunks == [] then upto == 0
    else
      var c := chunks[|chunks| - 1];
      && c.end == upto
      && c.start <= c.end <= |file|
      && Boundary(file, c.end)
      && Tiles(file, chunks[..|chunks| - 1], c.start)
  }

  /** `chunks` cut the whole file into line-aligned pieces. */
  predicate Tiling(file: seq<byte>, chunks: seq<Chunk>) {
    chunks != [] && Tiles(file, chunks, |file|)
  }

  /** The C++ and Rust target size, `(S + n - 1) / n`. */
  function CeilDiv(s: nat, n: nat): (base: nat)
    requires n >= 1
    ensures n * base >= s && (base == 0 || n * (base - 1) < s)
  {
    (s + n - 1) / n
  }

  /** The Python target size, `S // n`. */
  function FloorDiv(s: nat, n: nat): (base: nat)
    requires n >= 1
    ensures n * base <= s < n * (base + 1)
  {
    s / n
  }

  /** The boundary loop: `hint = min(S, start + base)`, `end` = just past the next `\n` from
      the hint (`seek_to` in C++, the byte loop in Rust, `find` in Python), `start = end`. */
  method Partition(file: seq<byte>, n: nat, base: nat) returns (chunks: seq<Chunk>)
    ensures |chunks| == n && Cuts(file, base, chunks)
  {
    chunks := [];
    var start := 0;
    for i := 0 to n
      invariant |chunks| == i && Cuts(file, base, chunks)
      invariant start <= |file|
      invariant start == if i == 0 then 0 else chunks[i - 1].end
    {
      var hint := Min(|file|, start + base);
      var end := SeekTo(file, hint, NEWLINE);
      assert (chunks + [Chunk(start, end)])[..i] == chunks;
      chunks := chunks + [Chunk(start, end)];
      start := end;
    }
  }

  /** Each turn of the loop moves at least `base + 1` bytes forward, or reaches `S`, and
      stops on a line boundary; so the first `k` chunks tile the file up to where the
      `k`-th ends, which is at least `min(S, k * (base + 1))`. */
  lemma {:induction false} CutsTiles(file: seq<byte>, base: nat, chunks: seq<Chunk>)
    requires Cuts(file, base, chunks) && chunks != []
    ensures var last := chunks[|chunks| - 1];
      && Tiles(file, chunks, last.end)
      && last.end >= Min(|file|, |chunks| * (base + 1))
    decreases |chunks|
  {
    var init, c := chunks[..|chunks| - 1], chunks[|chunks| - 1];
    var hint := Min(|file|, c.start + base);
    var reach := |init| * (base + 1);
    if init != [] {
      CutsTiles(file, base, init);
    }
    if hint < |file| {
      LineEndBoundary(file, hint);
    }
    StepReach(|file|, c.start, c.end, base, reach);
    MulSucc(|init|, base + 1);
  }

  /** One turn of the loop from at least `min(S, before)` reaches `min(S, before + base + 1)`. */
  lemma StepReach(size: nat, start: nat, end: nat, base: nat, before: nat)
    requires start >= Min(size, before)
    requires end == size || end > start + base
    ensures end >= Min(size, before + base + 1)
  {
  }

  lemma MulSucc(m: nat, k: nat)
    ensures (m + 1) * k == m * k + k
  {
  }

  /** With `n * (base + 1) > S`, which both `ceil(S/n)` and `floor(S/n)` satisfy, the `n`
      chunks cover the whole file. */
  lemma CutsTile(file: seq<byte>, base: nat, chunks: seq<Chunk>)
    requires Cuts(file, base, chunks) && |chunks| >= 1
    requires |chunks| * (base + 1) > |file|
    ensures Tiling(file, chunks)
  {
    CutsTiles(file, base, chunks);
  }

  /** Every chunk of a tiling lies inside the file and ends on a line boundary. */
  lemma {:induction false} TilesIndex(file: seq<byte>, chunks: seq<Chunk>, upto: nat, i: nat)
    requires Tiles(file, chunks, upto) && i < |chunks|
    ensures chunks[i].start <= chunks[i].end <= |file| && Boundary(file, chunks[i].end)
    decreases |chunks|
  {
    if i < |chunks| - 1 {
      var init := chunks[..|chunks| - 1];
      TilesIndex(file, init, chunks[|chunks| - 1].start, i);
      assert init[i] == chunks[i];
    }
  }

  lemma CeilCovers(s: nat, n: nat)
    requires n >= 1
    ensures n * (CeilDiv(s, n) + 1) > s
  {
  }

  lemma FloorCovers(s: nat, n: nat)
    requires n >= 1
    ensures n * (FloorDiv(s, n) + 1) > s
  {
  }
}
