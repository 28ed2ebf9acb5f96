/** `process_chunk`: scanning the `\n`-terminated lines of one byte range of the file into
    a fresh registry, and the newline search (`seek_to`) it and the partitioner rely on. */
module Chunks {
  import opened Bytes
  import opened Temperature
  import opened Statistics
  import opened Registries

  /** The index just past the first `target` at or after `from`, or `|s|` when there is
      none. */
  function PastNext(s: seq<byte>, from: nat, target: byte): (e: nat)
    requires from <= |s|
    ensures from <= e <= |s|
    ensures from < |s| ==> from < e
  {
    var i := FindFrom(s, from, target);
    if i < |s| then i + 1 else |s|
  }

  /** What `PastNext` finds: just past a `target` with none before it, or the end of `s`
      with no `target` at all. */
  predicate StopsAt(s: seq<byte>, from: nat, target: byte, e: nat)
    requires from <= e <= |s|
  {
    || (from < e && s[e - 1] == target && forall j :: from <= j < e - 1 ==> s[j] != target)
    || (e == |s| && forall j :: from <= j < |s| ==> s[j] != target)
  }

  lemma PastNextStops(s: seq<byte>, from: nat, target: byte)
    requires from <= |s|
    ensures StopsAt(s, from, target, PastNext(s, from, target))
  {
    FindFromFirst(s, from, target);
  }

  /** The end of the line that `from` starts: just past its `\n`, or the end of the file. */
  function LineEnd(s: seq<byte>, from: nat): nat
    requires from <= |s|
  {
    PastNext(s, from, NEWLINE)
  }

  /** `PastNext` is the only index with its two defining properties. */
  lemma PastNextUnique(s: seq<byte>, from: nat, target: byte, e: nat)
    requires from <= e <= |s| && StopsAt(s, from, target, e)
    ensures PastNext(s, from, target) == e
  {
    PastNextStops(s, from, target);
  }

  /** `k` is a place where a line starts: the start or end of `s`, or just past a `\n`. */
  predicate Boundary(s: seq<byte>, k: nat) {
    k <= |s| && (k == 0 || k == |s| || s[k - 1] == NEWLINE)
  }

  /** The line as `getline` hands it over: a raw line without its terminating `\n`. A last
      line that has no `\n` is kept whole. */
  function LineContent(raw: seq<byte>): (c: seq<byte>)
    ensures |c| <= |raw|
  {
    if |raw| > 0 && raw[|raw| - 1] == NEWLINE then raw[..|raw| - 1] else raw
  }

  /** The line as the Rust `process_chunk` hands it over: `line[..line.len() - 1]`, which
      drops the last byte whether or not it is a `\n`. `read_until` never hands over an
      empty line, so the empty case does not arise in a scan. */
  function LineContentAsWritten(raw: seq<byte>): (content: seq<byte>)
    ensures raw != [] ==> |content| == |raw| - 1
    ensures |content| <= |raw| && content == raw[..|content|]
  {
    if raw == [] then [] else raw[..|raw| - 1]
  }

  /** `LineContent` removes a terminating `\n` and nothing else. */
  lemma LineContentStrips(raw: seq<byte>)
    ensures || LineContent(raw) + [NEWLINE] == raw
            || (LineContent(raw) == raw && (raw == [] || raw[|raw| - 1] != NEWLINE))
  {
  }

  /** The two readings agree on every line that ends with `\n`; they differ only on a
      last line without one. */
  lemma LineContentAgrees(raw: seq<byte>)
    requires raw != []
    ensures LineContentAsWritten(raw) == LineContent(raw) <==> raw[|raw| - 1] == NEWLINE
  {
    if raw[|raw| - 1] != NEWLINE {
      assert |LineContentAsWritten(raw)| != |LineContent(raw)|;
    }
  }

  /** How a program cuts a raw line down before `process_line`: `getline`'s removal of the
      `\n`, or Rust's removal of the last byte. */
  datatype Strip = Getline | DropLast

  function Content(strip: Strip, raw: seq<byte>): seq<byte> {
    match strip
    case Getline => LineContent(raw)
    case DropLast => LineContentAsWritten(raw)
  }

  /** What a program does with each raw line: how it strips it and how it decodes its
      value. */
  datatype Reader = Reader(strip: Strip, decoder: Decoder)

  /** The C++ program as written: `getline`, and the decoder that drops the tenths. */
  const CPP: Reader := Reader(Getline, AsWritten)

  /** The Rust program as written: the last byte dropped, and the same decoder. */
  const RUST: Reader := Reader(DropLast, AsWritten)

  /** Both line-level defects corrected: only a `\n` is stripped, and every branch of the
      decoder reads the tenths. The Python program is read this way: it hands the whole
      line to `float`, which skips the `\n` and reads the tenths. */
  const CORRECTED: Reader := Reader(Getline, Corrected)

  /** The raw lines of `s`, in order: each runs up to and including its `\n`, and the last
      one may lack it. */
  function Lines(s: seq<byte>): seq<seq<byte>>
    decreases |s|
  {
    if s == [] then []
    else
      var e := LineEnd(s, 0);
      [s[..e]] + Lines(s[e..])
  }

  /** Handing `lines`, as `r` strips them, to `process_line` in order, starting from `t`;
      the first line the source fails on makes the whole scan fail. */
  function Fold(r: Reader, t: Table, lines: seq<seq<byte>>): Option<Table>
    decreases |lines|
  {
    if lines == [] then Some(t)
    else
      match ApplyLine(r.decoder, t, Content(r.strip, lines[0]))
      case None => None
      case Some(t') => Fold(r, t', lines[1..])
  }

  /** Continue a scan that may have failed. */
  function FoldThen(r: Reader, o: Option<Table>, lines: seq<seq<byte>>): Option<Table> {
    match o
    case None => None
    case Some(t) => Fold(r, t, lines)
  }

  /** Reading `s` line by line from `t`. */
  function Aggregate(r: Reader, t: Table, s: seq<byte>): Option<Table> {
    Fold(r, t, Lines(s))
  }

  /** Continue a scan of bytes that may have failed. */
  function AggregateThen(r: Reader, o: Option<Table>, s: seq<byte>): Option<Table> {
    FoldThen(r, o, Lines(s))
  }

  /** Fold `t` into the result of a scan that may have failed. */
  function Lift(o: Option<Table>, t: Table): Option<Table> {
    match o
    case None => None
    case Some(x) => Some(Absorbed(t, x))
  }

  /** A line ends at a boundary, past its start. */
  lemma LineEndBoundary(s: seq<byte>, from: nat)
    requires from < |s|
    ensures from < LineEnd(s, from) && Boundary(s, LineEnd(s, from))
  {
    PastNextStops(s, from, NEWLINE);
  }

  /** A line that ends before `q` when `q` is a boundary. */
  lemma LineEndWithin(s: seq<byte>, from: nat, q: nat)
    requires from < q && Boundary(s, q)
    ensures LineEnd(s, from) <= q
  {
    PastNextStops(s, from, NEWLINE);
  }

  /** The lines are a partition of the bytes: concatenated, they give back `s`. */
  lemma {:induction false} LinesConcat(s: seq<byte>)
    ensures Flatten(Lines(s)) == s
    decreases |s|
  {
    if s != [] {
      var e := LineEnd(s, 0);
      LinesConcat(s[e..]);
      FlattenCons(s[..e], Lines(s[e..]));
      assert s[..e] + s[e..] == s;
    }
  }

  /** Every line but the last ends with `\n`, and no line holds a `\n` anywhere else. */
  lemma {:induction false} LinesShape(s: seq<byte>)
    ensures forall i :: 0 <= i < |Lines(s)| ==> Lines(s)[i] != []
    ensures forall i :: 0 <= i < |Lines(s)| - 1 ==> Lines(s)[i][|Lines(s)[i]| - 1] == NEWLINE
    ensures forall i, j :: 0 <= i < |Lines(s)| && 0 <= j < |Lines(s)[i]| - 1 ==> Lines(s)[i][j] != NEWLINE
    decreases |s|
  {
    if s != [] {
      var e := LineEnd(s, 0);
      PastNextStops(s, 0, NEWLINE);
      LinesShape(s[e..]);
      var ls := Lines(s);
      assert ls == [s[..e]] + Lines(s[e..]);
      forall i | 1 <= i < |ls| ensures ls[i] == Lines(s[e..])[i - 1] {
      }
    }
  }

  /** The concatenation of a sequence of lines. */
  function Flatten(lines: seq<seq<byte>>): seq<byte>
    decreases |lines|
  {
    if lines == [] then [] else lines[0] + Flatten(lines[1..])
  }

  lemma FlattenCons(line: seq<byte>, rest: seq<seq<byte>>)
    ensures Flatten([line] + rest) == line + Flatten(rest)
  {
    assert ([line] + rest)[1..] == rest;
  }

  /** Cutting the bytes at a line boundary cuts their lines there. */
  lemma LinesSplit(s: seq<byte>, k: nat)
    requires Boundary(s, k)
    ensures Lines(s) == Lines(s[..k]) + Lines(s[k..])
  {
    if k == |s| {
      assert s[..k] == s && s[k..] == [];
    } else {
      LinesAppend(s[..k], s[k..]);
      assert s[..k] + s[k..] == s;
    }
  }

  /** The lines of bytes that follow whole lines are those lines and then their own. */
  lemma {:induction false} LinesAppend(a: seq<byte>, b: seq<byte>)
    requires a == [] || a[|a| - 1] == NEWLINE
    ensures Lines(a + b) == Lines(a) + Lines(b)
    decreases |a|
  {
    if a == [] {
      assert a + b == b;
    } else {
      var e := LineEnd(a, 0);
      FirstLineOfAppend(a, b);
      var first, rest := [a[..e]], a[e..];
      LinesAppend(rest, b);
      assert Lines(a + b) == first + (Lines(rest) + Lines(b));
      ConcatAssociative(first, Lines(rest), Lines(b));
    }
  }

  lemma ConcatAssociative<T>(x: seq<T>, y: seq<T>, z: seq<T>)
    ensures x + (y + z) == (x + y) + z
  {
  }

  /** Bytes that end with `\n` keep their first line when more bytes follow. */
  lemma FirstLineOfAppend(a: seq<byte>, b: seq<byte>)
    requires a != [] && a[|a| - 1] == NEWLINE
    ensures var e := LineEnd(a, 0);
      && 0 < e <= |a|
      && LineEnd(a + b, 0) == e
      && (a + b)[..e] == a[..e]
      && (a + b)[e..] == a[e..] + b
      && (a[e..] == [] || a[e..][|a[e..]| - 1] == NEWLINE)
  {
    var e := LineEnd(a, 0);
    PastNextStops(a, 0, NEWLINE);
    assert a[e - 1] == NEWLINE;
    assert (a + b)[e - 1] == NEWLINE;
    assert forall j :: 0 <= j < e - 1 ==> (a + b)[j] == a[j];
    PastNextUnique(a + b, 0, NEWLINE, e);
  }

  /** The bytes from a line start up to its line end are one line. */
  lemma OneLine(s: seq<byte>, from: nat)
    requires from < |s|
    ensures Lines(s[from..LineEnd(s, from)]) == [s[from..LineEnd(s, from)]]
  {
    var line := s[from..LineEnd(s, from)];
    PastNextStops(s, from, NEWLINE);
    PastNextUnique(line, 0, NEWLINE, |line|);
    assert line[..|line|] == line && line[|line|..] == [];
  }

  /** Folding a concatenation of line sequences is folding the second from where the
      first left off. */
  lemma {:induction false} FoldConcat(r: Reader, t: Table, a: seq<seq<byte>>, b: seq<seq<byte>>)
    ensures Fold(r, t, a + b) == FoldThen(r, Fold(r, t, a), b)
    decreases |a|
  {
    if a == [] {
      assert a + b == b;
    } else {
      assert (a + b)[0] == a[0] && (a + b)[1..] == a[1..] + b;
      match ApplyLine(r.decoder, t, Content(r.strip, a[0]))
      case None =>
      case Some(t') => FoldConcat(r, t', a[1..], b);
    }
  }

  /** A scan may be cut at any line boundary and resumed from the table it reached. */
  lemma AggregateSplit(r: Reader, t: Table, s: seq<byte>, k: nat)
    requires Boundary(s, k)
    ensures Aggregate(r, t, s) == AggregateThen(r, Aggregate(r, t, s[..k]), s[k..])
  {
    LinesSplit(s, k);
    FoldConcat(r, t, Lines(s[..k]), Lines(s[k..]));
  }

  /** Folding from a non-empty table is folding from the empty one and then combining the
      result into the starting table. */
  lemma {:induction false} FoldFrom(r: Reader, t: Table, lines: seq<seq<byte>>)
    ensures Fold(r, t, lines) == Lift(Fold(r, map[], lines), t)
    decreases |lines|
  {
    AbsorbedIdentity(t);
    if lines != [] {
      var line := Content(r.strip, lines[0]);
      if ApplyLine(r.decoder, t, line).Some? {
        var (station, value) := ParseLine(line);
        var u := map[station := Single(Decode(r.decoder, value).value)];
        AbsorbedIdentity(u);
        assert ApplyLine(r.decoder, map[], line) == Some(u);
        FoldFrom(r, Absorbed(t, u), lines[1..]);
        FoldFrom(r, u, lines[1..]);
        match Fold(r, map[], lines[1..])
        case None =>
        case Some(x) => AbsorbedAssociative(t, u, x);
      }
    }
  }

  /** Scanning from a non-empty table is scanning from the empty one and then folding the
      result into the starting table. */
  lemma AggregateFrom(r: Reader, t: Table, s: seq<byte>)
    ensures Aggregate(r, t, s) == Lift(Aggregate(r, map[], s), t)
  {
    FoldFrom(r, t, Lines(s));
  }

  /** A successful fold keeps every record valid: its minimum and maximum bracket its
      mean. */
  lemma {:induction false} FoldValid(r: Reader, t: Table, lines: seq<seq<byte>>)
    requires AllValid(t)
    ensures Fold(r, t, lines).Some? ==> AllValid(Fold(r, t, lines).value)
    decreases |lines|
  {
    if lines != [] {
      var line := Content(r.strip, lines[0]);
      ApplyLineValid(r.decoder, t, line);
      if ApplyLine(r.decoder, t, line).Some? {
        FoldValid(r, ApplyLine(r.decoder, t, line).value, lines[1..]);
      }
    }
  }

  /** The station a raw line names, as `r` reads it. */
  function LineStation(r: Reader, raw: seq<byte>): Station {
    ParseLine(Content(r.strip, raw)).0
  }

  /** The reading a raw line holds, as `r` decodes it, and 0 where it cannot be decoded. */
  function LineReading(r: Reader, raw: seq<byte>): int {
    match Decode(r.decoder, ParseLine(Content(r.strip, raw)).1)
    case Some(v) => v
    case None => 0
  }

  /** How many of `lines` name `station`. */
  function CountNaming(r: Reader, lines: seq<seq<byte>>, station: Station): nat
    decreases |lines|
  {
    if lines == [] then 0
    else
      var last := lines[|lines| - 1];
      CountNaming(r, lines[..|lines| - 1], station) + (if LineStation(r, last) == station then 1 else 0)
  }

  /** The sum of the readings of the lines of `lines` that name `station`. */
  function SumNaming(r: Reader, lines: seq<seq<byte>>, station: Station): int
    decreases |lines|
  {
    if lines == [] then 0
    else
      var last := lines[|lines| - 1];
      SumNaming(r, lines[..|lines| - 1], station) + (if LineStation(r, last) == station then LineReading(r, last) else 0)
  }

  /** Some line of `lines` names `station`. */
  predicate Named(r: Reader, lines: seq<seq<byte>>, station: Station) {
    exists i :: 0 <= i < |lines| && LineStation(r, lines[i]) == station
  }

  /** Some line of `lines` that names `station` holds the reading `v`. */
  predicate Attained(r: Reader, lines: seq<seq<byte>>, station: Station, v: int) {
    exists i :: 0 <= i < |lines| && LineStation(r, lines[i]) == station && LineReading(r, lines[i]) == v
  }

  /** A line of all but the last line is a line of all of them. */
  lemma NamedSnoc(r: Reader, lines: seq<seq<byte>>, station: Station, v: int)
    requires lines != []
    ensures var init, last := lines[..|lines| - 1], lines[|lines| - 1];
      && (Named(r, lines, station) <==> Named(r, init, station) || LineStation(r, last) == station)
      && (Attained(r, init, station, v) ==> Attained(r, lines, station, v))
      && (LineStation(r, last) == station && LineReading(r, last) == v ==> Attained(r, lines, station, v))
  {
    var n := |lines|;
    var init := lines[..n - 1];
    if Named(r, lines, station) {
      var i :| 0 <= i < n && LineStation(r, lines[i]) == station;
      if i < n - 1 {
        assert init[i] == lines[i];
      }
    }
    if Named(r, init, station) {
      var i :| 0 <= i < |init| && LineStation(r, init[i]) == station;
      assert lines[i] == init[i];
    }
    if Attained(r, init, station, v) {
      var i :| 0 <= i < |init| && LineStation(r, init[i]) == station && LineReading(r, init[i]) == v;
      assert lines[i] == init[i];
    }
  }

  /** A successful scan from the empty registry holds exactly the stations some line
      names; each one's count is the number of lines naming it and its sum the sum of
      their readings. */
  lemma {:induction false} FoldRecords(r: Reader, lines: seq<seq<byte>>, station: Station)
    requires Fold(r, map[], lines).Some?
    ensures var t := Fold(r, map[], lines).value;
      && (station in t <==> Named(r, lines, station))
      && (station in t ==> t[station].count == CountNaming(r, lines, station))
      && (station in t ==> t[station].sum == SumNaming(r, lines, station))
      && (station !in t ==> CountNaming(r, lines, station) == 0 && SumNaming(r, lines, station) == 0)
    decreases |lines|
  {
    if lines != [] {
      var u := FoldLast(r, lines);
      FoldRecords(r, lines[..|lines| - 1], station);
      NamedSnoc(r, lines, station, 0);
    }
  }

  /** A successful scan from the empty registry gives every station a minimum and a
      maximum that are readings of lines naming it. */
  lemma {:induction false} FoldAttained(r: Reader, lines: seq<seq<byte>>, station: Station)
    requires Fold(r, map[], lines).Some? && station in Fold(r, map[], lines).value
    ensures Attained(r, lines, station, Fold(r, map[], lines).value[station].min)
    ensures Attained(r, lines, station, Fold(r, map[], lines).value[station].max)
    decreases |lines|
  {
    var n := |lines|;
    var init, last := lines[..n - 1], lines[n - 1];
    var u := FoldLast(r, lines);
    var t := Fold(r, map[], lines).value;
    var v := LineReading(r, last);
    if station in u {
      FoldAttained(r, init, station);
      NamedSnoc(r, lines, station, u[station].min);
      NamedSnoc(r, lines, station, u[station].max);
    }
    NamedSnoc(r, lines, station, v);
  }

  /** The last step of a successful scan from the empty registry: the scan of all lines
      but the last succeeded, and the last line records its reading for its station. */
  lemma FoldLast(r: Reader, lines: seq<seq<byte>>) returns (u: Table)
    requires lines != [] && Fold(r, map[], lines).Some?
    ensures var last := lines[|lines| - 1];
      && Fold(r, map[], lines[..|lines| - 1]) == Some(u)
      && Fold(r, map[], lines).value == Observe(u, LineStation(r, last), LineReading(r, last))
  {
    var init, last := lines[..|lines| - 1], lines[|lines| - 1];
    assert lines == init + [last];
    FoldSnoc(r, map[], init, last);
    u := Fold(r, map[], init).value;
    ApplyLineSucceeds(r.decoder, u, Content(r.strip, last));
  }

  /** A successful scan of the bytes `s`: the stations are exactly those some line of `s`
      names, each counts the lines naming it and sums their readings, and its minimum and
      maximum are readings of such lines. */
  lemma AggregateRecords(r: Reader, s: seq<byte>, station: Station)
    requires Aggregate(r, map[], s).Some?
    ensures var t := Aggregate(r, map[], s).value;
      && (station in t <==> Named(r, Lines(s), station))
      && (station in t ==> t[station].count == CountNaming(r, Lines(s), station))
      && (station in t ==> t[station].sum == SumNaming(r, Lines(s), station))
      && (station in t ==> Attained(r, Lines(s), station, t[station].min))
      && (station in t ==> Attained(r, Lines(s), station, t[station].max))
  {
    FoldRecords(r, Lines(s), station);
    if station in Aggregate(r, map[], s).value {
      FoldAttained(r, Lines(s), station);
    }
  }

  /** `[lo, lo + size)` ends where a line ends (or is empty), inside the file. */
  predicate ChunkAligned(file: seq<byte>, lo: nat, size: nat) {
    lo + size <= |file| && (size == 0 || lo + size == |file| || file[lo + size - 1] == NEWLINE)
  }

  /** `seek_to`: step byte by byte from `offset` until just past the first `target`, or
      to the end of the file. */
  method SeekTo(file: seq<byte>, offset: nat, target: byte) returns (pos: nat)
    requires offset <= |file|
    ensures pos == PastNext(file, offset, target)
  {
    pos := offset;
    while pos < |file|
      invariant offset <= pos <= |file|
      invariant forall j :: offset <= j < pos ==> file[j] != target
    {
      if file[pos] == target {
        PastNextUnique(file, offset, target, pos + 1);
        return pos + 1;
      }
      pos := pos + 1;
    }
    PastNextUnique(file, offset, target, pos);
  }

  /** `process_chunk(path, offset, size)`: from `offset`, read `\n`-terminated lines and
      process each until `bytes_remains`, decreased by every line's full length modulo
      2^64, reaches 0, or the file ends. When the range ends on a line boundary the
      lines of the range, and nothing else, are processed; otherwise the counter skips
      past 0 and the scan runs to the end of the file. */
  method ProcessChunk(reader: Reader, file: seq<byte>, offset: nat, size: nat) returns (r: Option<Table>)
    requires |file| < U64_LIMIT && size < U64_LIMIT
    ensures var lo := Min(offset, |file|);
      r == Aggregate(reader, map[], file[lo..ScanEnd(file, lo, size)])
  {
    var registry := new Registry();
    // Seeking past the end of the file leaves nothing to read.
    var lo := Min(offset, |file|);
    ghost var stop := ScanEnd(file, lo, size);
    assert file[lo..lo] == [];
    var pos := lo;
    var remains := size;
    while remains != 0 && pos < |file|
      invariant lo <= pos <= stop <= |file|
      invariant Remaining(remains, size, pos - lo)
      invariant pos == lo || Boundary(file, pos)
      invariant Fold(reader, map[], Lines(file[lo..pos])) == Some(registry.entries)
      decreases |file| - pos
    {
      var end := SeekTo(file, pos, NEWLINE);
      LineEndBoundary(file, pos);
      CounterBeforeStop(remains, size, lo, pos, stop, |file|);
      LineEndWithin(file, pos, stop);
      ScanOneMore(reader, file, lo, pos, registry.entries);
      var ok := registry.ProcessLine(reader.decoder, Content(reader.strip, file[pos..end]));
      if !ok {
        ScanFails(reader, file, lo, end, stop);
        return None;
      }
      CounterStep(remains, size, pos - lo, end - pos, |file| - lo);
      remains := WrappingSub(remains, end - pos);
      pos := end;
    }
    CounterAtExit(file, remains, size, lo, pos);
    r := Some(registry.entries);
  }

  /** Where `process_chunk` stops reading: the end of the range when the range ends on a
      line boundary, and otherwise the end of the file. */
  function ScanEnd(file: seq<byte>, lo: nat, size: nat): (stop: nat)
    requires lo <= |file|
    ensures lo <= stop <= |file| && (stop == lo || Boundary(file, stop))
  {
    if ChunkAligned(file, lo, size) then lo + size else |file|
  }

  /** While the counter is not 0 the scan has not reached the end of the range. */
  lemma CounterBeforeStop(remains: nat, size: nat, lo: nat, pos: nat, stop: nat, len: nat)
    requires lo <= pos <= stop <= len < U64_LIMIT && size < U64_LIMIT
    requires stop == lo + size || stop == len
    requires Remaining(remains, size, pos - lo) && remains != 0 && pos < len
    ensures pos < stop
  {
  }

  /** Where the scan stops: the end of an aligned range, and otherwise the end of the
      file, because the counter, stepping over the range's end by whole lines, misses 0. */
  lemma CounterAtExit(file: seq<byte>, remains: nat, size: nat, lo: nat, pos: nat)
    requires lo <= |file| < U64_LIMIT && size < U64_LIMIT && lo <= pos <= ScanEnd(file, lo, size)
    requires pos == lo || Boundary(file, pos)
    requires Remaining(remains, size, pos - lo) && (remains == 0 || pos == |file|)
    ensures pos == ScanEnd(file, lo, size)
  {
  }

  /** `bytes_remains` after `consumed` bytes of a range of `size` bytes, in 64-bit
      unsigned arithmetic. */
  predicate Remaining(remains: nat, size: nat, consumed: nat) {
    if consumed <= size then remains == size - consumed else remains == U64_LIMIT + size - consumed
  }

  /** Unsigned 64-bit subtraction, which wraps around below 0. */
  function WrappingSub(a: nat, b: nat): (r: nat)
    requires a < U64_LIMIT && b < U64_LIMIT
    ensures r < U64_LIMIT && (r == a - b || r == U64_LIMIT + a - b)
  {
    if a >= b then a - b else U64_LIMIT + a - b
  }

  /** `bytes_remains -= line.len()` keeps the counter's meaning. */
  lemma CounterStep(remains: nat, size: nat, consumed: nat, len: nat, limit: nat)
    requires size < U64_LIMIT && consumed + len <= limit < U64_LIMIT
    requires Remaining(remains, size, consumed)
    ensures remains < U64_LIMIT && Remaining(WrappingSub(remains, len), size, consumed + len)
  {
  }

  /** One more line extends the lines of a range that ends on a line boundary. */
  lemma LinesExtend(file: seq<byte>, lo: nat, pos: nat)
    requires lo <= pos < |file| && (pos == lo || file[pos - 1] == NEWLINE)
    ensures var end := LineEnd(file, pos);
      Lines(file[lo..end]) == Lines(file[lo..pos]) + [file[pos..end]]
  {
    var end := LineEnd(file, pos);
    var s := file[lo..end];
    assert s[..pos - lo] == file[lo..pos];
    assert s[pos - lo..] == file[pos..end];
    LinesSplit(s, pos - lo);
    OneLine(file, pos);
  }

  /** Folding one more line is handing it to `process_line` after the others. */
  lemma FoldSnoc(r: Reader, t: Table, lines: seq<seq<byte>>, line: seq<byte>)
    ensures Fold(r, t, lines + [line]) ==
      match Fold(r, t, lines)
      case None => None
      case Some(u) => ApplyLine(r.decoder, u, Content(r.strip, line))
  {
    FoldConcat(r, t, lines, [line]);
    match Fold(r, t, lines)
    case None =>
    case Some(u) =>
      assert [line][0] == line && [line][1..] == [];
      match ApplyLine(r.decoder, u, Content(r.strip, line))
      case None =>
      case Some(v) => assert Fold(r, v, []) == Some(v);
  }

  /** One more line extends a scan from a line boundary. */
  lemma ScanOneMore(r: Reader, file: seq<byte>, lo: nat, pos: nat, t: Table)
    requires lo <= pos < |file| && (pos == lo || file[pos - 1] == NEWLINE)
    requires Fold(r, map[], Lines(file[lo..pos])) == Some(t)
    ensures var end := LineEnd(file, pos);
      Fold(r, map[], Lines(file[lo..end])) == ApplyLine(r.decoder, t, Content(r.strip, file[pos..end]))
  {
    LinesExtend(file, lo, pos);
    FoldSnoc(r, map[], Lines(file[lo..pos]), file[pos..LineEnd(file, pos)]);
  }

  /** A scan that fails on a line fails on every longer range of whole lines. */
  lemma ScanFails(r: Reader, file: seq<byte>, lo: nat, end: nat, stop: nat)
    requires lo < end <= stop <= |file| && Boundary(file, end)
    requires Fold(r, map[], Lines(file[lo..end])) == None
    ensures Fold(r, map[], Lines(file[lo..stop])) == None
  {
    var s := file[lo..stop];
    var k := end - lo;
    assert s[..k] == file[lo..end];
    LinesSplit(s, k);
    FoldNone(r, map[], Lines(file[lo..end]), Lines(s[k..]));
  }

  /** A failed fold stays failed whatever lines follow. */
  lemma FoldNone(r: Reader, t: Table, a: seq<seq<byte>>, b: seq<seq<byte>>)
    requires Fold(r, t, a) == None
    ensures Fold(r, t, a + b) == None
  {
    FoldConcat(r, t, a, b);
  }

  /** Rust drops the last digit of an unterminated final line: a file holding `B;1.5`
      with no trailing newline fails in the Rust scan (the value `1.` is too short to
      decode), while the C++ scan records 15 tenths for `B`. */
  lemma UnterminatedLastLine()
    ensures var file: seq<byte> := [66, SEMICOLON, ZERO + 1, DOT, ZERO + 5];
      && Aggregate(RUST, map[], file) == None
      && Aggregate(CPP, map[], file) == Some(map[[66] := Single(15)])
  {
    var name: seq<byte> := [66];
    var file := name + [SEMICOLON] + [ZERO + 1, DOT, ZERO + 5];
    assert forall j :: 0 <= j < |file| ==> file[j] != NEWLINE;
    PastNextUnique(file, 0, NEWLINE, |file|);
    OneLine(file, 0);
    assert file[0..|file|] == file && [file][1..] == [];
    assert SEMICOLON !in name;
    assert LineContent(file) == file;
    assert LineContentAsWritten(file) == name + [SEMICOLON] + [ZERO + 1, DOT];
    ParseLineRoundTrip(name, [ZERO + 1, DOT]);
    ParseLineRoundTrip(name, [ZERO + 1, DOT, ZERO + 5]);
    var recorded := map[name := Single(15)];
    AbsorbedIdentity(recorded);
    assert Decode(AsWritten, [ZERO + 1, DOT, ZERO + 5]) == Some(15);
    assert ApplyLine(AsWritten, map[], Content(Getline, file)) == Some(recorded);
    assert Fold(CPP, recorded, []) == Some(recorded);
    assert Lines(file) == [file];
    assert CPP.strip == Getline && CPP.decoder == AsWritten;
    assert Fold(CPP, map[], [file]) == Some(recorded);
    assert file == [66, SEMICOLON, ZERO + 1, DOT, ZERO + 5];
  }

  /** The Rust and C++ scans agree on every file whose last line ends with `\n`: the Rust
      line strip differs from `getline` only on an unterminated last line. */
  lemma {:induction false} ReadersAgree(t: Table, s: seq<byte>)
    requires s == [] || s[|s| - 1] == NEWLINE
    ensures Aggregate(RUST, t, s) == Aggregate(CPP, t, s)
    decreases |s|
  {
    if s != [] {
      var e := LineEnd(s, 0);
      PastNextStops(s, 0, NEWLINE);
      var line, rest := s[..e], s[e..];
      LineContentAgrees(line);
      assert ([line] + Lines(rest))[0] == line && ([line] + Lines(rest))[1..] == Lines(rest);
      match ApplyLine(AsWritten, t, LineContent(line))
      case None =>
      case Some(u) => ReadersAgree(u, rest);
    }
  }
}
