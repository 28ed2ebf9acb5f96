/** The `Registry`: the station -> `Stats` dictionary each worker fills line by line
    (`process_line`, the body of the C++ `process_chunk` loop) and that `gather` / `merge`
    folds the workers' dictionaries into. */
module Registries {
  import opened Bytes
  import opened Temperature
  import opened Statistics

  /** A station name: the bytes of a line before its first `;`. */
  type Station = seq<byte>

  /** The contents of a registry. */
  type Table = map<Station, Stats>

  /** Python's `line.partition(b";")`: the bytes before the first `;` and the bytes after
      it; without a `;`, the whole line and nothing. */
  function ParseLine(line: seq<byte>): (r: (Station, seq<byte>))
    ensures |r.0| + |r.1| <= |line|
  {
    var i := FindFrom(line, 0, SEMICOLON);
    if i == |line| then (line, []) else (line[..i], line[i + 1..])
  }

  /** The two parts of a line: with a `;`, the name and the value around the first one;
      without, the whole line and nothing. */
  lemma ParseLineParts(line: seq<byte>)
    ensures var (station, value) := ParseLine(line);
      && (SEMICOLON in line ==> station + [SEMICOLON] + value == line && SEMICOLON !in station)
      && (SEMICOLON !in line ==> station == line && value == [])
  {
    var i := FindFrom(line, 0, SEMICOLON);
    FindFromFirst(line, 0, SEMICOLON);
    if i < |line| {
      assert line == line[..i] + [SEMICOLON] + line[i + 1..];
    }
  }

  /** Round trip: a line written as a name without `;`, a `;` and a value splits back into
      that name and that value. */
  lemma ParseLineRoundTrip(station: Station, value: seq<byte>)
    requires SEMICOLON !in station
    ensures ParseLine(station + [SEMICOLON] + value) == (station, value)
  {
    var line := station + [SEMICOLON] + value;
    assert line[|station|] == SEMICOLON;
    FindFromFirst(line, 0, SEMICOLON);
    assert forall j :: 0 <= j < |station| ==> line[j] == station[j] && station[j] != SEMICOLON;
    assert FindFrom(line, 0, SEMICOLON) == |station|;
    assert line[..|station|] == station && line[|station| + 1..] == value;
  }

  /** Folds `shard` into `acc`: a station new to `acc` takes the shard's record, a station
      in both gets the combination, and every other station keeps its record. */
  function Absorbed(acc: Table, shard: Table): (r: Table)
    ensures r.Keys == acc.Keys + shard.Keys
    ensures forall k :: k in acc && k !in shard ==> r[k] == acc[k]
    ensures forall k :: k !in acc && k in shard ==> r[k] == shard[k]
    ensures forall k :: k in acc && k in shard ==> r[k] == Combine(acc[k], shard[k])
  {
    map k | k in acc.Keys + shard.Keys ::
      if k in acc && k in shard then Combine(acc[k], shard[k])
      else if k in acc then acc[k]
      else shard[k]
  }

  /** The per-line update: one reading for `station` is recorded in the table. */
  function Observe(t: Table, station: Station, temperature: int): (r: Table)
    ensures r.Keys == t.Keys + {station}
    ensures station !in t ==> r[station] == Stats(temperature, temperature, temperature, 1)
    ensures station in t ==> r[station] == Stats(
      Min(t[station].min, temperature), Max(t[station].max, temperature),
      t[station].sum + temperature, t[station].count + 1)
    ensures forall k :: k in t && k != station ==> r[k] == t[k]
  {
    Absorbed(t, map[station := Single(temperature)])
  }

  /** `process_line` on the value level: split at the first `;`, decode the value with
      `d` and record it. The line fails when it has no `;` (Rust's `unwrap` panics, C++
      reads past the line, Python's `float(b"")` raises) and when its value has fewer
      than three bytes, which the C++ and Rust decoders index past. */
  function ApplyLine(d: Decoder, t: Table, line: seq<byte>): (r: Option<Table>)
    ensures r.Some? ==> t.Keys <= r.value.Keys
  {
    if SEMICOLON !in line then None
    else
      var (station, value) := ParseLine(line);
      match Decode(d, value)
      case None => None
      case Some(temperature) => Some(Observe(t, station, temperature))
  }

  /** A line is recorded exactly when it has a `;` and at least three bytes after it, and
      then its station gets the decoded reading. */
  lemma ApplyLineSucceeds(d: Decoder, t: Table, line: seq<byte>)
    ensures ApplyLine(d, t, line).Some? <==> SEMICOLON in line && |ParseLine(line).1| >= 3
    ensures ApplyLine(d, t, line).Some? ==>
      ApplyLine(d, t, line).value == Observe(t, ParseLine(line).0, Decode(d, ParseLine(line).1).value)
  {
  }

  /** A line `name;value` with a well-formed value records the value's decimal reading,
      in tenths, for that name. */
  lemma ApplyWellFormedLine(t: Table, station: Station, value: seq<byte>)
    requires SEMICOLON !in station && WellFormed(value)
    ensures ApplyLine(Corrected, t, station + [SEMICOLON] + value) == Some(Observe(t, station, DecimalValue(value)))
  {
    ParseLineRoundTrip(station, value);
    ParseMatchesDecimal(value);
    assert (station + [SEMICOLON] + value)[|station|] == SEMICOLON;
  }

  /** `gather` / `merge` on the value level: the shards folded one at a time, in order,
      into an initially empty table. */
  function Merged(shards: seq<Table>): Table {
    if shards == [] then map[]
    else Absorbed(Merged(shards[..|shards| - 1]), shards[|shards| - 1])
  }

  /** The sum of `station`'s sums over the shards that hold it. */
  function TotalSum(shards: seq<Table>, station: Station): int {
    if shards == [] then 0
    else
      var last := shards[|shards| - 1];
      TotalSum(shards[..|shards| - 1], station) + (if station in last then last[station].sum else 0)
  }

  /** The sum of `station`'s counts over the shards that hold it. */
  function TotalCount(shards: seq<Table>, station: Station): nat {
    if shards == [] then 0
    else
      var last := shards[|shards| - 1];
      TotalCount(shards[..|shards| - 1], station) + (if station in last then last[station].count else 0)
  }

  predicate AllValid(t: Table) {
    forall k :: k in t ==> Valid(t[k])
  }

  lemma AbsorbedIdentity(t: Table)
    ensures Absorbed(map[], t) == t && Absorbed(t, map[]) == t
  {
  }

  lemma AbsorbedCommutative(a: Table, b: Table)
    ensures Absorbed(a, b) == Absorbed(b, a)
  {
    forall k | k in a && k in b ensures Absorbed(a, b)[k] == Absorbed(b, a)[k] {
      CombineCommutative(a[k], b[k]);
    }
  }

  lemma AbsorbedAssociative(a: Table, b: Table, c: Table)
    ensures Absorbed(Absorbed(a, b), c) == Absorbed(a, Absorbed(b, c))
  {
    var l := Absorbed(Absorbed(a, b), c);
    var r := Absorbed(a, Absorbed(b, c));
    forall k | k in l ensures l[k] == r[k] {
      if k in a && k in b && k in c {
        CombineAssociative(a[k], b[k], c[k]);
      }
    }
  }

  /** Combining keeps every record valid. */
  lemma AbsorbedValid(a: Table, b: Table)
    requires AllValid(a) && AllValid(b)
    ensures AllValid(Absorbed(a, b))
  {
    forall k | k in a && k in b ensures Valid(Combine(a[k], b[k])) {
      CombineValid(a[k], b[k]);
    }
  }

  /** Recording a line keeps every record valid. */
  lemma ApplyLineValid(d: Decoder, t: Table, line: seq<byte>)
    requires AllValid(t)
    ensures ApplyLine(d, t, line).Some? ==> AllValid(ApplyLine(d, t, line).value)
  {
    if ApplyLine(d, t, line).Some? {
      var (station, value) := ParseLine(line);
      var temperature := Decode(d, value).value;
      SingleValid(temperature);
      AbsorbedValid(t, map[station := Single(temperature)]);
    }
  }

  /** Folding a concatenation is combining the folds of its parts. */
  lemma {:induction false} MergedConcat(a: seq<Table>, b: seq<Table>)
    ensures Merged(a + b) == Absorbed(Merged(a), Merged(b))
    decreases |b|
  {
    if b == [] {
      assert a + b == a;
      AbsorbedIdentity(Merged(a));
    } else {
      var b' := b[..|b| - 1];
      var x := b[|b| - 1];
      assert (a + b)[..|a + b| - 1] == a + b';
      MergedConcat(a, b');
      AbsorbedAssociative(Merged(a), Merged(b'), x);
    }
  }

  /** The merged table does not depend on the order of the shards: any rearrangement of
      the same shards merges to the same table. */
  lemma {:induction false} MergedPermutation(a: seq<Table>, b: seq<Table>)
    requires multiset(a) == multiset(b)
    ensures Merged(a) == Merged(b)
    decreases |a|
  {
    if a == [] {
      assert |b| == |multiset(b)| == 0;
    } else {
      var x := a[|a| - 1];
      var a' := a[..|a| - 1];
      var j := RemoveOne(a, b);
      var p, q := b[..j], b[j + 1..];
      MergedPermutation(a', p + q);
      MergedMoveToEnd(p, x, q);
      assert b == p + [x] + q;
    }
  }

  /** Where the last element of `a` sits in a rearrangement `b` of `a`; the rest of `b` is
      a rearrangement of the rest of `a`. */
  lemma RemoveOne<T>(a: seq<T>, b: seq<T>) returns (j: nat)
    requires a != [] && multiset(a) == multiset(b)
    ensures j < |b| && b[j] == a[|a| - 1]
    ensures multiset(a[..|a| - 1]) == multiset(b[..j] + b[j + 1..])
  {
    var x := a[|a| - 1];
    assert a == a[..|a| - 1] + [x];
    assert x in multiset(b);
    j :| 0 <= j < |b| && b[j] == x;
    var rest := b[..j] + b[j + 1..];
    assert b == b[..j] + [x] + b[j + 1..];
    assert multiset(b) == multiset(b[..j]) + multiset{x} + multiset(b[j + 1..]);
    assert multiset(rest) == multiset(b[..j]) + multiset(b[j + 1..]);
    assert multiset(a) == multiset(a[..|a| - 1]) + multiset{x};
    assert multiset(a[..|a| - 1]) == multiset(a) - multiset{x};
    assert multiset(rest) == multiset(b) - multiset{x};
  }

  /** One shard may be moved to the end of the sequence without changing the fold. */
  lemma MergedMoveToEnd(p: seq<Table>, x: Table, q: seq<Table>)
    ensures Merged(p + [x] + q) == Absorbed(Merged(p + q), x)
  {
    // ((P + x) + Q) = (P + (x + Q)) = (P + (Q + x)) = ((P + Q) + x)
    MergedConcat(p + [x], q);
    MergedConcat(p, [x]);
    assert [x][..0] == [];
    AbsorbedIdentity(x);
    AbsorbedAssociative(Merged(p), x, Merged(q));
    AbsorbedCommutative(x, Merged(q));
    AbsorbedAssociative(Merged(p), Merged(q), x);
    MergedConcat(p, q);
  }

  /** The merged table holds exactly the stations some shard holds. */
  lemma {:induction false} MergedKeys(shards: seq<Table>, station: Station)
    ensures station in Merged(shards) <==> exists i :: 0 <= i < |shards| && station in shards[i]
  {
    if shards != [] {
      var init := shards[..|shards| - 1];
      MergedKeys(init, station);
      if exists i :: 0 <= i < |init| && station in init[i] {
        var i :| 0 <= i < |init| && station in init[i];
        assert station in shards[i];
      }
    }
  }

  /** Per station, the merged record's sum and count are the totals of the shards'. */
  lemma {:induction false} MergedTotals(shards: seq<Table>, station: Station)
    ensures station in Merged(shards) ==>
      Merged(shards)[station].sum == TotalSum(shards, station) &&
      Merged(shards)[station].count == TotalCount(shards, station)
    ensures station !in Merged(shards) ==>
      TotalSum(shards, station) == 0 && TotalCount(shards, station) == 0
  {
    if shards != [] {
      MergedTotals(shards[..|shards| - 1], station);
    }
  }

  /** Per station, the merged minimum is at most, and the merged maximum at least, every
      shard's. */
  lemma {:induction false} MergedBounds(shards: seq<Table>, station: Station)
    ensures forall i :: 0 <= i < |shards| && station in shards[i] ==>
      station in Merged(shards) &&
      Merged(shards)[station].min <= shards[i][station].min &&
      Merged(shards)[station].max >= shards[i][station].max
  {
    if shards != [] {
      var init := shards[..|shards| - 1];
      MergedBounds(init, station);
      forall i | 0 <= i < |shards| - 1 && station in shards[i]
        ensures station in Merged(init) && Merged(shards)[station].min <= shards[i][station].min &&
          Merged(shards)[station].max >= shards[i][station].max
      {
        assert init[i] == shards[i];
      }
    }
  }

  /** Per station, the merged minimum and maximum each come from some shard. */
  lemma {:induction false} MergedAttained(shards: seq<Table>, station: Station)
    requires station in Merged(shards)
    ensures exists i :: (0 <= i < |shards| && station in shards[i] &&
      Merged(shards)[station].min == shards[i][station].min)
    ensures exists i :: (0 <= i < |shards| && station in shards[i] &&
      Merged(shards)[station].max == shards[i][station].max)
  {
    var n := |shards|;
    var init := shards[..n - 1];
    var m := Merged(shards);
    if station in Merged(init) {
      MergedAttained(init, station);
      var lo :| 0 <= lo < |init| && station in init[lo] && Merged(init)[station].min == init[lo][station].min;
      var hi :| 0 <= hi < |init| && station in init[hi] && Merged(init)[station].max == init[hi][station].max;
      assert shards[lo] == init[lo] && shards[hi] == init[hi];
      if station in shards[n - 1] {
        assert m[station].min == shards[lo][station].min || m[station].min == shards[n - 1][station].min;
        assert m[station].max == shards[hi][station].max || m[station].max == shards[n - 1][station].max;
      } else {
        assert m[station].min == shards[lo][station].min;
        assert m[station].max == shards[hi][station].max;
      }
    } else {
      assert m[station] == shards[n - 1][station];
    }
  }

  /** The entries of `t` whose station is in `keys`. */
  function Restrict(t: Table, keys: set<Station>): (r: Table)
    requires keys <= t.Keys
    ensures r.Keys == keys
  {
    map k | k in keys :: t[k]
  }

  /** Absorbing one more entry of a shard updates one station of the partial result. */
  lemma AbsorbOneMore(acc: Table, shard: Table, done: set<Station>, station: Station)
    requires done <= shard.Keys && station in shard && station !in done
    ensures var e := Absorbed(acc, Restrict(shard, done));
      Absorbed(acc, Restrict(shard, done + {station})) ==
        if station in e then e[station := Combine(e[station], shard[station])]
        else e[station := shard[station]]
  {
    var e := Absorbed(acc, Restrict(shard, done));
    var l := Absorbed(acc, Restrict(shard, done + {station}));
    var r := if station in e then e[station := Combine(e[station], shard[station])]
      else e[station := shard[station]];
    assert l.Keys == r.Keys;
    forall k | k in l ensures l[k] == r[k] {
    }
  }

  /** The in-place dictionary of one worker (or of the merge). */
  class Registry {
    var entries: Table

    /** An empty registry (`Registry registry;` / `Registry::default()` / `{}`). */
    constructor ()
      ensures entries == map[]
    {
      entries := map[];
    }

    /** The insert-or-update of `process_line`: a new station gets `Stats(t)`, a known one
        has its minimum lowered only when `t` is smaller, its maximum raised only when `t`
        is larger, `t` added to its sum and its count incremented. */
    method Record(station: Station, temperature: int)
      modifies this
      ensures entries == Observe(old(entries), station, temperature)
    {
      if station in entries {
        var record := entries[station];
        if record.min > temperature {
          record := record.(min := temperature);
        }
        if record.max < temperature {
          record := record.(max := temperature);
        }
        record := record.(sum := record.sum + temperature, count := record.count + 1);
        entries := entries[station := record];
      } else {
        entries := entries[station := Single(temperature)];
      }
    }

    /** `process_line` with decoder `d`: `ok` is false where the source fails on the
        line, and then nothing is recorded. */
    method ProcessLine(d: Decoder, line: seq<byte>) returns (ok: bool)
      modifies this
      ensures ok ==> ApplyLine(d, old(entries), line) == Some(entries)
      ensures !ok ==> ApplyLine(d, old(entries), line) == None && entries == old(entries)
    {
      if SEMICOLON !in line {
        return false;
      }
      var (station, value) := ParseLine(line);
      var temperature := Decode(d, value);
      if temperature.None? {
        return false;
      }
      Record(station, temperature.value);
      ok := true;
    }

    /** The inner loop of `gather` / `merge`: every entry of `shard` is moved in when its
        station is new and combined in place otherwise, in whatever order the shard's
        entries are visited. */
    method Absorb(shard: Table)
      modifies this
      ensures entries == Absorbed(old(entries), shard)
    {
      var pending := shard.Keys;
      ghost var done: set<Station> := {};
      while pending != {}
        invariant pending + done == shard.Keys && pending !! done
        invariant entries == Absorbed(old(entries), Restrict(shard, done))
        decreases pending
      {
        var station :| station in pending;
        var data := shard[station];
        AbsorbOneMore(old(entries), shard, done, station);
        if station in entries {
          var record := entries[station];
          record := record.(min := Min(record.min, data.min), max := Max(record.max, data.max));
          record := record.(sum := record.sum + data.sum, count := record.count + data.count);
          assert record == Combine(entries[station], data);
          entries := entries[station := record];
        } else {
          entries := entries[station := data];
        }
        pending := pending - {station};
        done := done + {station};
      }
      assert Restrict(shard, done) == shard;
    }
  }

  /** `gather` / `merge`: fold the shards, in the order given, into one fresh registry. */
  method Gather(shards: seq<Table>) returns (merged: Table)
    ensures merged == Merged(shards)
  {
    var registry := new Registry();
    AbsorbedIdentity(map[]);
    for i := 0 to |shards|
      invariant registry.entries == Merged(shards[..i])
    {
      assert shards[..i + 1][..i] == shards[..i];
      registry.Absorb(shards[i]);
    }
    assert shards[..|shards|] == shards;
    merged := registry.entries;
  }
}
