/** `print_statistic`: the stations of the final registry in ascending byte order, each as
    `name=min/mean/max`, separated by `, ` and enclosed in braces. The numeric part is a
    formatter passed in as a function, since it works on floating point. */
module Report {
  import opened Bytes
  import opened Statistics
  import opened Registries

  const SPACE: byte := 32    // ' '
  const COMMA: byte := 44    // ','
  const EQUALS: byte := 61   // '='
  const OPEN: byte := 123    // '{'
  const CLOSE: byte := 125   // '}'

  /** Byte-wise lexicographic order on names, as `bytes`, `std::string` and `String` compare
      them: the first differing byte decides, and a proper prefix comes first. */
  predicate Below(a: Station, b: Station)
    decreases |a|
  {
    if a == [] then b != []
    else b != [] && (a[0] < b[0] || (a[0] == b[0] && Below(a[1..], b[1..])))
  }

  lemma {:induction false} BelowIrreflexive(a: Station)
    ensures !Below(a, a)
    decreases |a|
  {
    if a != [] {
      BelowIrreflexive(a[1..]);
    }
  }

  lemma {:induction false} BelowTransitive(a: Station, b: Station, c: Station)
    requires Below(a, b) && Below(b, c)
    ensures Below(a, c)
    decreases |a|
  {
    if a != [] && a[0] == b[0] == c[0] {
      BelowTransitive(a[1..], b[1..], c[1..]);
    }
  }

  /** Any two different names are ordered one way. */
  lemma {:induction false} BelowTotal(a: Station, b: Station)
    ensures a == b || Below(a, b) || Below(b, a)
    decreases |a|
  {
    if a != [] && b != [] && a[0] == b[0] {
      BelowTotal(a[1..], b[1..]);
      if a[1..] == b[1..] {
        assert a == [a[0]] + a[1..] && b == [b[0]] + b[1..];
      }
    }
  }

  /** Every name comes strictly before the names after it. */
  predicate Ascending(keys: seq<Station>) {
    forall i, j :: 0 <= i < j < |keys| ==> Below(keys[i], keys[j])
  }

  /** Two ascending listings of the same names are the same listing: the order of the
      report is determined by the registry alone. */
  lemma {:induction false} AscendingUnique(a: seq<Station>, b: seq<Station>)
    requires Ascending(a) && Ascending(b)
    requires forall k :: k in a <==> k in b
    ensures a == b
    decreases |a|
  {
    if a != [] {
      assert a[0] in b;
    }
    if b != [] {
      assert b[0] in a;
    }
    if a != [] {
      FirstIsLeast(a, b);
      FirstIsLeast(b, a);
      BelowTotal(a[0], b[0]);
      forall k
        ensures k in a[1..] <==> k in b[1..]
      {
        if k in a[1..] {
          var i :| 1 <= i < |a| && a[i] == k;
          NotFirst(b, k, a[0]);
        }
        if k in b[1..] {
          var i :| 1 <= i < |b| && b[i] == k;
          NotFirst(a, k, b[0]);
        }
      }
      AscendingUnique(a[1..], b[1..]);
      assert a == [a[0]] + a[1..] && b == [b[0]] + b[1..];
    }
  }

  /** In an ascending listing, the first name is at or below every name of the listing. */
  lemma FirstIsLeast(a: seq<Station>, b: seq<Station>)
    requires Ascending(a) && Ascending(b) && a != [] && b != []
    requires forall k :: k in a <==> k in b
    ensures !Below(b[0], a[0])
  {
    assert b[0] in a;
    var i :| 0 <= i < |a| && a[i] == b[0];
    if i == 0 {
      BelowIrreflexive(a[0]);
    } else if Below(b[0], a[0]) {
      BelowTransitive(a[0], a[i], a[0]);
      BelowIrreflexive(a[0]);
    }
  }

  /** A name of an ascending listing other than `first`, where `first` is the listing's
      first name, lies after it. */
  lemma NotFirst(a: seq<Station>, k: Station, first: Station)
    requires Ascending(a) && a != [] && a[0] == first && k in a && k != first
    ensures k in a[1..]
  {
    var i :| 0 <= i < |a| && a[i] == k;
    assert a[1..][i - 1] == k;
  }

  /** Inserting a new name into an ascending listing at the first name above it. */
  method Insert(keys: seq<Station>, k: Station) returns (r: seq<Station>)
    requires Ascending(keys) && k !in keys
    ensures Ascending(r) && |r| == |keys| + 1
    ensures forall x :: x in r <==> x in keys || x == k
  {
    var i := 0;
    while i < |keys| && !Below(k, keys[i])
      invariant 0 <= i <= |keys|
      invariant forall j :: 0 <= j < i ==> Below(keys[j], k)
    {
      BelowTotal(k, keys[i]);
      i := i + 1;
    }
    r := keys[..i] + [k] + keys[i..];
    forall p, q | 0 <= p < q < |r|
      ensures Below(r[p], r[q])
    {
      if q > i + 1 {
        BelowTransitive(k, keys[i], r[q]);
      }
      if p < i && q > i {
        BelowTransitive(r[p], k, r[q]);
      }
    }
    assert keys == keys[..i] + keys[i..];
  }

  /** `sorted(registry.items())`, `std::sort` of the entries, `keys.sort_by(...)`: the
      names of the registry, each once, in ascending byte order. */
  method SortedStations(t: Table) returns (keys: seq<Station>)
    ensures Ascending(keys) && |keys| == |t|
    ensures forall k :: k in keys <==> k in t
  {
    keys := [];
    var rest := t.Keys;
    while rest != {}
      invariant Ascending(keys) && |keys| + |rest| == |t|
      invariant rest <= t.Keys
      invariant forall k :: k in keys <==> k in t && k !in rest
      decreases |rest|
    {
      var k :| k in rest;
      keys := Insert(keys, k);
      rest := rest - {k};
    }
  }

  /** One entry of the report: `name=` and the formatted record. */
  function Entry(name: Station, s: Stats, format: Stats -> seq<byte>): seq<byte> {
    name + [EQUALS] + format(s)
  }

  /** The entries of `keys`, in that order. */
  function Entries(t: Table, keys: seq<Station>, format: Stats -> seq<byte>): (r: seq<seq<byte>>)
    requires forall k :: k in keys ==> k in t
    ensures |r| == |keys|
    ensures forall i :: 0 <= i < |keys| ==> r[i] == Entry(keys[i], t[keys[i]], format)
  {
    seq(|keys|, i requires 0 <= i < |keys| => Entry(keys[i], t[keys[i]], format))
  }

  /** `", ".join(parts)`. */
  function JoinComma(parts: seq<seq<byte>>): seq<byte>
    decreases |parts|
  {
    if parts == [] then []
    else if |parts| == 1 then parts[0]
    else parts[0] + [COMMA, SPACE] + JoinComma(parts[1..])
  }

  /** Every part followed by `", "`, as the C++ and Rust loops append them. */
  function Suffixed(parts: seq<seq<byte>>): seq<byte>
    decreases |parts|
  {
    if parts == [] then [] else parts[0] + [COMMA, SPACE] + Suffixed(parts[1..])
  }

  /** `result.resize(result.size() - 2)` / `result.truncate(result.len() - 2)` as written:
      with fewer than two bytes the unsigned subtraction goes below zero, which the C++
      `resize` refuses with an exception (and a Rust debug build with a panic). */
  function Trimmed(text: seq<byte>): (r: Option<seq<byte>>)
    ensures r.Some? <==> |text| >= 2
    ensures r.Some? ==> r.value + text[|text| - 2..] == text
  {
    if |text| < 2 then None else Some(text[..|text| - 2])
  }

  /** The braces around the listing. */
  function Braced(inner: seq<byte>): seq<byte> {
    [OPEN] + inner + [CLOSE]
  }

  /** The text of `print_statistic` in the Python program: the entries of `t` in ascending
      order of name, joined by `", "`, in braces. */
  function Listing(t: Table, keys: seq<Station>, format: Stats -> seq<byte>): seq<byte>
    requires forall k :: k in keys ==> k in t
  {
    Braced(JoinComma(Entries(t, keys, format)))
  }

  /** The text of `print_statistic` in the C++ and Rust programs, as written: every entry
      followed by `", "`, the last two bytes cut off, in braces. */
  function ListingAsWritten(t: Table, keys: seq<Station>, format: Stats -> seq<byte>): Option<seq<byte>>
    requires forall k :: k in keys ==> k in t
  {
    match Trimmed(Suffixed(Entries(t, keys, format)))
    case None => None
    case Some(inner) => Some(Braced(inner))
  }

  /** Appending `", "` to every part is joining them with `", "` and appending one more. */
  lemma {:induction false} SuffixedJoin(parts: seq<seq<byte>>)
    requires parts != []
    ensures Suffixed(parts) == JoinComma(parts) + [COMMA, SPACE]
    decreases |parts|
  {
    if |parts| > 1 {
      SuffixedJoin(parts[1..]);
    } else {
      assert parts[1..] == [];
    }
  }

  /** The C++ and Rust listing agrees with the Python one whenever there is a station, and
      fails on an empty registry, where the Python program prints `{}`. */
  lemma ListingAsWrittenAgrees(t: Table, keys: seq<Station>, format: Stats -> seq<byte>)
    requires forall k :: k in keys ==> k in t
    ensures keys != [] ==> ListingAsWritten(t, keys, format) == Some(Listing(t, keys, format))
    ensures keys == [] ==> ListingAsWritten(t, keys, format) == None
    ensures keys == [] ==> Listing(t, keys, format) == [OPEN, CLOSE]
  {
    var parts := Entries(t, keys, format);
    if keys != [] {
      SuffixedJoin(parts);
      var all := Suffixed(parts);
      assert all[..|all| - 2] == JoinComma(parts);
    }
  }

  /** `print_statistic` of the Python program: sort the names, then join the entries. The
      names are determined by the registry (`AscendingUnique`), and so is the text. */
  method PrintStatistic(t: Table, format: Stats -> seq<byte>) returns (keys: seq<Station>, text: seq<byte>)
    ensures Ascending(keys) && forall k :: k in keys <==> k in t
    ensures text == Listing(t, keys, format)
    ensures t == map[] ==> text == [OPEN, CLOSE]
  {
    keys := SortedStations(t);
    text := Listing(t, keys, format);
  }

  /** `print_statistic` of the C++ and Rust programs, as written: sort the names, append
      every entry followed by `", "`, cut the last two bytes off. On an empty registry the
      cut fails. */
  method PrintStatisticAsWritten(t: Table, format: Stats -> seq<byte>) returns (keys: seq<Station>, text: Option<seq<byte>>)
    ensures Ascending(keys) && forall k :: k in keys <==> k in t
    ensures text == ListingAsWritten(t, keys, format)
    ensures text == if t == map[] then None else Some(Listing(t, keys, format))
  {
    keys := SortedStations(t);
    var parts := Entries(t, keys, format);
    var result: seq<byte> := [];
    for i := 0 to |parts|
      invariant result == Suffixed(parts[..i])
    {
      SuffixedSnoc(parts[..i], parts[i]);
      assert parts[..i + 1] == parts[..i] + [parts[i]];
      result := result + parts[i] + [COMMA, SPACE];
    }
    assert parts[..|parts|] == parts;
    text := match Trimmed(result)
      case None => None
      case Some(inner) => Some(Braced(inner));
    ListingAsWrittenAgrees(t, keys, format);
    if t != map[] {
      var k :| k in t;
      assert keys != [] by { assert k in keys; }
    }
  }

  /** Appending one more part at the end. */
  lemma {:induction false} SuffixedSnoc(parts: seq<seq<byte>>, p: seq<byte>)
    ensures Suffixed(parts + [p]) == Suffixed(parts) + p + [COMMA, SPACE]
    decreases |parts|
  {
    if parts == [] {
      assert [p][1..] == [];
    } else {
      SuffixedSnoc(parts[1..], p);
      assert (parts + [p])[1..] == parts[1..] + [p];
    }
  }
}
