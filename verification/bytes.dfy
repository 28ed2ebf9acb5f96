/** Bytes of the measurement file, the ASCII characters the aggregator looks at, and the
    search for a byte that both line splitting and the `;` split are built on. */
module Bytes {

  /** One byte of the measurement file. */
  newtype byte = b: int | 0 <= b < 256

  const NEWLINE: byte := 10    // '\n'
  const MINUS: byte := 45      // '-'
  const DOT: byte := 46        // '.'
  const ZERO: byte := 48       // '0'
  const SEMICOLON: byte := 59  // ';'

  /** One more than the largest unsigned 64-bit value (`u64`, `std::size_t`). */
  const U64_LIMIT: int := 0x1_0000_0000_0000_0000

  datatype Option<T> = None | Some(value: T)

  function Min(a: int, b: int): int { if a <= b then a else b }

  function Max(a: int, b: int): int { if a <= b then b else a }

  /** The bytes of an ASCII string literal. */
  function Ascii(s: string): (r: seq<byte>)
    requires forall i :: 0 <= i < |s| ==> s[i] as int < 256
    ensures |r| == |s|
    ensures forall i :: 0 <= i < |s| ==> r[i] as int == s[i] as int
  {
    seq(|s|, i requires 0 <= i < |s| => s[i] as int as byte)
  }

  /** The index of the first `b` at or after `from`, or `|s|` when there is none. */
  function FindFrom(s: seq<byte>, from: nat, b: byte): (i: nat)
    requires from <= |s|
    ensures from <= i <= |s|
    ensures i < |s| ==> s[i] == b
    decreases |s| - from
  {
    if from == |s| then |s|
    else if s[from] == b then from
    else FindFrom(s, from + 1, b)
  }

  /** The search finds the first `b`: none lies between `from` and the index found. */
  lemma {:induction false} FindFromFirst(s: seq<byte>, from: nat, b: byte)
    requires from <= |s|
    ensures forall j :: from <= j < FindFrom(s, from, b) ==> s[j] != b
    decreases |s| - from
  {
    if from < |s| && s[from] != b {
      FindFromFirst(s, from + 1, b);
    }
  }
}
