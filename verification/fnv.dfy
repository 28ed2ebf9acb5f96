/** The FNV-1a 64-bit hash that both the C++ registry (`StringHasher`) and the Rust
    registry (`FnvHasher`) use to place station names: start from the offset basis and, for
    every byte, exclusive-or it into the state and multiply by the FNV prime modulo 2^64. */
module Fnv {
  import opened Bytes

  const OFFSET_BASIS: bv64 := 0xcbf2_9ce4_8422_2325
  const PRIME: bv64 := 0x100_0000_01b3

  /** One byte: exclusive-or, then the wrapping multiplication. */
  function Step(h: bv64, b: byte): bv64 {
    (h ^ (b as bv64)) * PRIME
  }

  /** The state after feeding `bytes`, first to last, to state `h`. */
  function Feed(h: bv64, bytes: seq<byte>): bv64
    decreases |bytes|
  {
    if bytes == [] then h else Step(Feed(h, bytes[..|bytes| - 1]), bytes[|bytes| - 1])
  }

  /** The FNV-1a hash of `bytes`. */
  function Hash(bytes: seq<byte>): bv64 {
    Feed(OFFSET_BASIS, bytes)
  }

  /** Feeding two pieces one after the other is feeding their concatenation: the hash can be
      computed incrementally. */
  lemma {:induction false} FeedConcat(h: bv64, a: seq<byte>, b: seq<byte>)
    ensures Feed(Feed(h, a), b) == Feed(h, a + b)
    decreases |b|
  {
    if b != [] {
      var b' := b[..|b| - 1];
      FeedConcat(h, a, b');
      assert (a + b)[..|a + b| - 1] == a + b';
      assert (a + b)[|a + b| - 1] == b[|b| - 1];
    } else {
      assert a + b == a;
    }
  }

  /** The empty input hashes to the offset basis, and a one-byte input to one step from it. */
  lemma HashShort(b: byte)
    ensures Hash([]) == OFFSET_BASIS
    ensures Hash([b]) == Step(OFFSET_BASIS, b)
  {
    assert [b][..0] == [];
  }

  /** The published FNV-1a 64-bit test vectors for the empty input and for `"a"`. */
  lemma HashVectors()
    ensures Hash([]) == 0xcbf2_9ce4_8422_2325
    ensures Hash([97]) == 0xaf63_dc4c_8601_ec8c
  {
    HashShort(97);
  }

  /** `StringHasher::fnv1a_hash` in C++: the loop over the bytes of the name. */
  method Fnv1aHash(str: seq<byte>) returns (hash: bv64)
    ensures hash == Hash(str)
  {
    hash := OFFSET_BASIS;
    for i := 0 to |str|
      invariant hash == Feed(OFFSET_BASIS, str[..i])
    {
      assert str[..i + 1][..i] == str[..i];
      hash := Step(hash, str[i]);
    }
    assert str[..|str|] == str;
  }

  /** `FnvHasher` in Rust: a state that `write` feeds and `finish` reports. */
  class FnvHasher {
    var state: bv64

    /** `FnvHasher::default()`: the offset basis. */
    constructor ()
      ensures state == OFFSET_BASIS
    {
      state := OFFSET_BASIS;
    }

    /** `write(bytes)`: feed every byte to the state. */
    method Write(bytes: seq<byte>)
      modifies this
      ensures state == Feed(old(state), bytes)
    {
      var hash := state;
      for i := 0 to |bytes|
        invariant hash == Feed(old(state), bytes[..i])
      {
        assert bytes[..i + 1][..i] == bytes[..i];
        hash := Step(hash, bytes[i]);
      }
      assert bytes[..|bytes|] == bytes;
      state := hash;
    }

    /** `finish()`: the current state, unchanged. */
    method Finish() returns (h: bv64)
      ensures h == state
    {
      h := state;
    }
  }

  /** Writing bytes to a fresh `FnvHasher`, in several pieces, gives the FNV-1a hash of
      their concatenation, which is what the C++ `fnv1a_hash` loop computes. */
  method HashInPieces(a: seq<byte>, b: seq<byte>) returns (h: bv64)
    ensures h == Hash(a + b)
  {
    var hasher := new FnvHasher();
    hasher.Write(a);
    hasher.Write(b);
    h := hasher.Finish();
    FeedConcat(OFFSET_BASIS, a, b);
  }
}
