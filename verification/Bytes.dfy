/** Bytes, 16-byte blocks, bytewise exclusive or, and writes into a window of a buffer. */
module Bytes {
  type byte = bv8

  type Block = b: seq<byte> | |b| == 16 witness [0, 0, 0, 0, 0, 0, 0, 0, 0, 0, 0, 0, 0, 0, 0, 0]

  function Xor(a: seq<byte>, b: seq<byte>): (r: seq<byte>)
    requires |a| <= |b|
    ensures |r| == |a|
    ensures forall i :: 0 <= i < |a| ==> r[i] == a[i] ^ b[i]
  {
    seq(|a|, i requires 0 <= i < |a| => a[i] ^ b[i])
  }

  lemma XorXor(a: seq<byte>, b: seq<byte>)
    requires |a| <= |b|
    ensures Xor(Xor(a, b), b) == a
  {
  }

  function Zeros(n: nat): (r: seq<byte>)
    ensures |r| == n
    ensures forall i :: 0 <= i < n ==> r[i] == 0
  {
    seq(n, i => 0)
  }

  /** The buffer contents s after writing v at offset off. */
  function Splice(s: seq<byte>, off: nat, v: seq<byte>): (r: seq<byte>)
    requires off + |v| <= |s|
    ensures |r| == |s|
    ensures r[..off] == s[..off] && r[off..off + |v|] == v && r[off + |v|..] == s[off + |v|..]
  {
    s[..off] + v + s[off + |v|..]
  }

  lemma SpliceNothing(s: seq<byte>, off: nat)
    requires off <= |s|
    ensures Splice(s, off, []) == s
  {
  }

  /** Two adjacent writes are one. */
  lemma SpliceAdjacent(s: seq<byte>, off: nat, v: seq<byte>, w: seq<byte>)
    requires off + |v| + |w| <= |s|
    ensures Splice(Splice(s, off, v), off + |v|, w) == Splice(s, off, v + w)
  {
  }

  lemma SpliceParts(s: seq<byte>, off: nat, v: seq<byte>, r: seq<byte>)
    requires off + |v| <= |s| && r == Splice(s, off, v)
    ensures r[..off] == s[..off] && r[off..off + |v|] == v && r[off + |v|..] == s[off + |v|..]
    ensures r[..off + |v|] == s[..off] + v
  {
  }

  /** A write over the whole of a block. */
  lemma SpliceBlock(s: Block, v: Block)
    ensures Splice(s, 0, v) == v
  {
  }

  /** memcpy(dst + off, src, |src|) */
  method CopyInto(dst: array<byte>, off: nat, src: seq<byte>)
    requires off + |src| <= dst.Length
    modifies dst
    ensures dst[..] == Splice(old(dst[..]), off, src)
  {
    for i := 0 to |src|
      invariant dst[..off] == old(dst[..off]) && dst[off + |src|..] == old(dst[off + |src|..])
      invariant dst[off..off + i] == src[..i]
    {
      dst[off + i] := src[i];
      assert dst[off..off + i + 1] == dst[off..off + i] + [src[i]];
    }
    assert dst[..] == dst[..off] + dst[off..off + |src|] + dst[off + |src|..];
  }

  /** for (i = 0; i < n; i++) dst[off + i] = a[i] ^ b[i] */
  method XorInto(dst: array<byte>, off: nat, a: seq<byte>, b: seq<byte>)
    requires |a| <= |b| && off + |a| <= dst.Length
    modifies dst
    ensures dst[..] == Splice(old(dst[..]), off, Xor(a, b))
  {
    for i := 0 to |a|
      invariant dst[..off] == old(dst[..off]) && dst[off + |a|..] == old(dst[off + |a|..])
      invariant dst[off..off + i] == Xor(a, b)[..i]
    {
      dst[off + i] := a[i] ^ b[i];
      assert dst[off..off + i + 1] == dst[off..off + i] + [a[i] ^ b[i]];
    }
    assert dst[..] == dst[..off] + dst[off..off + |a|] + dst[off + |a|..];
  }

  /** The concatenation of chunks. */
  function Concat(chunks: seq<seq<byte>>): seq<byte> {
    if chunks == [] then [] else Concat(chunks[..|chunks| - 1]) + chunks[|chunks| - 1]
  }

  // ---------------------------------------------------------------- block sequences

  /** The concatenated bytes of a sequence of blocks. */
  function Flatten(bs: seq<Block>): (s: seq<byte>)
    ensures |s| == 16 * |bs|
  {
    if bs == [] then [] else Flatten(bs[..|bs| - 1]) + bs[|bs| - 1]
  }

  /** The full blocks of a byte sequence; a partial block at the end is left out. */
  function Blocks(s: seq<byte>): (bs: seq<Block>)
    ensures |bs| == |s| / 16
    ensures forall k :: 0 <= k < |bs| ==> bs[k] == s[16 * k..16 * k + 16]
  {
    seq(|s| / 16, k requires 0 <= k < |s| / 16 => s[16 * k..16 * k + 16])
  }

  lemma FlattenNext(x: seq<Block>, b: Block)
    ensures Flatten(x + [b]) == Flatten(x) + b
  {
  }

  lemma {:induction false} BlocksOfFlatten(bs: seq<Block>)
    ensures Blocks(Flatten(bs)) == bs
    decreases |bs|
  {
    if bs != [] {
      var init, last := bs[..|bs| - 1], bs[|bs| - 1];
      BlocksOfFlatten(init);
      BlocksAppend(Flatten(init), last);
      BlocksOfOne(last);
    }
  }

  lemma BlocksOfOne(b: Block)
    ensures Blocks(b) == [b]
  {
    assert b[0..16] == b;
  }

  lemma BlocksAppend(a: seq<byte>, b: seq<byte>)
    requires |a| % 16 == 0
    ensures Blocks(a + b) == Blocks(a) + Blocks(b)
  {
    var n := |a| / 16;
    forall k | 0 <= k < |Blocks(a + b)| ensures Blocks(a + b)[k] == (Blocks(a) + Blocks(b))[k] {
      if k < n {
        assert (a + b)[16 * k..16 * k + 16] == a[16 * k..16 * k + 16];
      } else {
        assert (a + b)[16 * k..16 * k + 16] == b[16 * (k - n)..16 * (k - n) + 16];
      }
    }
  }

  lemma {:induction false} FlattenAppend(a: seq<Block>, b: seq<Block>)
    ensures Flatten(a + b) == Flatten(a) + Flatten(b)
    decreases |b|
  {
    if b == [] {
      assert a + b == a;
    } else {
      FlattenAppend(a, b[..|b| - 1]);
      assert (a + b)[..|a + b| - 1] == a + b[..|b| - 1];
    }
  }

  lemma {:induction false} FlattenOfBlocks(s: seq<byte>)
    requires |s| % 16 == 0
    ensures Flatten(Blocks(s)) == s
    decreases |s|
  {
    if s != [] {
      var n := |s| - 16;
      FlattenOfBlocks(s[..n]);
      BlocksAppend(s[..n], s[n..]);
      assert s == s[..n] + s[n..];
      BlocksOfOne(s[n..]);
    }
  }
}
