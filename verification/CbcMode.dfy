/**
 Cipher block chaining over an abstract block function: the chaining of section 6.2 of NIST
 SP 800-38A, the buffer loops that compute it, and its inverse.
 */
module CbcMode {
  import opened Bytes

  type BlockFn = Block -> Block

  function XorBlock(a: Block, b: Block): Block {
    Xor(a, b)
  }

  /** The chaining value left after ciphertext c. */
  function NextIv(iv: Block, c: seq<Block>): Block {
    if c == [] then iv else c[|c| - 1]
  }

  function CbcEncrypt(E: BlockFn, iv: Block, m: seq<Block>): (c: seq<Block>)
    ensures |c| == |m|
  {
    if m == [] then []
    else
      var c := CbcEncrypt(E, iv, m[..|m| - 1]);
      c + [E(XorBlock(m[|m| - 1], NextIv(iv, c)))]
  }

  function CbcDecrypt(D: BlockFn, iv: Block, c: seq<Block>): (m: seq<Block>)
    ensures |m| == |c|
  {
    if c == [] then []
    else
      var init := c[..|c| - 1];
      CbcDecrypt(D, iv, init) + [XorBlock(D(c[|c| - 1]), NextIv(iv, init))]
  }

  /** Encrypting in two parts, with the chaining value carried over, is encrypting the whole. */
  lemma {:induction false} CbcEncryptAppend(E: BlockFn, iv: Block, a: seq<Block>, b: seq<Block>)
    ensures CbcEncrypt(E, iv, a + b)
            == CbcEncrypt(E, iv, a) + CbcEncrypt(E, NextIv(iv, CbcEncrypt(E, iv, a)), b)
    decreases |b|
  {
    hide XorBlock;
    if b == [] {
      assert a + b == a;
    } else {
      CbcEncryptAppend(E, iv, a, b[..|b| - 1]);
      assert (a + b)[..|a + b| - 1] == a + b[..|b| - 1];
    }
  }

  lemma {:induction false} CbcDecryptAppend(D: BlockFn, iv: Block, a: seq<Block>, b: seq<Block>)
    ensures CbcDecrypt(D, iv, a + b) == CbcDecrypt(D, iv, a) + CbcDecrypt(D, NextIv(iv, a), b)
    decreases |b|
  {
    hide XorBlock;
    if b == [] {
      assert a + b == a;
    } else {
      CbcDecryptAppend(D, iv, a, b[..|b| - 1]);
      assert (a + b)[..|a + b| - 1] == a + b[..|b| - 1];
    }
  }

  /** Section 6.2: each ciphertext block is the encryption of its plaintext block added to the one before. */
  lemma {:induction false} CbcEncryptAt(E: BlockFn, iv: Block, m: seq<Block>, i: nat)
    requires i < |m|
    ensures var c := CbcEncrypt(E, iv, m); c[i] == E(Xor(m[i], if i == 0 then iv else c[i - 1]))
    decreases |m|
  {
    if i < |m| - 1 {
      CbcEncryptAt(E, iv, m[..|m| - 1], i);
    }
  }

  /** Each plaintext block is the decryption of its ciphertext block added to the one before. */
  lemma {:induction false} CbcDecryptAt(D: BlockFn, iv: Block, c: seq<Block>, i: nat)
    requires i < |c|
    ensures CbcDecrypt(D, iv, c)[i] == Xor(D(c[i]), if i == 0 then iv else c[i - 1])
    decreases |c|
  {
    if i < |c| - 1 {
      CbcDecryptAt(D, iv, c[..|c| - 1], i);
    }
  }

  /** If D undoes E, decryption undoes encryption for every message and initial value. */
  lemma {:induction false} CbcRoundTrip(E: BlockFn, D: BlockFn, iv: Block, m: seq<Block>)
    requires forall x: Block :: D(E(x)) == x
    ensures CbcDecrypt(D, iv, CbcEncrypt(E, iv, m)) == m
    decreases |m|
  {
    if m != [] {
      var init, last := m[..|m| - 1], m[|m| - 1];
      CbcRoundTrip(E, D, iv, init);
      var c := CbcEncrypt(E, iv, init);
      XorXor(last, NextIv(iv, c));
      assert CbcEncrypt(E, iv, m)[..|m| - 1] == c;
    }
  }

  lemma BlocksUpto(s: seq<byte>, pos: nat)
    requires |s| % 16 == 0 && pos % 16 == 0 && pos + 16 <= |s|
    ensures Blocks(s[..pos + 16]) == Blocks(s[..pos]) + [s[pos..pos + 16]]
  {
    BlocksAppend(s[..pos], s[pos..pos + 16]);
    assert s[..pos + 16] == s[..pos] + s[pos..pos + 16];
    BlocksOfOne(s[pos..pos + 16]);
  }

  /** mbedtls_aes_crypt_cbc for encryption: chaining in place through iv and the output buffer. */
  method CryptCbcEncrypt(E: BlockFn, iv: array<byte>, input: seq<byte>, output: array<byte>, off: nat)
    requires |input| % 16 == 0 && iv.Length == 16 && iv != output
    requires off + |input| <= output.Length
    modifies iv, output
    ensures output[..] == Splice(old(output[..]), off, Flatten(CbcEncrypt(E, old(iv[..]), Blocks(input))))
    ensures iv[..] == NextIv(old(iv[..]), CbcEncrypt(E, old(iv[..]), Blocks(input)))
  {
    hide *;
    ghost var iv0: Block, out0 := iv[..], output[..];
    NothingDone(E, iv0); SpliceNothing(out0, off);
    ghost var c: seq<Block> := [];
    var pos := 0;
    while pos < |input|
      invariant pos % 16 == 0 && pos <= |input| && 16 * |c| == pos
      invariant c == CbcEncrypt(E, iv0, Blocks(input[..pos])) && iv[..] == NextIv(iv0, c)
      invariant output[..] == Splice(out0, off, Flatten(c))
    {
      var b := EncryptOne(E, iv, input[pos..pos + 16], output, off + pos);
      EncryptStep(E, iv0, input, pos, c, b);
      SpliceAdjacent(out0, off, Flatten(c), b);
      c := c + [b];
      pos := pos + 16;
    }
    assert input[..pos] == input;
  }

  lemma NothingDone(F: BlockFn, iv: Block)
    ensures CbcEncrypt(F, iv, Blocks([])) == [] == CbcDecrypt(F, iv, Blocks([]))
    ensures Flatten([]) == [] && NextIv(iv, []) == iv && Blocks([]) == []
  {
  }

  lemma EncryptStep(E: BlockFn, iv: Block, input: seq<byte>, pos: nat, c: seq<Block>, b: Block)
    requires |input| % 16 == 0 && pos % 16 == 0 && pos + 16 <= |input|
    requires c == CbcEncrypt(E, iv, Blocks(input[..pos]))
    requires b == E(XorBlock(input[pos..pos + 16], NextIv(iv, c)))
    ensures c + [b] == CbcEncrypt(E, iv, Blocks(input[..pos + 16]))
    ensures NextIv(iv, c + [b]) == b && Flatten(c + [b]) == Flatten(c) + b
  {
    BlocksUpto(input, pos);
  }

  /** One iteration of the encryption loop. */
  method EncryptOne(E: BlockFn, iv: array<byte>, input: Block, output: array<byte>, at: nat) returns (b: Block)
    requires iv.Length == 16 && iv != output && at + 16 <= output.Length
    modifies iv, output
    ensures b == E(XorBlock(input, old(iv[..])))
    ensures output[..] == Splice(old(output[..]), at, b) && iv[..] == b
  {
    XorInto(output, at, input, iv[..]);
    b := E(output[at..at + 16]);
    CopyInto(output, at, b);
    CopyInto(iv, 0, b);
  }

  /** mbedtls_aes_crypt_cbc for decryption: each ciphertext block becomes the next chaining value. */
  method CryptCbcDecrypt(D: BlockFn, iv: array<byte>, input: seq<byte>, output: array<byte>, off: nat)
    requires |input| % 16 == 0 && iv.Length == 16 && iv != output
    requires off + |input| <= output.Length
    modifies iv, output
    ensures output[..] == Splice(old(output[..]), off, Flatten(CbcDecrypt(D, old(iv[..]), Blocks(input))))
    ensures iv[..] == NextIv(old(iv[..]), Blocks(input))
  {
    hide *;
    ghost var iv0: Block, out0 := iv[..], output[..];
    NothingDone(D, iv0); SpliceNothing(out0, off);
    ghost var m: seq<Block> := [];
    var pos := 0;
    while pos < |input|
      invariant pos % 16 == 0 && pos <= |input| && 16 * |m| == pos
      invariant m == CbcDecrypt(D, iv0, Blocks(input[..pos])) && iv[..] == NextIv(iv0, Blocks(input[..pos]))
      invariant output[..] == Splice(out0, off, Flatten(m))
    {
      var b := DecryptOne(D, iv, input[pos..pos + 16], output, off + pos);
      DecryptStep(D, iv0, input, pos, m, b);
      SpliceAdjacent(out0, off, Flatten(m), b);
      m := m + [b];
      pos := pos + 16;
    }
    assert input[..pos] == input;
  }

  lemma DecryptStep(D: BlockFn, iv: Block, input: seq<byte>, pos: nat, m: seq<Block>, b: Block)
    requires |input| % 16 == 0 && pos % 16 == 0 && pos + 16 <= |input|
    requires m == CbcDecrypt(D, iv, Blocks(input[..pos]))
    requires b == XorBlock(D(input[pos..pos + 16]), NextIv(iv, Blocks(input[..pos])))
    ensures m + [b] == CbcDecrypt(D, iv, Blocks(input[..pos + 16]))
    ensures NextIv(iv, Blocks(input[..pos + 16])) == input[pos..pos + 16] && Flatten(m + [b]) == Flatten(m) + b
  {
    BlocksUpto(input, pos);
  }

  /** One iteration of the decryption loop. */
  method DecryptOne(D: BlockFn, iv: array<byte>, input: Block, output: array<byte>, at: nat) returns (b: Block)
    requires iv.Length == 16 && iv != output && at + 16 <= output.Length
    modifies iv, output
    ensures b == XorBlock(D(input), old(iv[..]))
    ensures output[..] == Splice(old(output[..]), at, b) && iv[..] == input
  {
    var temp := input;
    CopyInto(output, at, D(input));
    XorInto(output, at, output[at..at + 16], iv[..]);
    CopyInto(iv, 0, temp);
    b := output[at..at + 16];
  }
}
