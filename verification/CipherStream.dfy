/**
 The streaming layer over CBC: update caches partial blocks and finish pads or unpads.  Whatever
 the caller's chunks are, the bytes emitted depend only on the bytes consumed.
 */
module CipherStream {
  import opened Bytes
  import GaloisField
  import opened CbcMode
  import opened Padding

  const FULL_BLOCK_EXPECTED := -0x6280

  datatype PaddingMode = Pkcs7 | OneZeros | ZerosLen | ZeroFill | NoPadding

  /** What a context is set up for: the block functions, the direction, the padding, the first chaining value. */
  datatype Setup = Setup(E: BlockFn, D: BlockFn, encrypting: bool, padding: PaddingMode, iv: Block)
  {
    /** Decryption with padding always holds back one full block. */
    predicate HoldsBack() {
      !encrypting && padding != NoPadding
    }

    /** How many of n consumed bytes have gone through the cipher. */
    function Processed(n: nat): (p: nat)
      ensures p % 16 == 0 && p <= n <= p + 16
      ensures HoldsBack() && n > 0 ==> p < n
      ensures !HoldsBack() ==> n < p + 16
    {
      if HoldsBack() then (if n == 0 then 0 else 16 * ((n - 1) / 16)) else 16 * (n / 16)
    }

    function Chain(iv: Block, data: seq<Block>): (r: seq<Block>)
      ensures |r| == |data|
    {
      if encrypting then CbcEncrypt(E, iv, data) else CbcDecrypt(D, iv, data)
    }

    function Next(iv: Block, data: seq<Block>): Block {
      NextIv(iv, if encrypting then CbcEncrypt(E, iv, data) else data)
    }
  }

  lemma ProcessedUnique(s: Setup, n: nat, p: nat)
    requires p % 16 == 0 && p <= n <= p + 16
    requires if s.HoldsBack() then p < n || p == n == 0 else n < p + 16
    ensures s.Processed(n) == p
  {
  }

  /** Chaining value and output after the bytes done, all full blocks. */
  ghost predicate Chained(s: Setup, done: seq<byte>, iv: seq<byte>, emitted: seq<byte>) {
    && |done| % 16 == 0
    && iv == s.Next(s.iv, Blocks(done))
    && emitted == Flatten(s.Chain(s.iv, Blocks(done)))
  }

  lemma ChainedStart(s: Setup)
    ensures Chained(s, [], s.iv, []) && s.Processed(0) == 0
  {
  }

  lemma ChainedStep(s: Setup, done: seq<byte>, iv: Block, emitted: seq<byte>, more: seq<byte>)
    requires Chained(s, done, iv, emitted) && |more| % 16 == 0
    ensures Chained(s, done + more, s.Next(iv, Blocks(more)), emitted + Flatten(s.Chain(iv, Blocks(more))))
  {
    var a, b := Blocks(done), Blocks(more);
    BlocksAppend(done, more);
    FlattenAppend(s.Chain(s.iv, a), s.Chain(iv, b));
    if s.encrypting {
      CbcEncryptAppend(s.E, s.iv, a, b);
      NextOfAppend(s.iv, CbcEncrypt(s.E, s.iv, a), CbcEncrypt(s.E, iv, b));
    } else {
      CbcDecryptAppend(s.D, s.iv, a, b);
      NextOfAppend(s.iv, a, b);
    }
  }

  lemma NextOfAppend(iv: Block, a: seq<Block>, b: seq<Block>)
    ensures NextIv(iv, a + b) == NextIv(NextIv(iv, a), b)
  {
  }

  class Context {
    const setup: Setup
    const unprocessed: array<byte>
    const iv: array<byte>
    var unprocessedLen: nat
    ghost var consumed: seq<byte>
    ghost var emitted: seq<byte>

    ghost predicate Valid()
      reads this, unprocessed, iv
    {
      && unprocessed.Length == 16 && iv.Length == 16 && unprocessed != iv
      && unprocessedLen <= 16 && unprocessedLen <= |consumed|
      && |consumed| - unprocessedLen == setup.Processed(|consumed|)
      && unprocessed[..unprocessedLen] == consumed[|consumed| - unprocessedLen..]
      && Chained(setup, consumed[..|consumed| - unprocessedLen], iv[..], emitted)
    }

    constructor (s: Setup)
      ensures Valid() && setup == s && consumed == [] && emitted == []
      ensures fresh(unprocessed) && fresh(iv)
    {
      setup := s;
      unprocessed := new byte[16];
      iv := new byte[16];
      unprocessedLen := 0;
      consumed, emitted := [], [];
      new;
      CopyInto(iv, 0, s.iv);
      ChainedStart(s);
    }

    /** Nothing is lost or made up: what was emitted and what is cached account for what was consumed. */
    lemma Accounting()
      requires Valid()
      ensures |emitted| + unprocessedLen == |consumed|
    {
    }

    /** cbc_func: full blocks through the cipher in the context's direction. */
    method Crypt(data: seq<byte>, output: array<byte>, off: nat)
      requires iv.Length == 16 && iv != output
      requires |data| % 16 == 0 && off + |data| <= output.Length
      modifies iv, output
      ensures iv[..] == setup.Next(old(iv[..]), Blocks(data))
      ensures output[..] == Splice(old(output[..]), off, Flatten(setup.Chain(old(iv[..]), Blocks(data))))
    {
      if setup.encrypting {
        CryptCbcEncrypt(setup.E, iv, data, output, off);
      } else {
        CryptCbcDecrypt(setup.D, iv, data, output, off);
      }
    }

    /** Crypt the data that follows what is done, appending to the output. */
    method CryptNext(ghost done: seq<byte>, ghost sofar: seq<byte>, data: seq<byte>, output: array<byte>, off: nat)
      requires iv.Length == 16 && iv != output
      requires |data| % 16 == 0 && off + |data| <= output.Length
      requires Chained(setup, done, iv[..], sofar)
      modifies iv, output
      ensures Chained(setup, done + data, iv[..], sofar + output[off..off + |data|])
      ensures output[..off] == old(output[..off]) && output[off + |data|..] == old(output[off + |data|..])
    {
      hide *;
      ghost var iv1: Block, out0 := iv[..], output[..];
      Crypt(data, output, off);
      ChainedStep(setup, done, iv1, sofar, data);
      SpliceParts(out0, off, Flatten(setup.Chain(iv1, Blocks(data))), output[..]);
      assert output[off..off + |data|] == output[..][off..off + |data|];
      assert output[..off] == output[..][..off] && output[off + |data|..] == output[..][off + |data|..];
    }

    /**
     mbedtls_cipher_update for CBC: cache what does not fill a block, complete and crypt the cached
     block, cache the tail (a whole block when decrypting with padding), crypt the blocks between.
     */
    method Update(input: seq<byte>, output: array<byte>) returns (ret: int, olen: nat)
      requires Valid() && output != unprocessed && output != iv
      requires |input| + 16 <= output.Length
      modifies this, unprocessed, iv, output
      ensures Valid() && ret == 0
      ensures consumed == old(consumed) + input
      ensures olen <= output.Length && emitted == old(emitted) + output[..olen]
      ensures output[olen..] == old(output[olen..])
    {
      hide Chained;
      ret, olen := 0, 0;
      var space := 16 - unprocessedLen;
      if (!setup.encrypting && setup.padding != NoPadding && |input| <= space) ||
         (!setup.encrypting && setup.padding == NoPadding && |input| < space) ||
         (setup.encrypting && |input| < space) {
        CacheOnly(input);
        return;
      }
      var taken: nat;
      ghost var done;
      taken, olen, done := CompleteCached(input, output);
      olen := CryptRest(input[taken..], output, olen, done);
    }

    /** Fills up and crypts a partially filled cache. */
    method CompleteCached(input: seq<byte>, output: array<byte>) returns (taken: nat, olen: nat, ghost done: seq<byte>)
      requires Valid() && output != unprocessed && output != iv
      requires |input| + 16 <= output.Length && 16 - unprocessedLen <= |input|
      modifies this, unprocessed, iv, output
      ensures unprocessedLen == 0 && Chained(setup, done, iv[..], emitted)
      ensures taken <= |input| && (taken == 0 || taken == 16 - old(unprocessedLen))
      ensures consumed == old(consumed) + input == done + input[taken..] && |done| % 16 == 0
      ensures olen <= 16 && emitted == old(emitted) + output[..olen] && output[olen..] == old(output[olen..])
    {
      hide Chained;
      taken, olen := 0, 0;
      done := consumed[..|consumed| - unprocessedLen];
      consumed := consumed + input;
      if unprocessedLen != 0 {
        taken := 16 - unprocessedLen;
        CopyInto(unprocessed, unprocessedLen, input[..taken]);
        ghost var block := unprocessed[..];
        CryptNext(done, emitted, unprocessed[..], output, 0);
        done := done + block;
        emitted := emitted + output[..16];
        olen := 16;
        unprocessedLen := 0;
      }
    }

    /** The class invariant, in terms of what is done and what is cached. */
    lemma Establish(done: seq<byte>)
      requires unprocessed.Length == 16 && iv.Length == 16 && unprocessed != iv && unprocessedLen <= 16
      requires consumed == done + unprocessed[..unprocessedLen] && |done| % 16 == 0
      requires if setup.HoldsBack() then done == [] || unprocessedLen > 0 else unprocessedLen < 16
      requires Chained(setup, done, iv[..], emitted)
      ensures Valid()
    {
      hide Chained, Setup.HoldsBack;
      ProcessedUnique(setup, |consumed|, |done|);
      assert consumed[..|consumed| - unprocessedLen] == done;
      assert consumed[|consumed| - unprocessedLen..] == unprocessed[..unprocessedLen];
    }

    lemma Done() returns (done: seq<byte>)
      requires Valid()
      ensures unprocessed.Length == 16 && iv.Length == 16 && unprocessed != iv && unprocessedLen <= 16
      ensures consumed == done + unprocessed[..unprocessedLen] && |done| % 16 == 0
      ensures if setup.HoldsBack() then done == [] || unprocessedLen > 0 else unprocessedLen < 16
      ensures Chained(setup, done, iv[..], emitted)
    {
      hide Chained, Setup.HoldsBack;
      done := consumed[..|consumed| - unprocessedLen];
      assert consumed == done + consumed[|consumed| - unprocessedLen..];
    }

    /** Caches the tail of the input and crypts the full blocks before it. */
    method CryptRest(rest: seq<byte>, output: array<byte>, off: nat, ghost done: seq<byte>) returns (olen: nat)
      requires unprocessed.Length == 16 && iv.Length == 16 && unprocessed != iv
      requires output != unprocessed && output != iv && off + |rest| <= output.Length
      requires unprocessedLen == 0 && Chained(setup, done, iv[..], emitted)
      requires consumed == done + rest && |done| % 16 == 0 && (setup.HoldsBack() ==> |rest| > 0)
      modifies this, unprocessed, iv, output
      ensures Valid() && consumed == old(consumed)
      ensures off <= olen <= output.Length && emitted == old(emitted) + output[off..olen]
      ensures output[..off] == old(output[..off]) && output[olen..] == old(output[olen..])
    {
      hide *;
      olen := off;
      var copyLen := CacheTail(rest);
      var full := rest[..|rest| - copyLen];
      if |full| != 0 {
        CryptNext(done, emitted, full, output, olen);
        emitted := emitted + output[olen..olen + |full|];
        olen := olen + |full|;
      } else {
        assert done + full == done && output[off..off] == [];
      }
      assert consumed == done + full + unprocessed[..unprocessedLen];
      Establish(done + full);
    }

    /** Caches what is left over of whole blocks; a whole block when one must be held back. */
    method CacheTail(rest: seq<byte>) returns (copyLen: nat)
      requires unprocessed.Length == 16 && unprocessedLen == 0
      requires setup.HoldsBack() ==> |rest| > 0
      modifies this`unprocessedLen, unprocessed
      ensures copyLen <= |rest| && copyLen <= 16 && (|rest| - copyLen) % 16 == 0
      ensures unprocessedLen == copyLen && unprocessed[..copyLen] == rest[|rest| - copyLen..]
      ensures if setup.HoldsBack() then copyLen > 0 else copyLen < 16
    {
      hide Splice, Setup.HoldsBack;
      copyLen := 0;
      if |rest| != 0 {
        copyLen := TailLength(|rest|);
        ghost var was := unprocessed[..];
        CopyInto(unprocessed, 0, rest[|rest| - copyLen..]);
        SpliceParts(was, 0, rest[|rest| - copyLen..], unprocessed[..]);
        assert unprocessed[..copyLen] == unprocessed[..][..copyLen];
        unprocessedLen := unprocessedLen + copyLen;
      }
    }

    method TailLength(n: nat) returns (copyLen: nat)
      requires n > 0
      ensures copyLen <= n && copyLen <= 16 && (n - copyLen) % 16 == 0
      ensures if setup.HoldsBack() then copyLen > 0 else copyLen < 16
    {
      copyLen := n % 16;
      if copyLen == 0 && !setup.encrypting && setup.padding != NoPadding {
        copyLen := 16;
      }
    }

    method CacheOnly(input: seq<byte>)
      requires Valid()
      requires if setup.HoldsBack() then |input| <= 16 - unprocessedLen else |input| < 16 - unprocessedLen
      modifies this, unprocessed
      ensures Valid() && emitted == old(emitted) && consumed == old(consumed) + input
    {
      hide *;
      ghost var done := Done();
      ghost var was := unprocessed[..unprocessedLen];
      assert consumed == done + was;
      Append(input);
      consumed := consumed + input;
      assert consumed == done + unprocessed[..unprocessedLen];
      Establish(done);
    }

    /** Copies the input behind what is cached. */
    method Append(input: seq<byte>)
      requires unprocessed.Length == 16 && unprocessedLen + |input| <= 16
      modifies this`unprocessedLen, unprocessed
      ensures unprocessedLen == old(unprocessedLen) + |input|
      ensures unprocessed[..unprocessedLen] == old(unprocessed[..unprocessedLen]) + input
    {
      hide *;
      ghost var was := unprocessed[..];
      CopyInto(unprocessed, unprocessedLen, input);
      SpliceParts(was, unprocessedLen, input, unprocessed[..]);
      assert was[..unprocessedLen] == unprocessed[..][..unprocessedLen];
      unprocessedLen := unprocessedLen + |input|;
      assert unprocessed[..unprocessedLen] == unprocessed[..][..unprocessedLen];
    }

    /**
     mbedtls_cipher_finish for CBC.  With the bytes consumed: encryption appends the padded last
     block; decryption needs whole blocks, and reports how much of the last one is data.
     */
    method Finish(output: array<byte>) returns (ret: int, olen: nat)
      requires Valid() && output != unprocessed && output != iv && 16 <= output.Length
      modifies this, unprocessed, iv, output
      ensures setup.encrypting ==>
        if setup.padding == NoPadding then
          olen == 0 && ret == (if |old(consumed)| % 16 == 0 then 0 else FULL_BLOCK_EXPECTED)
        else
          ret == 0 && olen == 16
          && old(emitted) + output[..16] == Encrypted(setup, Padded(setup.padding, old(consumed)))
      ensures !setup.encrypting ==>
        if |old(consumed)| % 16 != 0 || (setup.HoldsBack() && old(consumed) == []) then
          ret == FULL_BLOCK_EXPECTED && olen == 0
        else if setup.padding == NoPadding then
          ret == 0 && olen == 0 && old(emitted) == Decrypted(setup, old(consumed))
        else
          (ret == 0 || ret == INVALID_PADDING)
          && old(emitted) + output[..16] == Decrypted(setup, old(consumed))
          && (ret == 0 <==> exists d: nat :: Unpads(setup.padding, output[..16], d))
          && (ret == 0 ==> olen <= 16 && Unpads(setup.padding, output[..16], olen))
    {
      hide Chained, Unpads, PaddingBytes;
      ret, olen := 0, 0;
      ghost var n := |consumed| - unprocessedLen;
      ghost var done := consumed[..n];
      if setup.encrypting {
        if setup.padding == NoPadding {
          if unprocessedLen != 0 {
            ret := FULL_BLOCK_EXPECTED;
          }
          return;
        }
        AddPadding();
      } else if unprocessedLen != 16 {
        if !(setup.padding == NoPadding && unprocessedLen == 0) {
          ret := FULL_BLOCK_EXPECTED;
        } else {
          assert done == consumed;
          WholeChain(setup, consumed, iv[..], emitted);
        }
        return;
      }
      ghost var block := unprocessed[..];
      assert consumed == done + consumed[n..];
      assert setup.encrypting ==> |consumed| % 16 == unprocessedLen;
      assert done + block == if setup.encrypting then Padded(setup.padding, consumed) else consumed;
      CryptNext(done, emitted, unprocessed[..], output, 0);
      WholeChain(setup, done + block, iv[..], emitted + output[..16]);
      if !setup.encrypting {
        ret, olen := GetPadding(setup.padding, output[..16]);
      } else {
        olen := 16;
      }
    }

    /** ctx->add_padding on the cached data. */
    method AddPadding()
      requires unprocessed.Length == 16 && unprocessedLen < 16 && setup.padding != NoPadding
      modifies unprocessed
      ensures unprocessed[..] == old(unprocessed[..unprocessedLen]) + PaddingBytes(setup.padding, 16 - unprocessedLen)
    {
      match setup.padding {
        case Pkcs7 => AddPkcs(unprocessed, 16, unprocessedLen);
        case OneZeros => AddOneAndZeros(unprocessed, 16, unprocessedLen);
        case ZerosLen => AddZerosAndLen(unprocessed, 16, unprocessedLen);
        case ZeroFill => AddZeros(unprocessed, 16, unprocessedLen);
      }
    }
  }

  /** The bytes each mode appends to fill the last p bytes of a block. */
  function PaddingBytes(mode: PaddingMode, p: nat): (s: seq<byte>)
    requires mode != NoPadding && 1 <= p <= 16
    ensures |s| == p
  {
    match mode
    case Pkcs7 => PkcsPadding(p)
    case OneZeros => OneAndZeros(p)
    case ZerosLen => ZerosAndLen(p)
    case ZeroFill => Zeros(p)
  }

  function Padded(mode: PaddingMode, m: seq<byte>): (s: seq<byte>)
    requires mode != NoPadding
    ensures |s| % 16 == 0 && |m| < |s| <= |m| + 16
  {
    m + PaddingBytes(mode, 16 - |m| % 16)
  }

  /** The block is d bytes of data followed by padding of this mode. */
  ghost predicate Unpads(mode: PaddingMode, block: seq<byte>, d: nat) {
    match mode
    case Pkcs7 => d <= |block| && PkcsPadded(block, |block| - d)
    case OneZeros => OneAndZerosPadded(block, d)
    case ZerosLen => d <= |block| && ZerosAndLenPadded(block, |block| - d)
    case ZeroFill => ZerosEnd(block, d)
    case NoPadding => d == |block|
  }

  /** The padding of each mode, byte by byte: a message is always made longer, up to the next whole block. */
  lemma PaddedIs(mode: PaddingMode, m: seq<byte>, k: nat)
    requires mode != NoPadding && k < 16 - |m| % 16
    ensures var s, p := Padded(mode, m), 16 - |m| % 16;
            && |s| == |m| + p && s[..|m|] == m
            && s[|m| + k] == (match mode
                              case Pkcs7 => GaloisField.ToByte(p)
                              case OneZeros => if k == 0 then 0x80 else 0
                              case ZerosLen => if k == p - 1 then GaloisField.ToByte(p) else 0
                              case ZeroFill => 0)
  {
    hide GaloisField.ToByte;
  }

  /** When the last block is taken apart, and where: by the bytes of the block alone. */
  lemma UnpadsIs(mode: PaddingMode, block: Block, d: nat)
    ensures Unpads(mode, block, d) <==>
      match mode
      case Pkcs7 => d < 16 && forall k :: d <= k < 16 ==> block[k] == GaloisField.ToByte(16 - d)
      case OneZeros => d < 16 && block[d] == 0x80 && forall k :: d < k < 16 ==> block[k] == 0
      case ZerosLen => d < 16 && block[15] == GaloisField.ToByte(16 - d) && forall k :: d <= k < 15 ==> block[k] == 0
      case ZeroFill => d <= 16 && (d > 0 ==> block[d - 1] != 0) && forall k :: d <= k < 16 ==> block[k] == 0
      case NoPadding => d == 16
  {
    hide GaloisField.ToByte;
    if mode == Pkcs7 && d < 16 {
      PkcsFrom(block, d);
    } else if mode == ZerosLen && d < 16 {
      ZerosLenFrom(block, d);
    }
  }

  lemma PkcsFrom(block: Block, d: nat)
    requires d < 16
    ensures PkcsPadded(block, 16 - d) <==> forall k :: d <= k < 16 ==> block[k] == GaloisField.ToByte(16 - d)
  {
    hide GaloisField.ToByte;
    if PkcsPadded(block, 16 - d) {
      forall k | d <= k < 16 ensures block[k] == GaloisField.ToByte(16 - d) {
        assert block[d..][k - d] == GaloisField.ToByte(16 - d);
      }
    }
  }

  lemma ZerosLenFrom(block: Block, d: nat)
    requires d < 16
    ensures ZerosAndLenPadded(block, 16 - d) <==> block[15] == GaloisField.ToByte(16 - d) && forall k :: d <= k < 15 ==> block[k] == 0
  {
    hide GaloisField.ToByte;
    if ZerosAndLenPadded(block, 16 - d) {
      assert block[d..][15 - d] == GaloisField.ToByte(16 - d);
      forall k | d <= k < 15 ensures block[k] == 0 {
        assert block[d..][k - d] == 0;
      }
    }
  }

  /** ctx->get_padding */
  method GetPadding(mode: PaddingMode, block: seq<byte>) returns (ret: int, dataLen: nat)
    requires |block| == 16 && mode != NoPadding
    ensures ret == 0 || ret == INVALID_PADDING
    ensures ret == 0 <==> exists d: nat :: Unpads(mode, block, d)
    ensures ret == 0 ==> dataLen <= 16 && Unpads(mode, block, dataLen)
  {
    match mode {
      case Pkcs7 =>
        ret, dataLen := GetPkcs(block);
        assert forall d: nat :: Unpads(mode, block, d) ==> PkcsPadded(block, |block| - d);
      case OneZeros => ret, dataLen := GetOneAndZeros(block);
      case ZerosLen =>
        ret, dataLen := GetZerosAndLen(block);
        assert forall d: nat :: Unpads(mode, block, d) ==> ZerosAndLenPadded(block, |block| - d);
      case ZeroFill => ret, dataLen := GetZeros(block);
    }
    assert ret == 0 ==> Unpads(mode, block, dataLen);
  }

  /** One-shot CBC of whole blocks. */
  function Encrypted(s: Setup, m: seq<byte>): seq<byte>
    requires |m| % 16 == 0
  {
    Flatten(CbcEncrypt(s.E, s.iv, Blocks(m)))
  }

  function Decrypted(s: Setup, c: seq<byte>): seq<byte>
    requires |c| % 16 == 0
  {
    Flatten(CbcDecrypt(s.D, s.iv, Blocks(c)))
  }

  lemma WholeChain(s: Setup, done: seq<byte>, iv: seq<byte>, emitted: seq<byte>)
    requires Chained(s, done, iv, emitted)
    ensures |done| % 16 == 0 && emitted == if s.encrypting then Encrypted(s, done) else Decrypted(s, done)
  {
  }

  // ---------------------------------------------------------------- any split of any message

  /** Feeds the chunks to update, one call each, collecting what is emitted. */
  method Feed(ctx: Context, chunks: seq<seq<byte>>) returns (out: seq<byte>)
    requires ctx.Valid() && ctx.emitted == [] && ctx.consumed == []
    modifies ctx, ctx.unprocessed, ctx.iv
    ensures ctx.Valid() && ctx.consumed == Concat(chunks) && ctx.emitted == out
  {
    hide Context.Valid;
    out := [];
    assert chunks[..0] == [];
    for i := 0 to |chunks|
      invariant ctx.Valid() && ctx.consumed == Concat(chunks[..i]) && ctx.emitted == out
    {
      var output := new byte[|chunks[i]| + 16];
      var ret, olen := ctx.Update(chunks[i], output);
      out := out + output[..olen];
      assert chunks[..i + 1][..i] == chunks[..i];
    }
    assert chunks[..|chunks|] == chunks;
  }

  /** However the message is split, the emitted bytes are one-shot CBC of the padded message. */
  method EncryptChunks(s: Setup, chunks: seq<seq<byte>>) returns (cipher: seq<byte>)
    requires s.encrypting && s.padding != NoPadding
    ensures cipher == Encrypted(s, Padded(s.padding, Concat(chunks)))
    ensures cipher == Flatten(CbcEncrypt(s.E, s.iv, Blocks(Padded(s.padding, Concat(chunks)))))
  {
    var ctx := new Context(s);
    cipher := Feed(ctx, chunks);
    var output := new byte[16];
    var ret, olen := ctx.Finish(output);
    cipher := cipher + output[..olen];
  }

  /** However the ciphertext is split, a well-padded plaintext comes back without its padding. */
  method DecryptChunks(s: Setup, chunks: seq<seq<byte>>, ghost m: seq<byte>) returns (ret: int, plain: seq<byte>)
    requires !s.encrypting && Reversible(s.padding)
    requires |Concat(chunks)| % 16 == 0 && Decrypted(s, Concat(chunks)) == Padded(s.padding, m)
    ensures ret == 0 && plain == m
  {
    hide *;
    ReversibleFacts(s);
    PaddedNotEmpty(s, Concat(chunks), m);
    var ctx := new Context(s);
    plain := Feed(ctx, chunks);
    var output := new byte[16];
    var olen;
    ret, olen := ctx.Finish(output);
    UnpadPadded(s.padding, m, plain, output[..16]);
    assert output[..16][..olen] == output[..olen];
    plain := plain + output[..olen];
  }

  lemma ReversibleFacts(s: Setup)
    requires Reversible(s.padding)
    ensures s.padding != NoPadding && s.HoldsBack() == !s.encrypting
  {
  }

  lemma PaddedNotEmpty(s: Setup, c: seq<byte>, m: seq<byte>)
    requires |c| % 16 == 0 && s.padding != NoPadding && Decrypted(s, c) == Padded(s.padding, m)
    ensures c != []
  {
  }

  /** The schemes whose padding can always be told from data. */
  predicate Reversible(mode: PaddingMode) {
    mode == Pkcs7 || mode == OneZeros || mode == ZerosLen
  }

  /** Data shorter than a block, padded to a full one, unpads to exactly that data. */
  lemma UnpadBlock(mode: PaddingMode, data: seq<byte>)
    requires Reversible(mode) && |data| < 16
    ensures var block := data + PaddingBytes(mode, 16 - |data|); forall d: nat :: Unpads(mode, block, d) <==> d == |data|
  {
    match mode {
      case Pkcs7 => PkcsRoundTrip(data, 16);
      case OneZeros => OneAndZerosRoundTrip(data, 16);
      case ZerosLen => ZerosAndLenRoundTrip(data, 16);
    }
  }

  /** The last block of a padded message unpads to exactly the bytes that were its data. */
  lemma UnpadPadded(mode: PaddingMode, m: seq<byte>, front: seq<byte>, last: seq<byte>)
    requires Reversible(mode) && |last| == 16 && front + last == Padded(mode, m)
    ensures exists d: nat :: Unpads(mode, last, d)
    ensures forall d: nat :: Unpads(mode, last, d) <==> d <= 16 && front + last[..d] == m
  {
    hide Unpads, PaddingBytes;
    var k := |m| - |m| % 16;
    var data := m[k..];
    assert |front| == k;
    assert front == (front + last)[..k] == m[..k];
    assert last == (front + last)[k..] == data + PaddingBytes(mode, 16 - |data|);
    UnpadBlock(mode, data);
    assert Unpads(mode, last, |data|);
    assert m == m[..k] + data && last[..|data|] == data;
  }

  /**
   Encrypting under any split and decrypting the result under any other split returns the message,
   provided D undoes E.
   */
  method RoundTrip(s: Setup, chunks: seq<seq<byte>>, cut: seq<byte> -> seq<seq<byte>>) returns (ret: int, plain: seq<byte>)
    requires forall x: Block :: s.D(s.E(x)) == x
    requires Reversible(s.padding)
    requires forall c :: Concat(cut(c)) == c
    ensures ret == 0 && plain == Concat(chunks)
  {
    var cipher := EncryptChunks(s.(encrypting := true), chunks);
    DecryptedEncrypted(s, Padded(s.padding, Concat(chunks)));
    ret, plain := DecryptChunks(s.(encrypting := false), cut(cipher), Concat(chunks));
  }

  lemma DecryptedEncrypted(s: Setup, m: seq<byte>)
    requires forall x: Block :: s.D(s.E(x)) == x
    requires |m| % 16 == 0
    ensures |Encrypted(s, m)| % 16 == 0 && Decrypted(s, Encrypted(s, m)) == m
  {
    BlocksOfFlatten(CbcEncrypt(s.E, s.iv, Blocks(m)));
    CbcRoundTrip(s.E, s.D, s.iv, Blocks(m));
    FlattenOfBlocks(m);
  }
}
