/**
 Counter with CBC-MAC: the authenticated encryption of NIST SP 800-38C with its formatting of
 appendix A, and the loops over 16-byte buffers that compute it.
 */
module Ccm {
  import opened Bytes
  import opened GaloisField
  import opened Arith
  import opened Counter
  import opened CbcMode
  import opened Words

  const CCM_BAD_INPUT := -0x000D
  const CCM_AUTH_FAILED := -0x000F

  // ---------------------------------------------------------------- formatting (appendix A)

  /** The octet length of the length field for a nonce. */
  function Q(iv: seq<byte>): nat
    requires |iv| <= 15
  {
    15 - |iv|
  }

  predicate NonceLength(n: nat) {
    7 <= n <= 13
  }

  predicate TagLength(t: nat) {
    t != 2 && t <= 16 && t % 2 == 0
  }

  /** ((tag_len - 2) / 2) << 3 in the width of size_t, cut down to a byte. */
  function TagField(t: nat): byte
    requires t <= 16
  {
    ToByte((Sub64(t, 2) / 2 * 8) % 256)
  }

  function Flags(adata: bool, t: nat, q: nat): byte
    requires t <= 16 && 2 <= q <= 8
  {
    (if adata then 0x40 else 0x00) | TagField(t) | ToByte(q - 1)
  }

  /** Block B0 of appendix A.2.1. */
  function FirstBlock(iv: seq<byte>, adata: bool, len: nat, t: nat): Block
    requires NonceLength(|iv|) && t <= 16
  {
    [Flags(adata, t, Q(iv))] + iv + BeBytes(Q(iv), len)
  }

  /** A partial block filled up with zeros. */
  function Pad(s: seq<byte>): Block
    requires |s| <= 16
  {
    s + Zeros(16 - |s|)
  }

  /** The bytes as blocks, the last one padded with zeros. */
  function PadBlocks(s: seq<byte>): seq<Block>
    decreases |s|
  {
    if s == [] then [] else [Pad(s[..Min(16, |s|)])] + PadBlocks(s[Min(16, |s|)..])
  }

  /** The blocks B0, B1, ... that are authenticated (appendices A.2.1 to A.2.3). */
  function Formatted(iv: seq<byte>, add: seq<byte>, p: seq<byte>, t: nat): seq<Block>
    requires NonceLength(|iv|) && t <= 16
  {
    [FirstBlock(iv, add != [], |p|, t)]
    + (if add == [] then [] else PadBlocks(BeBytes(2, |add|) + add))
    + PadBlocks(p)
  }

  /** Counter block i of appendix A.3. */
  function CounterBlock(iv: seq<byte>, i: nat): Block
    requires NonceLength(|iv|)
  {
    [ToByte(Q(iv) - 1)] + iv + BeBytes(Q(iv), i)
  }

  // ---------------------------------------------------------------- sections 6.1 and 6.2

  function MacStep(E: BlockFn, y: Block, b: Block): Block {
    E(XorBlock(y, b))
  }

  /** CBC-MAC over the blocks from chaining value y. */
  function Mac(E: BlockFn, y: Block, bs: seq<Block>): Block
    decreases |bs|
  {
    if bs == [] then y else Mac(E, MacStep(E, y, bs[0]), bs[1..])
  }

  /** The bytes combined with the key stream blocks S_i, S_{i+1}, ... */
  function CtrCrypt(E: BlockFn, iv: seq<byte>, i: nat, s: seq<byte>): (r: seq<byte>)
    requires NonceLength(|iv|)
    ensures |r| == |s|
    decreases |s|
  {
    if s == [] then []
    else
      var k := Min(16, |s|);
      Xor(s[..k], E(CounterBlock(iv, i))) + CtrCrypt(E, iv, i + 1, s[k..])
  }

  function Tag(E: BlockFn, iv: seq<byte>, add: seq<byte>, p: seq<byte>, t: nat): (r: seq<byte>)
    requires NonceLength(|iv|) && t <= 16
    ensures |r| == t
  {
    XorBlock(Mac(E, Zeros(16), Formatted(iv, add, p, t)), E(CounterBlock(iv, 0)))[..t]
  }

  /** The lengths ccm_auth_crypt accepts. */
  predicate Accepts(ivLen: nat, addLen: nat, len: nat, t: nat) {
    TagLength(t) && NonceLength(ivLen) && addLen < 0xFF00 && len < Pow256(15 - ivLen)
  }

  // ---------------------------------------------------------------- properties of the specification

  lemma {:induction false} CtrCryptTwice(E: BlockFn, iv: seq<byte>, i: nat, s: seq<byte>)
    requires NonceLength(|iv|)
    ensures CtrCrypt(E, iv, i, CtrCrypt(E, iv, i, s)) == s
    decreases |s|
  {
    hide CounterBlock;
    if s != [] {
      var k := Min(16, |s|);
      var r := CtrCrypt(E, iv, i, s);
      CtrCryptTwice(E, iv, i + 1, s[k..]);
      XorXor(s[..k], E(CounterBlock(iv, i)));
      assert r[..k] == Xor(s[..k], E(CounterBlock(iv, i))) && r[k..] == CtrCrypt(E, iv, i + 1, s[k..]);
    }
  }

  /** Byte j of the payload meets byte j mod 16 of key stream block j / 16 + 1 (section 6.1, step 8). */
  lemma {:induction false} CtrCryptAt(E: BlockFn, iv: seq<byte>, i: nat, s: seq<byte>, j: nat)
    requires NonceLength(|iv|) && j < |s|
    ensures CtrCrypt(E, iv, i, s)[j] == Add(s[j], E(CounterBlock(iv, i + j / 16))[j % 16])
    decreases |s|
  {
    hide CounterBlock, CtrCrypt, Add;
    var k := Min(16, |s|);
    CtrNext(E, iv, i, s);
    if j >= 16 {
      CtrCryptAt(E, iv, i + 1, s[16..], j - 16);
    } else {
      XorAt(s[..k], E(CounterBlock(iv, i)), j);
    }
  }

  lemma XorAt(a: seq<byte>, b: seq<byte>, j: nat)
    requires |a| <= |b| && j < |a|
    ensures Xor(a, b)[j] == Add(a[j], b[j])
  {
  }

  /** One key stream over two payloads cancels out of their difference. */
  lemma CtrCryptDifference(E: BlockFn, iv: seq<byte>, i: nat, s: seq<byte>, t: seq<byte>)
    requires NonceLength(|iv|) && |s| == |t|
    ensures Xor(CtrCrypt(E, iv, i, s), CtrCrypt(E, iv, i, t)) == Xor(s, t)
  {
    hide CtrCrypt, CounterBlock;
    forall j | 0 <= j < |s| ensures CtrCrypt(E, iv, i, s)[j] ^ CtrCrypt(E, iv, i, t)[j] == s[j] ^ t[j] {
      CtrCryptAt(E, iv, i, s, j);
      CtrCryptAt(E, iv, i, t, j);
      Cancels(s[j], t[j], E(CounterBlock(iv, i + j / 16))[j % 16]);
    }
  }

  lemma Cancels(x: byte, y: byte, k: byte)
    ensures Add(x, k) ^ Add(y, k) == x ^ y
  {
  }

  lemma CounterBlockInjective(iv: seq<byte>, i: nat, j: nat)
    requires NonceLength(|iv|) && i < Pow256(Q(iv)) && j < Pow256(Q(iv)) && i != j
    ensures CounterBlock(iv, i) != CounterBlock(iv, j)
  {
    hide BeBytes, BeNat, Pow256;
    BeRoundTrip(Q(iv), i);
    BeRoundTrip(Q(iv), j);
    assert CounterBlock(iv, i)[1 + |iv|..] == BeBytes(Q(iv), i);
    assert CounterBlock(iv, j)[1 + |iv|..] == BeBytes(Q(iv), j);
  }

  /** In an accepted call the counters 0 for the tag and 1 to ceil(len/16) for the payload make distinct blocks. */
  lemma CountersOfCallDistinct(iv: seq<byte>, addLen: nat, len: nat, t: nat, i: nat, j: nat)
    requires Accepts(|iv|, addLen, len, t)
    requires i < j <= (len + 15) / 16
    ensures CounterBlock(iv, i) != CounterBlock(iv, j)
  {
    hide CounterBlock;
    assert Pow256(Q(iv)) == 256 * (256 * Pow256(Q(iv) - 2));
    CounterBlockInjective(iv, i, j);
  }

  lemma FlagBits(adata: bool, t: nat, q: nat)
    requires 4 <= t <= 16 && t % 2 == 0 && 2 <= q <= 8
    ensures var f := Flags(adata, t, q);
            && f >> 7 == 0
            && (f >> 6 == 1 <==> adata)
            && (f >> 3) & 7 == ToByte((t - 2) / 2)
            && f & 7 == ToByte(q - 1)
            && (f >> 3) & 7 != 0
  {
    assert (t - 2) / 2 * 8 % 256 == (t - 2) / 2 * 8;
    SmallField((t - 2) / 2);
    SmallField(q - 1);
  }

  lemma SmallField(n: nat)
    requires 1 <= n <= 7
    ensures ToByte(n) < 8 && ToByte(n) != 0 && ToByte(n * 8) == ToByte(n) << 3
  {
    assert n == 1 || n == 2 || n == 3 || n == 4 || n == 5 || n == 6 || n == 7;
  }

  /** Without a tag the wrapped length field sets all five upper bits, not the zero bits of CCM*. */
  lemma FlagBitsNoTag(adata: bool, q: nat)
    requires 2 <= q <= 8
    ensures Flags(adata, 0, q) >> 3 == 0x1F
  {
    SmallField(q - 1);
  }

  /** The first authenticated block is no counter block, whatever the counter. */
  lemma FirstBlockApart(iv: seq<byte>, adata: bool, len: nat, t: nat, i: nat)
    requires NonceLength(|iv|) && TagLength(t)
    ensures FirstBlock(iv, adata, len, t) != CounterBlock(iv, i)
  {
    hide Flags, ToByte;
    assert FirstBlock(iv, adata, len, t)[0] == Flags(adata, t, Q(iv));
    assert CounterBlock(iv, i)[0] == ToByte(Q(iv) - 1);
    if t == 0 { FlagBitsNoTag(adata, Q(iv)); } else { FlagBits(adata, t, Q(iv)); }
    SmallField(Q(iv) - 1);
  }

  lemma {:induction false} MacAppend(E: BlockFn, y: Block, a: seq<Block>, b: seq<Block>)
    ensures Mac(E, y, a + b) == Mac(E, Mac(E, y, a), b)
    decreases |a|
  {
    hide MacStep;
    if a == [] {
      assert a + b == b;
    } else {
      assert (a + b)[0] == a[0] && (a + b)[1..] == a[1..] + b;
      MacAppend(E, MacStep(E, y, a[0]), a[1..], b);
    }
  }

  /** The MAC is the last ciphertext block of CBC over the same blocks (section 6.1, steps 2 to 4). */
  lemma {:induction false} MacIsCbc(E: BlockFn, y: Block, bs: seq<Block>)
    ensures Mac(E, y, bs) == if bs == [] then y else CbcEncrypt(E, y, bs)[|bs| - 1]
    decreases |bs|
  {
    hide Mac;
    if bs == [] {
      MacNone(E, y);
    } else {
      var init, last := bs[..|bs| - 1], bs[|bs| - 1];
      MacIsCbc(E, y, init);
      MacAppend(E, y, init, [last]);
      MacOne(E, Mac(E, y, init), last);
      assert bs == init + [last];
    }
  }

  lemma MacNone(E: BlockFn, y: Block)
    ensures Mac(E, y, []) == y
  {
  }

  lemma MacOne(E: BlockFn, y: Block, b: Block)
    ensures Mac(E, y, [b]) == E(XorBlock(b, y))
  {
    assert [b][1..] == [];
    assert XorBlock(y, b) == XorBlock(b, y);
  }

  /** The tag, through CBC and the key stream block of counter 0 alone (section 6.1, steps 4 to 8). */
  lemma TagIs(E: BlockFn, iv: seq<byte>, add: seq<byte>, p: seq<byte>, t: nat)
    requires NonceLength(|iv|) && t <= 16
    ensures var c := CbcEncrypt(E, Zeros(16), Formatted(iv, add, p, t));
            c != [] && Tag(E, iv, add, p, t) == Xor(c[|c| - 1], E(CounterBlock(iv, 0)))[..t]
  {
    hide CbcEncrypt, Mac, FirstBlock, PadBlocks, CounterBlock, Xor;
    MacIsCbc(E, Zeros(16), Formatted(iv, add, p, t));
  }

  /** Padding adds zeros up to a whole number of blocks. */
  lemma {:induction false} PaddedBytes(s: seq<byte>)
    ensures Flatten(PadBlocks(s)) == s + Zeros((16 - |s| % 16) % 16)
    decreases |s|
  {
    hide PadBlocks, Flatten;
    if s == [] {
      NoBlocks();
    } else {
      var k := Min(16, |s|);
      PadBlocksNext(s);
      assert PadBlocks(s) == [Pad(s[..k])] + PadBlocks(s[k..]);
      FlattenAppend([Pad(s[..k])], PadBlocks(s[k..]));
      OneBlock(Pad(s[..k]));
      PaddedBytes(s[k..]);
      assert s == s[..k] + s[k..];
      if |s| >= 16 {
        assert (|s| - 16) % 16 == |s| % 16;
        assert Pad(s[..k]) == s[..k];
      }
    }
  }

  lemma NoBlocks()
    ensures PadBlocks([]) == [] && Flatten([]) == []
  {
  }

  lemma OneBlock(b: Block)
    ensures Flatten([b]) == b
  {
    FlattenNext([], b);
    assert [] + [b] == [b];
  }

  /** What is authenticated: the first block, then additional data with its length and payload, each padded. */
  lemma FormattedBytes(iv: seq<byte>, add: seq<byte>, p: seq<byte>, t: nat)
    requires NonceLength(|iv|) && t <= 16
    ensures var d := if add == [] then [] else BeBytes(2, |add|) + add;
            Flatten(Formatted(iv, add, p, t))
            == FirstBlock(iv, add != [], |p|, t) + (d + Zeros((16 - |d| % 16) % 16)) + (p + Zeros((16 - |p| % 16) % 16))
  {
    hide PadBlocks, Flatten, FirstBlock;
    var b0 := [FirstBlock(iv, add != [], |p|, t)];
    var d := if add == [] then [] else BeBytes(2, |add|) + add;
    NoBlocks();
    FlattenAppend(b0 + PadBlocks(d), PadBlocks(p));
    FlattenAppend(b0, PadBlocks(d));
    OneBlock(b0[0]);
    PaddedBytes(d);
    PaddedBytes(p);
    if add == [] {
      assert b0 + PadBlocks(d) == b0 + [];
    }
  }

  /** The places of the first block: flags, nonce, and the length in what is left. */
  lemma FirstBlockBytes(iv: seq<byte>, adata: bool, len: nat, t: nat)
    requires NonceLength(|iv|) && t <= 16 && len < Pow256(15 - |iv|)
    ensures var b := FirstBlock(iv, adata, len, t); b[1..1 + |iv|] == iv && BeNat(b[1 + |iv|..]) == len
    ensures 4 <= t && t % 2 == 0 ==>
      var f := FirstBlock(iv, adata, len, t)[0];
      f >> 7 == 0 && (f >> 6 == 1 <==> adata) && (f >> 3) & 7 == ToByte((t - 2) / 2) && f & 7 == ToByte(14 - |iv|)
  {
    hide Pow256, BeNat, BeBytes, Flags;
    BeRoundTrip(Q(iv), len);
    var b := FirstBlock(iv, adata, len, t);
    assert b[1 + |iv|..] == BeBytes(Q(iv), len);
    if 4 <= t && t % 2 == 0 {
      FlagBits(adata, t, Q(iv));
    }
  }

  /** The places of a counter block: length of the counter field, nonce, counter. */
  lemma CounterBlockBytes(iv: seq<byte>, i: nat)
    requires NonceLength(|iv|) && i < Pow256(15 - |iv|)
    ensures var b := CounterBlock(iv, i);
            b[0] == ToByte(14 - |iv|) && b[1..1 + |iv|] == iv && BeNat(b[1 + |iv|..]) == i
  {
    hide Pow256, BeNat, BeBytes;
    BeRoundTrip(Q(iv), i);
    assert CounterBlock(iv, i)[1 + |iv|..] == BeBytes(Q(iv), i);
  }

  lemma PadBlocksNext(s: seq<byte>)
    requires s != []
    ensures var k := Min(16, |s|);
            k <= |s| && PadBlocks(s)[0] == Pad(s[..k]) && PadBlocks(s)[1..] == PadBlocks(s[k..]) && PadBlocks(s) != []
  {
  }

  lemma MacNext(E: BlockFn, y: Block, s: seq<byte>)
    requires s != []
    ensures var k := Min(16, |s|);
            0 < k <= |s| && k <= 16 && Mac(E, y, PadBlocks(s)) == Mac(E, MacStep(E, y, Pad(s[..k])), PadBlocks(s[k..]))
  {
    hide PadBlocks, MacStep, Pad;
    PadBlocksNext(s);
  }

  lemma MacDone(E: BlockFn, y: Block)
    ensures Mac(E, y, PadBlocks([])) == y
  {
  }

  // ---------------------------------------------------------------- the loops

  /** memset(b, 0, 16); memcpy(b, src, n) */
  method FillBlock(b: array<byte>, src: seq<byte>)
    requires b.Length == 16 && |src| <= 16
    modifies b
    ensures b[..] == Pad(src)
  {
    CopyInto(b, 0, Zeros(16));
    CopyInto(b, 0, src);
  }

  method Clear(y: array<byte>)
    requires y.Length == 16
    modifies y
    ensures y[..] == Zeros(16)
  {
    CopyInto(y, 0, Zeros(16));
  }

  /** UPDATE_CBC_MAC */
  method UpdateMac(E: BlockFn, y: array<byte>, b: array<byte>)
    requires y.Length == 16 && b.Length == 16 && y != b
    modifies y
    ensures y[..] == MacStep(E, old(y[..]), old(b[..]))
  {
    ghost var x := XorBlock(y[..], b[..]);
    XorInto(y, 0, y[..], b[..]);
    assert y[..] == x;
    CopyInto(y, 0, E(y[..]));
    assert y[..] == E(x);
  }

  /** The loop that authenticates what is left, a padded block at a time. */
  method MacStream(E: BlockFn, y: array<byte>, b: array<byte>, src: seq<byte>)
    requires y.Length == 16 && b.Length == 16 && y != b
    modifies y, b
    ensures y[..] == Mac(E, old(y[..]), PadBlocks(src))
  {
    hide *;
    var pos := 0;
    ghost var y0: Block := y[..];
    assert src[0..] == src;
    while pos < |src|
      invariant 0 <= pos <= |src|
      invariant Mac(E, y[..], PadBlocks(src[pos..])) == Mac(E, y0, PadBlocks(src))
    {
      MacNext(E, y[..], src[pos..]);
      MinIs(16, |src| - pos);
      var useLen := if |src| - pos > 16 then 16 else |src| - pos;
      assert src[pos..][..useLen] == src[pos..pos + useLen] && src[pos..][useLen..] == src[pos + useLen..];
      FillBlock(b, src[pos..pos + useLen]);
      UpdateMac(E, y, b);
      pos := pos + useLen;
    }
    assert src[pos..] == [];
    MacDone(E, y[..]);
  }

  lemma MinIs(a: nat, b: nat)
    ensures Min(a, b) == if b > a then a else b
  {
  }

  /** The additional data: its length in two bytes, then the data, padded. */
  method MacAdditional(E: BlockFn, y: array<byte>, b: array<byte>, add: seq<byte>)
    requires y.Length == 16 && b.Length == 16 && y != b && add != []
    modifies y, b
    ensures y[..] == Mac(E, old(y[..]), PadBlocks(BeBytes(2, |add|) + add))
  {
    hide *;
    ghost var whole := BeBytes(2, |add|) + add;
    var useLen := if |add| < 14 then |add| else 14;
    MacNext(E, y[..], whole);
    MinIs(16, |whole|);
    assert whole[..useLen + 2] == BeBytes(2, |add|) + add[..useLen] && whole[useLen + 2..] == add[useLen..];
    FillBlock(b, BeBytes(2, |add|) + add[..useLen]);
    UpdateMac(E, y, b);
    MacStream(E, y, b, add[useLen..]);
  }

  // The length field.

  /** What is left of v after i shifts by eight bits. */
  function Shifted(v: nat, i: nat): nat {
    if i == 0 then v else Shifted(v, i - 1) / 256
  }

  lemma {:induction false} ShiftFirst(v: nat, i: nat)
    ensures Shifted(v, i + 1) == Shifted(v / 256, i)
  {
    if i > 0 {
      ShiftFirst(v, i - 1);
    }
  }

  lemma {:induction false} ShiftedOut(v: nat, i: nat)
    ensures Shifted(v, i) > 0 <==> v >= Pow256(i)
    decreases i
  {
    if i > 0 {
      ShiftFirst(v, i - 1);
      ShiftedOut(v / 256, i - 1);
    }
  }

  lemma {:induction false} BeBytesFront(v: nat, i: nat)
    ensures BeBytes(i + 1, v) == [ToByte(Shifted(v, i) % 256)] + BeBytes(i, v)
    decreases i
  {
    hide ToByte;
    if i > 0 {
      BeBytesFront(v / 256, i - 1);
      ShiftFirst(v, i - 1);
    } else {
      assert BeBytes(0, v / 256) == [];
    }
  }

  /** Writes the length into the last q bytes and returns what did not fit. */
  method PutLength(b: array<byte>, q: nat, len: nat) returns (left: nat)
    requires b.Length == 16 && q <= 16
    modifies b
    ensures b[..] == old(b[..16 - q]) + BeBytes(q, len)
    ensures left > 0 <==> len >= Pow256(q)
  {
    hide *;
    left := len;
    BytesNone(len);
    for i := 0 to q
      invariant left == Shifted(len, i)
      invariant b[..16 - i] == old(b[..16 - i]) && b[16 - i..] == BeBytes(i, len)
    {
      BeBytesFront(len, i);
      ghost var tail := b[16 - i..];
      b[15 - i] := ToByte(left % 256);
      assert b[16 - (i + 1)..] == [b[15 - i]] + tail;
      ShiftNext(len, i);
      left := left / 256;
    }
    ShiftedOut(len, q);
    assert b[..] == b[..16 - q] + b[16 - q..];
  }

  lemma BytesNone(v: nat)
    ensures BeBytes(0, v) == [] && Shifted(v, 0) == v
  {
  }

  lemma ShiftNext(v: nat, i: nat)
    ensures Shifted(v, i + 1) == Shifted(v, i) / 256
  {
  }

  /** Block B0; reports whether the length fits its field. */
  method PutFirstBlock(b: array<byte>, iv: seq<byte>, adata: bool, len: nat, t: nat) returns (fits: bool)
    requires b.Length == 16 && NonceLength(|iv|) && t <= 16
    modifies b
    ensures b[..] == FirstBlock(iv, adata, len, t)
    ensures fits <==> len < Pow256(Q(iv))
  {
    hide Flags, BeBytes, Pow256;
    b[0] := Flags(adata, t, Q(iv));
    CopyInto(b, 1, iv);
    assert b[..16 - Q(iv)] == [Flags(adata, t, Q(iv))] + iv;
    var left := PutLength(b, Q(iv), len);
    fits := left == 0;
  }

  // The counter.

  /** Incrementing the counter field of counter block i gives block i + 1. */
  lemma NextCounterBlock(iv: seq<byte>, i: nat)
    requires NonceLength(|iv|)
    ensures Increment(BeBytes(Q(iv), i)) == BeBytes(Q(iv), i + 1)
  {
    hide BeBytes, BeNat, Pow256, Increment, Mod;
    var q := Q(iv);
    BeNatOfBytes(q, i);
    BeNatOfBytes(q, i + 1);
    IncrementValue(BeBytes(q, i));
    ModSuccessor(i, Pow256(q));
    BeNatInjective(Increment(BeBytes(q, i)), BeBytes(q, i + 1));
  }

  method IncrementCounter(ctr: array<byte>, ghost iv: seq<byte>, ghost i: nat, q: nat)
    requires ctr.Length == 16 && NonceLength(|iv|) && q == Q(iv) && ctr[..] == CounterBlock(iv, i)
    modifies ctr
    ensures ctr[..] == CounterBlock(iv, i + 1)
  {
    hide BeBytes, Increment, ToByte;
    assert ctr[16 - q..] == ctr[..][16 - q..] == BeBytes(q, i) && ctr[..16 - q] == ctr[..][..16 - q] == [ToByte(q - 1)] + iv;
    NextCounterBlock(iv, i);
    IncrementFrom(ctr, 16 - q);
  }

  /** Counter block 1. */
  method PutCounter(ctr: array<byte>, iv: seq<byte>, q: nat)
    requires ctr.Length == 16 && NonceLength(|iv|) && q == Q(iv)
    modifies ctr
    ensures ctr[..] == CounterBlock(iv, 1)
  {
    hide ToByte, BeBytes;
    ctr[0] := ToByte(q - 1);
    CopyInto(ctr, 1, iv);
    CopyInto(ctr, 1 + |iv|, Zeros(q));
    ctr[15] := 1;
    SmallCounters(q);
    assert ctr[..] == [ToByte(q - 1)] + iv + (Zeros(q - 1) + [1]);
  }

  lemma {:induction false} SmallCounters(q: nat)
    requires q > 0
    ensures BeBytes(q, 1) == Zeros(q - 1) + [1] && BeBytes(q, 0) == Zeros(q)
    decreases q
  {
    AllZero(q - 1);
    AllZero(q);
    assert ToByte(1) == 1;
  }

  lemma {:induction false} AllZero(q: nat)
    ensures BeBytes(q, 0) == Zeros(q)
  {
    if q > 0 {
      AllZero(q - 1);
    }
  }

  method ResetCounter(ctr: array<byte>, ghost iv: seq<byte>, ghost i: nat, q: nat)
    requires ctr.Length == 16 && NonceLength(|iv|) && q == Q(iv) && ctr[..] == CounterBlock(iv, i)
    modifies ctr
    ensures ctr[..] == CounterBlock(iv, 0)
  {
    hide ToByte, BeBytes;
    CopyInto(ctr, 16 - q, Zeros(q));
    SmallCounters(q);
  }

  // Authentication and encryption together.

  /** CTR_CRYPT into the output buffer. */
  method CtrInto(E: BlockFn, ctr: array<byte>, b: array<byte>, src: seq<byte>, output: array<byte>, at: nat)
    requires ctr.Length == 16 && b.Length == 16 && ctr != b && output != b && output != ctr
    requires |src| <= 16 && at + |src| <= output.Length
    modifies b, output
    ensures output[..] == Splice(old(output[..]), at, Xor(src, E(ctr[..])))
  {
    hide Splice;
    CopyInto(b, 0, E(ctr[..]));
    SpliceBlock(old(b[..]), E(ctr[..]));
    XorInto(output, at, src, b[..]);
  }

  /** Encrypting authenticates the input, decrypting what is put out. */
  function Payload(E: BlockFn, encrypting: bool, iv: seq<byte>, input: seq<byte>): (p: seq<byte>)
    requires NonceLength(|iv|)
    ensures |p| == |input|
  {
    if encrypting then input else CtrCrypt(E, iv, 1, input)
  }

  lemma PayloadDef(E: BlockFn, encrypting: bool, iv: seq<byte>, input: seq<byte>)
    requires NonceLength(|iv|)
    ensures Payload(E, encrypting, iv, input) == if encrypting then input else CtrCrypt(E, iv, 1, input)
  {
  }

  lemma CtrNext(E: BlockFn, iv: seq<byte>, i: nat, s: seq<byte>)
    requires NonceLength(|iv|) && s != []
    ensures var k := Min(16, |s|);
            0 < k <= |s| && k <= 16 && CtrCrypt(E, iv, i, s) == Xor(s[..k], E(CounterBlock(iv, i))) + CtrCrypt(E, iv, i + 1, s[k..])
  {
  }

  /** One block of payload. */
  method PayloadStep(E: BlockFn, encrypting: bool, y: array<byte>, b: array<byte>, ctr: array<byte>,
                     src: seq<byte>, output: array<byte>, at: nat, ghost done: seq<byte>, ghost out0: seq<byte>)
    returns (ghost crypt: seq<byte>)
    requires y.Length == 16 && b.Length == 16 && ctr.Length == 16
    requires y != b && y != ctr && b != ctr && output != y && output != b && output != ctr
    requires |src| <= 16 && at + |src| <= output.Length == |out0| && at == |done| && output[..] == done + out0[at..]
    modifies y, b, output
    ensures crypt == Xor(src, E(ctr[..])) && output[..] == done + crypt + out0[at + |src|..]
    ensures y[..] == MacStep(E, old(y[..]), Pad(if encrypting then src else crypt))
  {
    hide Splice, Pad, MacStep;
    crypt := Xor(src, E(ctr[..]));
    ghost var out1 := output[..];
    if encrypting {
      FillBlock(b, src);
      UpdateMac(E, y, b);
    }
    CtrInto(E, ctr, b, src, output, at);
    SpliceDone(done, crypt, out0);
    if !encrypting {
      assert output[at..at + |src|] == output[..][at..at + |src|] == crypt;
      FillBlock(b, output[at..at + |src|]);
      UpdateMac(E, y, b);
    }
  }

  lemma SpliceDone(done: seq<byte>, v: seq<byte>, out0: seq<byte>)
    requires |done| + |v| <= |out0|
    ensures Splice(done + out0[|done|..], |done|, v) == done + v + out0[|done| + |v|..]
  {
  }

  method CryptPayload(E: BlockFn, encrypting: bool, iv: seq<byte>, q: nat, y: array<byte>, b: array<byte>, ctr: array<byte>,
                      input: seq<byte>, output: array<byte>)
    returns (ghost i: nat)
    requires NonceLength(|iv|) && q == Q(iv) && |input| <= output.Length
    requires y.Length == 16 && b.Length == 16 && ctr.Length == 16 && ctr[..] == CounterBlock(iv, 1)
    requires y != b && y != ctr && b != ctr && output != y && output != b && output != ctr
    modifies y, b, ctr, output
    ensures ctr[..] == CounterBlock(iv, i)
    ensures output[..] == CtrCrypt(E, iv, 1, input) + old(output[|input|..])
    ensures y[..] == Mac(E, old(y[..]), PadBlocks(Payload(E, encrypting, iv, input)))
  {
    hide *;
    var pos := 0;
    i := 1;
    ghost var y0: Block, out0 := y[..], output[..];
    ghost var done: seq<byte> := [];
    StartPayload(E, encrypting, iv, input, y0, out0);
    while pos < |input|
      invariant pos == |done| && Sofar(E, encrypting, iv, input, y0, i, done, y[..])
      invariant pos <= |input| && ctr[..] == CounterBlock(iv, i)
      invariant output[..] == done + out0[pos..]
    {
      done := PayloadBlock(E, encrypting, iv, q, y, b, ctr, input, output, pos, i, y0, done, out0);
      pos := if |input| - pos > 16 then pos + 16 else |input|;
      i := i + 1;
    }
    EndPayload(E, encrypting, iv, input, y0, i, done, y[..]);
  }

  /** One iteration of the payload loop. */
  method PayloadBlock(E: BlockFn, encrypting: bool, iv: seq<byte>, q: nat, y: array<byte>, b: array<byte>, ctr: array<byte>,
                      input: seq<byte>, output: array<byte>, pos: nat,
                      ghost i: nat, ghost y0: Block, ghost done: seq<byte>, ghost out0: seq<byte>)
    returns (ghost done': seq<byte>)
    requires NonceLength(|iv|) && q == Q(iv) && pos == |done| < |input| <= output.Length == |out0|
    requires y.Length == 16 && b.Length == 16 && ctr.Length == 16 && ctr[..] == CounterBlock(iv, i)
    requires y != b && y != ctr && b != ctr && output != y && output != b && output != ctr
    requires Sofar(E, encrypting, iv, input, y0, i, done, y[..]) && output[..] == done + out0[pos..]
    modifies y, b, ctr, output
    ensures ctr[..] == CounterBlock(iv, i + 1) && Sofar(E, encrypting, iv, input, y0, i + 1, done', y[..])
    ensures |done'| == (if |input| - pos > 16 then pos + 16 else |input|) && output[..] == done' + out0[|done'|..]
  {
    hide *;
    var useLen := if |input| - pos > 16 then 16 else |input| - pos;
    NextPayload(E, encrypting, iv, input, y0, i, done, y[..], useLen);
    ghost var crypt := PayloadStep(E, encrypting, y, b, ctr, input[pos..pos + useLen], output, pos, done, out0);
    done' := done + crypt;
    IncrementCounter(ctr, iv, i, q);
  }

  /** After i - 1 blocks: what is done continues to the whole output, and the CBC-MAC to that of the whole payload. */
  ghost predicate Sofar(E: BlockFn, encrypting: bool, iv: seq<byte>, input: seq<byte>, y0: Block, i: nat, done: seq<byte>, y: Block)
    requires NonceLength(|iv|)
  {
    var p := Payload(E, encrypting, iv, input);
    && |done| <= |input|
    && done + CtrCrypt(E, iv, i, input[|done|..]) == CtrCrypt(E, iv, 1, input)
    && Mac(E, y, PadBlocks(p[|done|..])) == Mac(E, y0, PadBlocks(p))
  }

  lemma StartPayload(E: BlockFn, encrypting: bool, iv: seq<byte>, input: seq<byte>, y0: Block, out0: seq<byte>)
    requires NonceLength(|iv|)
    ensures Sofar(E, encrypting, iv, input, y0, 1, [], y0) && [] + out0[0..] == out0
  {
    hide Mac, PadBlocks, CtrCrypt, Payload;
    var p := Payload(E, encrypting, iv, input);
    assert p[0..] == p && input[0..] == input;
    assert [] + CtrCrypt(E, iv, 1, input) == CtrCrypt(E, iv, 1, input);
  }

  lemma NextPayload(E: BlockFn, encrypting: bool, iv: seq<byte>, input: seq<byte>, y0: Block, i: nat, done: seq<byte>, y: Block, k: nat)
    requires NonceLength(|iv|) && Sofar(E, encrypting, iv, input, y0, i, done, y) && |done| < |input|
    requires k == if |input| - |done| > 16 then 16 else |input| - |done|
    ensures var src := input[|done|..|done| + k];
            var crypt := Xor(src, E(CounterBlock(iv, i)));
            Sofar(E, encrypting, iv, input, y0, i + 1, done + crypt, MacStep(E, y, Pad(if encrypting then src else crypt)))
  {
    hide Mac, PadBlocks, CtrCrypt, Payload, MacStep, Pad;
    var p, pos := Payload(E, encrypting, iv, input), |done|;
    var src := input[pos..pos + k];
    var crypt := Xor(src, E(CounterBlock(iv, i)));
    PayloadPieces(E, iv, i, input, pos, k, done);
    PayloadDef(E, encrypting, iv, input);
    assert p[pos..][..k] == (if encrypting then src else crypt) && p[pos..][k..] == p[pos + k..];
    MacNext(E, y, p[pos..]);
  }

  lemma EndPayload(E: BlockFn, encrypting: bool, iv: seq<byte>, input: seq<byte>, y0: Block, i: nat, done: seq<byte>, y: Block)
    requires NonceLength(|iv|) && Sofar(E, encrypting, iv, input, y0, i, done, y) && |done| == |input|
    ensures done == CtrCrypt(E, iv, 1, input) && y == Mac(E, y0, PadBlocks(Payload(E, encrypting, iv, input)))
  {
    hide Mac, PadBlocks, CtrCrypt, Payload;
    var p := Payload(E, encrypting, iv, input);
    assert p[|done|..] == [] && CtrCrypt(E, iv, i, input[|done|..]) == [];
    MacDone(E, y);
    assert done + [] == done;
  }

  /** The next block of the output, and what remains. */
  lemma PayloadPieces(E: BlockFn, iv: seq<byte>, i: nat, input: seq<byte>, pos: nat, k: nat, done: seq<byte>)
    requires NonceLength(|iv|) && pos < |input| && k == (if |input| - pos > 16 then 16 else |input| - pos)
    requires |done| == pos
    ensures var c, crypt := done + CtrCrypt(E, iv, i, input[pos..]), Xor(input[pos..pos + k], E(CounterBlock(iv, i)));
            && c == (done + crypt) + CtrCrypt(E, iv, i + 1, input[pos + k..])
            && c[pos..][..k] == crypt
  {
    hide *;
    var rest := input[pos..];
    MinIs(16, |rest|);
    CtrNext(E, iv, i, rest);
    assert rest[..k] == input[pos..pos + k] && rest[k..] == input[pos + k..];
  }

  /** ccm_auth_crypt */
  method AuthCrypt(E: BlockFn, encrypting: bool, iv: seq<byte>, add: seq<byte>, input: seq<byte>, output: array<byte>,
                   tagLen: nat)
    returns (ret: int, tag: seq<byte>)
    requires |input| <= output.Length
    modifies output
    ensures ret == if Accepts(|iv|, |add|, |input|, tagLen) then 0 else CCM_BAD_INPUT
    ensures ret == 0 <==>
      tagLen % 2 == 0 && tagLen != 2 && tagLen <= 16 && 7 <= |iv| <= 13 && |add| < 0xFF00 && |input| < Pow256(15 - |iv|)
    ensures ret != 0 ==> unchanged(output) && tag == []
    ensures ret == 0 ==>
      && output[..] == CtrCrypt(E, iv, 1, input) + old(output[|input|..])
      && tag == Tag(E, iv, add, Payload(E, encrypting, iv, input), tagLen)
    ensures ret == 0 ==>
      var p := if encrypting then input else output[..|input|];
      var c := CbcEncrypt(E, Zeros(16), Formatted(iv, add, p, tagLen));
      c != [] && tag == Xor(c[|c| - 1], E(CounterBlock(iv, 0)))[..tagLen]
  {
    hide Tag, CtrCrypt, Payload, Formatted, CounterBlock, CbcEncrypt, Xor, Pow256;
    tag := [];
    if tagLen == 2 || tagLen > 16 || tagLen % 2 != 0 {
      return CCM_BAD_INPUT, tag;
    }
    if |iv| < 7 || |iv| > 13 {
      return CCM_BAD_INPUT, tag;
    }
    if |add| >= 0xFF00 {
      return CCM_BAD_INPUT, tag;
    }
    ret, tag := AuthCryptChecked(E, encrypting, iv, add, input, output, tagLen);
    if ret == 0 {
      PayloadDef(E, encrypting, iv, input);
      ghost var p := Payload(E, encrypting, iv, input);
      assert !encrypting ==> output[..|input|] == output[..][..|input|] == p;
      TagIs(E, iv, add, p, tagLen);
    }
  }

  method AuthCryptChecked(E: BlockFn, encrypting: bool, iv: seq<byte>, add: seq<byte>, input: seq<byte>, output: array<byte>,
                          tagLen: nat)
    returns (ret: int, tag: seq<byte>)
    requires |input| <= output.Length && TagLength(tagLen) && NonceLength(|iv|)
    modifies output
    ensures ret == if |input| < Pow256(15 - |iv|) then 0 else CCM_BAD_INPUT
    ensures ret != 0 ==> unchanged(output) && tag == []
    ensures ret == 0 ==>
      && output[..] == CtrCrypt(E, iv, 1, input) + old(output[|input|..])
      && tag == Tag(E, iv, add, Payload(E, encrypting, iv, input), tagLen)
  {
    hide Tag, CtrCrypt, Payload, PadBlocks, FirstBlock, CounterBlock, Mac, MacStep, Pow256, Splice, Formatted;
    var b, y, ctr := new byte[16], new byte[16], new byte[16];
    var q := 15 - |iv|;
    var fits := PutFirstBlock(b, iv, add != [], |input|, tagLen);
    if !fits {
      return CCM_BAD_INPUT, [];
    }
    Clear(y);
    ghost var p := Payload(E, encrypting, iv, input);
    UpdateMac(E, y, b);
    ghost var y1: Block := y[..];
    if add != [] {
      MacAdditional(E, y, b, add);
    }
    ghost var y2: Block := y[..];
    PutCounter(ctr, iv, q);
    ghost var i := CryptPayload(E, encrypting, iv, q, y, b, ctr, input, output);
    MacOfFormatted(E, iv, add, p, tagLen, y1, y2, y[..]);
    ResetCounter(ctr, iv, i, q);
    tag := MaskTag(E, y, ctr, b, tagLen);
    TagDef(E, iv, add, p, tagLen);
    return 0, tag;
  }

  /** CTR_CRYPT(y, y, 16); memcpy(tag, y, tag_len) */
  method MaskTag(E: BlockFn, y: array<byte>, ctr: array<byte>, b: array<byte>, tagLen: nat) returns (tag: seq<byte>)
    requires y.Length == 16 && b.Length == 16 && ctr.Length == 16 && y != b && y != ctr && b != ctr && tagLen <= 16
    modifies y, b
    ensures tag == XorBlock(old(y[..]), E(ctr[..]))[..tagLen]
  {
    hide Splice;
    ghost var was: Block := y[..];
    CtrInto(E, ctr, b, y[..], y, 0);
    SpliceBlock(was, XorBlock(was, E(ctr[..])));
    tag := y[..tagLen];
    assert tag == y[..][..tagLen];
  }

  lemma TagDef(E: BlockFn, iv: seq<byte>, add: seq<byte>, p: seq<byte>, t: nat)
    requires NonceLength(|iv|) && t <= 16
    ensures Tag(E, iv, add, p, t) == XorBlock(Mac(E, Zeros(16), Formatted(iv, add, p, t)), E(CounterBlock(iv, 0)))[..t]
  {
  }

  /** The CBC-MAC taken in three stages is the one over all formatted blocks. */
  lemma MacOfFormatted(E: BlockFn, iv: seq<byte>, add: seq<byte>, p: seq<byte>, t: nat, y1: Block, y2: Block, y3: Block)
    requires NonceLength(|iv|) && t <= 16
    requires y1 == MacStep(E, Zeros(16), FirstBlock(iv, add != [], |p|, t))
    requires y2 == if add == [] then y1 else Mac(E, y1, PadBlocks(BeBytes(2, |add|) + add))
    requires y3 == Mac(E, y2, PadBlocks(p))
    ensures y3 == Mac(E, Zeros(16), Formatted(iv, add, p, t))
  {
    hide PadBlocks, FirstBlock, MacStep;
    var b0 := [FirstBlock(iv, add != [], |p|, t)];
    var a := if add == [] then [] else PadBlocks(BeBytes(2, |add|) + add);
    MacAppend(E, Zeros(16), b0 + a, PadBlocks(p));
    MacAppend(E, Zeros(16), b0, a);
    assert b0[1..] == [];
  }

  // ---------------------------------------------------------------- the entry points

  /** mbedtls_ccm_star_encrypt_and_tag and mbedtls_ccm_encrypt_and_tag, which refuses an empty tag. */
  method EncryptAndTag(E: BlockFn, star: bool, iv: seq<byte>, add: seq<byte>, input: seq<byte>, output: array<byte>, tagLen: nat)
    returns (ret: int, tag: seq<byte>)
    requires |input| <= output.Length
    modifies output
    ensures ret == if Accepts(|iv|, |add|, |input|, tagLen) && (star || tagLen != 0) then 0 else CCM_BAD_INPUT
    ensures ret != 0 ==> unchanged(output) && tag == []
    ensures ret == 0 ==>
      output[..] == CtrCrypt(E, iv, 1, input) + old(output[|input|..]) && tag == Tag(E, iv, add, input, tagLen)
  {
    hide CtrCrypt, Tag, Pow256;
    if !star && tagLen == 0 {
      return CCM_BAD_INPUT, [];
    }
    ret, tag := AuthCrypt(E, true, iv, add, input, output, tagLen);
  }

  /** mbedtls_ccm_star_auth_decrypt and mbedtls_ccm_auth_decrypt. */
  method AuthDecrypt(E: BlockFn, star: bool, iv: seq<byte>, add: seq<byte>, input: seq<byte>, output: array<byte>, tag: seq<byte>)
    returns (ret: int)
    requires |input| <= output.Length
    modifies output
    ensures !Accepts(|iv|, |add|, |input|, |tag|) || (!star && tag == []) ==> ret == CCM_BAD_INPUT && unchanged(output)
    ensures Accepts(|iv|, |add|, |input|, |tag|) && (star || tag != []) ==>
      var p := CtrCrypt(E, iv, 1, input);
      if tag == Tag(E, iv, add, p, |tag|) then ret == 0 && output[..] == p + old(output[|input|..])
      else ret == CCM_AUTH_FAILED && output[..] == Zeros(|input|) + old(output[|input|..])
  {
    hide CtrCrypt, Tag, Pow256, Splice;
    if !star && tag == [] {
      return CCM_BAD_INPUT;
    }
    ghost var rest := output[|input|..];
    var checkTag;
    ret, checkTag := AuthCrypt(E, false, iv, add, input, output, |tag|);
    if ret != 0 {
      return ret;
    }
    if tag != checkTag {
      ZeroSplice(CtrCrypt(E, iv, 1, input), rest);
      CopyInto(output, 0, Zeros(|input|));
      return CCM_AUTH_FAILED;
    }
    return 0;
  }

  lemma ZeroSplice(p: seq<byte>, rest: seq<byte>)
    ensures Splice(p + rest, 0, Zeros(|p|)) == Zeros(|p|) + rest
  {
  }

  /** What encryption makes is accepted by decryption with the same nonce and data, and gives the payload back. */
  method RoundTrip(E: BlockFn, iv: seq<byte>, add: seq<byte>, p: seq<byte>, tagLen: nat)
    returns (ret: int, ret': int, plain: array<byte>)
    requires tagLen != 0 && Accepts(|iv|, |add|, |p|, tagLen)
    ensures ret == 0 && ret' == 0 && plain[..] == p
  {
    hide CtrCrypt, Tag, Pow256;
    var output := new byte[|p|];
    var tag;
    ret, tag := EncryptAndTag(E, false, iv, add, p, output, tagLen);
    plain := new byte[|p|];
    CtrCryptTwice(E, iv, 1, p);
    assert output[..] == CtrCrypt(E, iv, 1, p);
    ret' := AuthDecrypt(E, false, iv, add, output[..], plain, tag);
  }
}
