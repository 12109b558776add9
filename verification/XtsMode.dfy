/**
 XTS (IEEE Std 1619-2007) over an abstract block cipher: the tweak sequence, whole-block data units,
 ciphertext stealing for the rest, and the buffer loop that computes them.
 */
module XtsMode {
  import opened Bytes
  import opened CbcMode

  const INVALID_INPUT_LENGTH := -0x0022
  const MAX_DATA_UNIT := 0x10_0000 * 16

  // ---------------------------------------------------------------- the tweak field

  /** The element of GF(2^128) a block stands for: bit i of the number is the coefficient of x^i. */
  function Poly(t: Block): bv128 {
    (t[0] as bv128) | (t[1] as bv128 << 8) | (t[2] as bv128 << 16) | (t[3] as bv128 << 24)
    | (t[4] as bv128 << 32) | (t[5] as bv128 << 40) | (t[6] as bv128 << 48) | (t[7] as bv128 << 56)
    | (t[8] as bv128 << 64) | (t[9] as bv128 << 72) | (t[10] as bv128 << 80) | (t[11] as bv128 << 88)
    | (t[12] as bv128 << 96) | (t[13] as bv128 << 104) | (t[14] as bv128 << 112) | (t[15] as bv128 << 120)
  }

  /** Multiplication by x modulo x^128 + x^7 + x^2 + x + 1. */
  function MulX(p: bv128): bv128 {
    (p << 1) ^ (if p >> 127 == 1 then 0x87 else 0)
  }

  function GetLe64(t: Block, off: nat): bv64
    requires off == 0 || off == 8
  {
    (t[off] as bv64) | (t[off + 1] as bv64 << 8) | (t[off + 2] as bv64 << 16) | (t[off + 3] as bv64 << 24)
    | (t[off + 4] as bv64 << 32) | (t[off + 5] as bv64 << 40) | (t[off + 6] as bv64 << 48) | (t[off + 7] as bv64 << 56)
  }

  function PutLe64(w: bv64): (s: seq<byte>)
    ensures |s| == 8
  {
    [(w & 0xFF) as byte, ((w >> 8) & 0xFF) as byte, ((w >> 16) & 0xFF) as byte, ((w >> 24) & 0xFF) as byte,
     ((w >> 32) & 0xFF) as byte, ((w >> 40) & 0xFF) as byte, ((w >> 48) & 0xFF) as byte, ((w >> 56) & 0xFF) as byte]
  }

  /** The bits carried out of the top word, reduced: 0x87 shifted all the way out, or not at all. */
  function Carry(b: bv64): bv64 {
    0x0087 >> (8 - ((b >> 63) << 3))
  }

  function LowWord(a: bv64, b: bv64): bv64 {
    (a << 1) ^ Carry(b)
  }

  function HighWord(a: bv64, b: bv64): bv64 {
    (a >> 63) | (b << 1)
  }

  /** mbedtls_gf128mul_x_ble, on two 64-bit words. */
  function NextTweak(t: Block): Block {
    var a, b := GetLe64(t, 0), GetLe64(t, 8);
    PutLe64(LowWord(a, b)) + PutLe64(HighWord(a, b))
  }

  function Join(a: bv64, b: bv64): bv128 {
    (a as bv128) | (b as bv128 << 64)
  }

  lemma PolyOfWords(t: Block)
    ensures Poly(t) == Join(GetLe64(t, 0), GetLe64(t, 8))
  {
  }

  lemma GetPut(a: bv64, b: bv64)
    ensures GetLe64(PutLe64(a) + PutLe64(b), 0) == a && GetLe64(PutLe64(a) + PutLe64(b), 8) == b
  {
  }

  lemma CarryIsReduction(b: bv64)
    ensures Carry(b) == if b >> 63 == 1 then 0x87 else 0
  {
  }

  lemma TopBit(a: bv64, b: bv64)
    ensures Join(a, b) >> 127 == 1 <==> b >> 63 == 1
  {
  }

  lemma ShiftWords(a: bv64, b: bv64, c: bv64)
    ensures Join((a << 1) ^ c, HighWord(a, b)) == (Join(a, b) << 1) ^ (c as bv128)
  {
  }

  lemma MulXOfWords(a: bv64, b: bv64)
    ensures Join(LowWord(a, b), HighWord(a, b)) == MulX(Join(a, b))
  {
    hide Join, HighWord, Carry;
    CarryIsReduction(b);
    TopBit(a, b);
    ShiftWords(a, b, Carry(b));
  }

  /** The step on words is multiplication by x in the field. */
  lemma NextTweakIsMulX(t: Block)
    ensures Poly(NextTweak(t)) == MulX(Poly(t))
  {
    hide Poly, GetLe64, PutLe64, Join, MulX, LowWord, HighWord;
    var a, b := GetLe64(t, 0), GetLe64(t, 8);
    GetPut(LowWord(a, b), HighWord(a, b));
    PolyOfWords(t);
    PolyOfWords(NextTweak(t));
    MulXOfWords(a, b);
  }

  lemma BytesOfPoly(t: Block)
    ensures t[0] == ((Poly(t) >> 0) & 0xFF) as byte && t[1] == ((Poly(t) >> 8) & 0xFF) as byte
    ensures t[2] == ((Poly(t) >> 16) & 0xFF) as byte && t[3] == ((Poly(t) >> 24) & 0xFF) as byte
    ensures t[4] == ((Poly(t) >> 32) & 0xFF) as byte && t[5] == ((Poly(t) >> 40) & 0xFF) as byte
    ensures t[6] == ((Poly(t) >> 48) & 0xFF) as byte && t[7] == ((Poly(t) >> 56) & 0xFF) as byte
    ensures t[8] == ((Poly(t) >> 64) & 0xFF) as byte && t[9] == ((Poly(t) >> 72) & 0xFF) as byte
    ensures t[10] == ((Poly(t) >> 80) & 0xFF) as byte && t[11] == ((Poly(t) >> 88) & 0xFF) as byte
    ensures t[12] == ((Poly(t) >> 96) & 0xFF) as byte && t[13] == ((Poly(t) >> 104) & 0xFF) as byte
    ensures t[14] == ((Poly(t) >> 112) & 0xFF) as byte && t[15] == ((Poly(t) >> 120) & 0xFF) as byte
  {
  }

  /** A block is determined by its field element, so NextTweak is the only multiplication by x. */
  lemma PolyInjective(t: Block, u: Block)
    requires Poly(t) == Poly(u)
    ensures t == u
  {
    hide Poly;
    BytesOfPoly(t);
    BytesOfPoly(u);
  }

  /** The tweak of block j of a data unit whose first tweak is t. */
  function Tweak(t: Block, j: nat): Block {
    if j == 0 then t else NextTweak(Tweak(t, j - 1))
  }

  // ---------------------------------------------------------------- IEEE Std 1619-2007

  /** One block under one tweak (sections 5.3.1 and 5.4.1). */
  function XtsBlock(F: BlockFn, t: Block, p: Block): Block {
    XorBlock(F(XorBlock(p, t)), t)
  }

  function XtsBlocks(F: BlockFn, t: Block, ps: seq<Block>): (cs: seq<Block>)
    ensures |cs| == |ps|
  {
    if ps == [] then []
    else XtsBlocks(F, t, ps[..|ps| - 1]) + [XtsBlock(F, Tweak(t, |ps| - 1), ps[|ps| - 1])]
  }

  /**
   Stealing: the last full block goes through under one tweak; its result gives up its head as the
   partial block, and its tail fills up the rest, which goes through under the other tweak.
   */
  function Stolen(F: BlockFn, first: Block, second: Block, full: Block, rest: seq<byte>): (s: seq<byte>)
    requires |rest| < 16
    ensures |s| == 16 + |rest|
  {
    var c := XtsBlock(F, first, full);
    XtsBlock(F, second, rest + c[|rest|..]) + c[..|rest|]
  }

  /** Section 5.3.2. */
  function XtsEncrypt(E: BlockFn, t: Block, p: seq<byte>): (c: seq<byte>)
    requires |p| >= 16
    ensures |c| == |p|
  {
    var ps, m := Blocks(p), |p| / 16;
    if |p| % 16 == 0 then Flatten(XtsBlocks(E, t, ps))
    else Flatten(XtsBlocks(E, t, ps[..m - 1])) + Stolen(E, Tweak(t, m - 1), Tweak(t, m), ps[m - 1], p[16 * m..])
  }

  /** Section 5.4.2: the last two tweaks are used in the opposite order. */
  function XtsDecrypt(D: BlockFn, t: Block, c: seq<byte>): (p: seq<byte>)
    requires |c| >= 16
    ensures |p| == |c|
  {
    var cs, m := Blocks(c), |c| / 16;
    if |c| % 16 == 0 then Flatten(XtsBlocks(D, t, cs))
    else Flatten(XtsBlocks(D, t, cs[..m - 1])) + Stolen(D, Tweak(t, m), Tweak(t, m - 1), cs[m - 1], c[16 * m..])
  }

  function Xts(F: BlockFn, t: Block, decrypting: bool, s: seq<byte>): (r: seq<byte>)
    requires |s| >= 16
    ensures |r| == |s|
  {
    if decrypting then XtsDecrypt(F, t, s) else XtsEncrypt(F, t, s)
  }

  /** The tweaks of the last full block and of the partial block after m full ones. */
  function FullTweak(t: Block, decrypting: bool, m: nat): Block
    requires m > 0
  {
    Tweak(t, if decrypting then m else m - 1)
  }

  function PartTweak(t: Block, decrypting: bool, m: nat): Block
    requires m > 0
  {
    Tweak(t, if decrypting then m - 1 else m)
  }

  // ---------------------------------------------------------------- the standard, byte by byte

  /** Multiplication by x modulo the polynomial of the standard. */
  lemma MulXIs(p: bv128)
    ensures MulX(p) == (p << 1) ^ (if p >> 127 == 1 then 0x87 else 0)
  {
  }

  /** The tweaks: the first as given, each further one multiplied by x. */
  lemma TweakSteps(t: Block, j: nat)
    ensures Tweak(t, 0) == t && Poly(Tweak(t, j + 1)) == MulX(Poly(Tweak(t, j)))
  {
    hide Poly, NextTweak, MulX;
    NextTweakIsMulX(Tweak(t, j));
  }

  lemma {:induction false} XtsBlocksAt(F: BlockFn, t: Block, ps: seq<Block>, j: nat)
    requires j < |ps|
    ensures XtsBlocks(F, t, ps)[j] == Xor(F(Xor(ps[j], Tweak(t, j))), Tweak(t, j))
    decreases |ps|
  {
    hide Tweak;
    if j < |ps| - 1 {
      XtsBlocksAt(F, t, ps[..|ps| - 1], j);
    }
  }

  lemma BlockOfFlatten(bs: seq<Block>, j: nat)
    requires j < |bs|
    ensures Flatten(bs)[16 * j..16 * j + 16] == bs[j]
  {
    BlocksOfFlatten(bs);
  }

  /** Blocks that take no part in stealing are added to their tweak, go through the cipher, and are added to it again. */
  lemma XtsEncryptAt(E: BlockFn, t: Block, p: seq<byte>, j: nat)
    requires |p| >= 16 && j < |p| / 16 && (|p| % 16 != 0 ==> j < |p| / 16 - 1)
    ensures XtsEncrypt(E, t, p)[16 * j..16 * j + 16] == Xor(E(Xor(p[16 * j..16 * j + 16], Tweak(t, j))), Tweak(t, j))
  {
    hide Flatten, XtsBlocks, Tweak, Stolen, Xor;
    UnitBlock(E, t, p, j);
  }

  lemma XtsDecryptAt(D: BlockFn, t: Block, c: seq<byte>, j: nat)
    requires |c| >= 16 && j < |c| / 16 && (|c| % 16 != 0 ==> j < |c| / 16 - 1)
    ensures XtsDecrypt(D, t, c)[16 * j..16 * j + 16] == Xor(D(Xor(c[16 * j..16 * j + 16], Tweak(t, j))), Tweak(t, j))
  {
    hide Flatten, XtsBlocks, Tweak, Stolen, Xor;
    UnitBlock(D, t, c, j);
  }

  lemma UnitBlock(F: BlockFn, t: Block, s: seq<byte>, j: nat)
    requires j < |s| / 16
    ensures var q := Xor(F(Xor(s[16 * j..16 * j + 16], Tweak(t, j))), Tweak(t, j));
            && Flatten(XtsBlocks(F, t, Blocks(s)))[16 * j..16 * j + 16] == q
            && (j < |s| / 16 - 1 ==> Flatten(XtsBlocks(F, t, Blocks(s)[..|s| / 16 - 1]))[16 * j..16 * j + 16] == q)
  {
    hide Flatten, XtsBlocks, Tweak, Xor;
    var ps := Blocks(s);
    XtsBlocksAt(F, t, ps, j);
    BlockOfFlatten(XtsBlocks(F, t, ps), j);
    if j < |ps| - 1 {
      XtsBlocksAt(F, t, ps[..|ps| - 1], j);
      BlockOfFlatten(XtsBlocks(F, t, ps[..|ps| - 1]), j);
    }
  }

  lemma Stealing(F: BlockFn, first: Block, second: Block, full: Block, rest: seq<byte>)
    requires |rest| < 16
    ensures var cc, s := Xor(F(Xor(full, first)), first), Stolen(F, first, second, full, rest);
            s[..16] == Xor(F(Xor(rest + cc[|rest|..], second)), second) && s[16..] == cc[..|rest|]
  {
    hide Xor;
  }

  lemma Behind(front: seq<byte>, back: seq<byte>)
    requires |back| >= 16
    ensures (front + back)[|front|..|front| + 16] == back[..16] && (front + back)[|front| + 16..] == back[16..]
  {
  }

  /** The last full block and the rest: the block's result gives up its head, and its tail fills up the rest. */
  lemma XtsEncryptSteals(E: BlockFn, t: Block, s: seq<byte>, m: nat, b: nat)
    requires 0 < b < 16 && m > 0 && |s| == 16 * m + b
    ensures var r := XtsEncrypt(E, t, s);
            var cc := Xor(E(Xor(s[16 * m - 16..16 * m], Tweak(t, m - 1))), Tweak(t, m - 1));
            && r[16 * m..] == cc[..b]
            && r[16 * m - 16..16 * m] == Xor(E(Xor(s[16 * m..] + cc[b..], Tweak(t, m))), Tweak(t, m))
  {
    hide Flatten, XtsBlocks, Tweak, Xor, Stolen;
    assert |s| / 16 == m && |s| % 16 == b;
    var front, full := Flatten(XtsBlocks(E, t, Blocks(s)[..m - 1])), s[16 * m - 16..16 * m];
    assert Blocks(s)[m - 1] == full;
    Stealing(E, Tweak(t, m - 1), Tweak(t, m), full, s[16 * m..]);
    Behind(front, Stolen(E, Tweak(t, m - 1), Tweak(t, m), full, s[16 * m..]));
  }

  /** Decryption takes the last two tweaks in the opposite order. */
  lemma XtsDecryptSteals(D: BlockFn, t: Block, s: seq<byte>, m: nat, b: nat)
    requires 0 < b < 16 && m > 0 && |s| == 16 * m + b
    ensures var r := XtsDecrypt(D, t, s);
            var cc := Xor(D(Xor(s[16 * m - 16..16 * m], Tweak(t, m))), Tweak(t, m));
            && r[16 * m..] == cc[..b]
            && r[16 * m - 16..16 * m] == Xor(D(Xor(s[16 * m..] + cc[b..], Tweak(t, m - 1))), Tweak(t, m - 1))
  {
    hide Flatten, XtsBlocks, Tweak, Xor, Stolen;
    assert |s| / 16 == m && |s| % 16 == b;
    var front, full := Flatten(XtsBlocks(D, t, Blocks(s)[..m - 1])), s[16 * m - 16..16 * m];
    assert Blocks(s)[m - 1] == full;
    Stealing(D, Tweak(t, m), Tweak(t, m - 1), full, s[16 * m..]);
    Behind(front, Stolen(D, Tweak(t, m), Tweak(t, m - 1), full, s[16 * m..]));
  }

  // ---------------------------------------------------------------- decryption inverts encryption

  lemma BlockInverse(E: BlockFn, D: BlockFn, t: Block, p: Block)
    requires forall x: Block :: D(E(x)) == x
    ensures XtsBlock(D, t, XtsBlock(E, t, p)) == p
  {
    var u := E(XorBlock(p, t));
    XorXor(u, t);
    XorXor(p, t);
    assert D(u) == XorBlock(p, t);
  }

  lemma {:induction false} BlocksInverse(E: BlockFn, D: BlockFn, t: Block, ps: seq<Block>)
    requires forall x: Block :: D(E(x)) == x
    ensures XtsBlocks(D, t, XtsBlocks(E, t, ps)) == ps
    decreases |ps|
  {
    hide Tweak, XtsBlock;
    if ps != [] {
      BlocksInverse(E, D, t, ps[..|ps| - 1]);
      BlockInverse(E, D, Tweak(t, |ps| - 1), ps[|ps| - 1]);
      assert XtsBlocks(E, t, ps)[..|ps| - 1] == XtsBlocks(E, t, ps[..|ps| - 1]);
    }
  }

  /** Stealing is undone by stealing with the tweaks exchanged. */
  lemma StolenInverse(E: BlockFn, D: BlockFn, first: Block, second: Block, full: Block, rest: seq<byte>)
    requires forall x: Block :: D(E(x)) == x
    requires |rest| < 16
    ensures var s := Stolen(E, first, second, full, rest);
            Stolen(D, second, first, s[..16], s[16..]) == full + rest
  {
    hide XtsBlock, Tweak;
    var c := XtsBlock(E, first, full);
    var filled: Block := rest + c[|rest|..];
    BlockInverse(E, D, first, full);
    BlockInverse(E, D, second, filled);
    var s := Stolen(E, first, second, full, rest);
    assert s[..16] == XtsBlock(E, second, filled) && s[16..] == c[..|rest|];
    assert c[..|rest|] + filled[|rest|..] == c;
    assert filled[..|rest|] == rest;
  }

  /** Cutting up whole blocks followed by a partial one. */
  lemma CutUp(x: seq<Block>, rest: seq<byte>)
    requires |rest| < 16
    ensures Blocks(Flatten(x) + rest) == x && (Flatten(x) + rest)[16 * |x|..] == rest
  {
    hide Blocks, Flatten;
    BlocksAppend(Flatten(x), rest);
    BlocksOfFlatten(x);
    assert Blocks(rest) == [];
  }

  lemma PutTogether(p: seq<byte>)
    ensures Flatten(Blocks(p)) + p[16 * (|p| / 16)..] == p
  {
    var m := |p| / 16;
    assert p == p[..16 * m] + p[16 * m..];
    BlocksAppend(p[..16 * m], p[16 * m..]);
    assert Blocks(p[16 * m..]) == [] && Blocks(p) == Blocks(p[..16 * m]);
    FlattenOfBlocks(p[..16 * m]);
  }

  /** Both directions, on a unit given as full blocks followed by a partial one. */
  lemma OnParts(F: BlockFn, t: Block, ps: seq<Block>, rest: seq<byte>)
    requires ps != [] && 0 < |rest| < 16
    ensures var m, p := |ps|, Flatten(ps) + rest;
            && XtsEncrypt(F, t, p)
               == Flatten(XtsBlocks(F, t, ps[..m - 1])) + Stolen(F, Tweak(t, m - 1), Tweak(t, m), ps[m - 1], rest)
            && XtsDecrypt(F, t, p)
               == Flatten(XtsBlocks(F, t, ps[..m - 1])) + Stolen(F, Tweak(t, m), Tweak(t, m - 1), ps[m - 1], rest)
  {
    hide XtsBlocks, Stolen, Tweak, Flatten, Blocks;
    CutUp(ps, rest);
  }

  lemma StealingInverse(E: BlockFn, D: BlockFn, t: Block, ps: seq<Block>, rest: seq<byte>)
    requires forall x: Block :: D(E(x)) == x
    requires ps != [] && 0 < |rest| < 16
    ensures var p := Flatten(ps) + rest; XtsDecrypt(D, t, XtsEncrypt(E, t, p)) == p
  {
    hide *;
    var m := |ps|;
    var front := XtsBlocks(E, t, ps[..m - 1]);
    var s := Stolen(E, Tweak(t, m - 1), Tweak(t, m), ps[m - 1], rest);
    var b: Block, r := s[..16], s[16..];
    StolenInverse(E, D, Tweak(t, m - 1), Tweak(t, m), ps[m - 1], rest);
    BlocksInverse(E, D, t, ps[..m - 1]);
    OnParts(E, t, ps, rest);
    FlattenNext(front, b);
    assert s == b + r && Flatten(front) + s == Flatten(front) + b + r;
    OnParts(D, t, front + [b], r);
    assert (front + [b])[..m - 1] == front && (front + [b])[m - 1] == b;
    FlattenNext(ps[..m - 1], ps[m - 1]);
    assert ps == ps[..m - 1] + [ps[m - 1]];
    var init, last := Flatten(ps[..m - 1]), ps[m - 1];
    assert init + (last + rest) == init + last + rest;
  }

  lemma WholeInverse(E: BlockFn, D: BlockFn, t: Block, ps: seq<Block>)
    requires forall x: Block :: D(E(x)) == x
    requires ps != []
    ensures XtsDecrypt(D, t, XtsEncrypt(E, t, Flatten(ps))) == Flatten(ps)
  {
    hide XtsBlocks, Stolen, Tweak, Flatten, Blocks;
    BlocksOfFlatten(ps);
    BlocksOfFlatten(XtsBlocks(E, t, ps));
    BlocksInverse(E, D, t, ps);
  }

  /** Every data unit of at least one block, whether or not its length is a multiple of 16, comes back. */
  lemma XtsInverse(E: BlockFn, D: BlockFn, t: Block, p: seq<byte>)
    requires forall x: Block :: D(E(x)) == x
    requires |p| >= 16
    ensures XtsDecrypt(D, t, XtsEncrypt(E, t, p)) == p
  {
    hide *;
    PutTogether(p);
    var rest := p[16 * (|p| / 16)..];
    if rest == [] {
      assert Flatten(Blocks(p)) + rest == Flatten(Blocks(p));
      WholeInverse(E, D, t, Blocks(p));
    } else {
      StealingInverse(E, D, t, Blocks(p), rest);
    }
  }

  // ---------------------------------------------------------------- the buffer loops

  /** The tweak mbedtls_aes_crypt_xts uses for block k of m: the last block of a stealing decryption skips one. */
  function LoopTweak(t: Block, swap: bool, m: nat, k: nat): Block {
    if swap && k == m - 1 then Tweak(t, m) else Tweak(t, k)
  }

  function LoopBlocks(F: BlockFn, t: Block, swap: bool, m: nat, ps: seq<Block>): (cs: seq<Block>)
    ensures |cs| == |ps|
  {
    if ps == [] then []
    else LoopBlocks(F, t, swap, m, ps[..|ps| - 1]) + [XtsBlock(F, LoopTweak(t, swap, m, |ps| - 1), ps[|ps| - 1])]
  }

  lemma {:induction false} LoopBlocksFront(F: BlockFn, t: Block, swap: bool, m: nat, ps: seq<Block>)
    requires swap ==> |ps| < m
    ensures LoopBlocks(F, t, swap, m, ps) == XtsBlocks(F, t, ps)
    decreases |ps|
  {
    if ps != [] {
      LoopBlocksFront(F, t, swap, m, ps[..|ps| - 1]);
    }
  }

  lemma LoopStep(F: BlockFn, t: Block, swap: bool, m: nat, ps: seq<Block>, k: nat, c: seq<Block>, b: Block)
    requires k < |ps| && c == LoopBlocks(F, t, swap, m, ps[..k]) && b == XtsBlock(F, LoopTweak(t, swap, m, k), ps[k])
    ensures c + [b] == LoopBlocks(F, t, swap, m, ps[..k + 1]) && Flatten(c + [b]) == Flatten(c) + b
  {
    hide XtsBlock, LoopTweak;
    assert ps[..k + 1][..k] == ps[..k];
  }

  /** One full block: whiten, crypt, whiten. */
  method CryptOne(F: BlockFn, tweak: Block, input: Block, output: array<byte>, at: nat)
    requires at + 16 <= output.Length
    modifies output
    ensures output[..] == Splice(old(output[..]), at, XtsBlock(F, tweak, input))
  {
    var tmp := new byte[16];
    XorInto(tmp, 0, input, tweak);
    assert tmp[..] == Xor(input, tweak);
    CopyInto(tmp, 0, F(tmp[..]));
    assert tmp[..] == F(XorBlock(input, tweak));
    XorInto(output, at, tmp[..], tweak);
  }

  lemma SpliceBefore(s: seq<byte>, off: nat, v: seq<byte>, w: seq<byte>)
    requires off + |v| + |w| <= |s|
    ensures Splice(Splice(s, off + |v|, w), off, v) == Splice(s, off, v + w)
  {
  }

  /** The kept head of the previous output block moves on, and the input's rest is whitened. */
  method CopyHead(t: Block, rest: seq<byte>, output: array<byte>, at: nat, tmp: array<byte>, ghost prev: Block)
    requires 0 < |rest| < 16 <= at && at + |rest| <= output.Length && output[at - 16..at] == prev
    requires tmp.Length == 16 && tmp != output
    modifies output, tmp
    ensures output[..] == Splice(old(output[..]), at, prev[..|rest|]) && tmp[..|rest|] == Xor(rest, t)
  {
    ghost var out0 := output[..];
    for i := 0 to |rest|
      invariant forall k :: 0 <= k < at || at + i <= k < output.Length ==> output[k] == out0[k]
      invariant forall k :: 0 <= k < i ==> output[at + k] == prev[k] && tmp[k] == Xor(rest, t)[k]
    {
      assert out0[at - 16 + i] == out0[at - 16..at][i];
      output[at + i] := output[at - 16 + i];
      tmp[i] := rest[i] ^ t[i];
    }
    assert output[..] == Splice(out0, at, prev[..|rest|]);
  }

  /** What is stolen from the previous output block fills up the whitened input. */
  method FillTail(t: Block, rest: seq<byte>, output: array<byte>, at: nat, tmp: array<byte>, ghost prev: Block)
    requires 0 < |rest| < 16 <= at <= output.Length && output[at - 16..at] == prev
    requires tmp.Length == 16 && tmp != output && tmp[..|rest|] == Xor(rest, t)
    modifies tmp
    ensures tmp[..] == XorBlock(rest + prev[|rest|..], t)
  {
    hide XorBlock;
    ghost var whitened := WhitenedParts(t, rest, prev);
    for i := |rest| to 16
      invariant forall k :: 0 <= k < i ==> tmp[k] == whitened[k]
    {
      assert output[at - 16 + i] == output[at - 16..at][i];
      tmp[i] := output[at - 16 + i] ^ t[i];
    }
  }

  lemma WhitenedParts(t: Block, rest: seq<byte>, prev: Block) returns (w: Block)
    requires |rest| < 16
    ensures w == XorBlock(rest + prev[|rest|..], t) && w[..|rest|] == Xor(rest, t)
    ensures forall k :: 0 <= k < |rest| ==> w[k] == Xor(rest, t)[k]
    ensures forall k :: |rest| <= k < 16 ==> w[k] == prev[k] ^ t[k]
  {
    w := XorBlock(rest + prev[|rest|..], t);
  }

  /** The final round: steals the tail of the previous output block. */
  method StealLast(F: BlockFn, t: Block, rest: seq<byte>, output: array<byte>, at: nat, ghost prev: Block)
    requires 0 < |rest| < 16 <= at && at + |rest| <= output.Length && output[at - 16..at] == prev
    modifies output
    ensures output[..] == Splice(old(output[..]), at - 16, XtsBlock(F, t, rest + prev[|rest|..]) + prev[..|rest|])
  {
    hide Splice;
    ghost var out0 := output[..];
    var tmp := new byte[16];
    CopyHead(t, rest, output, at, tmp, prev);
    SpliceKeeps(out0, at - 16, prev, prev[..|rest|]);
    assert output[at - 16..at] == output[..][at - 16..at];
    FillTail(t, rest, output, at, tmp, prev);
    WhitenAndWrite(F, t, rest + prev[|rest|..], tmp, output, at - 16);
    SpliceBefore(out0, at - 16, XtsBlock(F, t, rest + prev[|rest|..]), prev[..|rest|]);
  }

  method WhitenAndWrite(F: BlockFn, t: Block, ghost filled: Block, tmp: array<byte>, output: array<byte>, at: nat)
    requires tmp.Length == 16 && tmp != output && at + 16 <= output.Length && tmp[..] == XorBlock(filled, t)
    modifies tmp, output
    ensures output[..] == Splice(old(output[..]), at, XtsBlock(F, t, filled))
  {
    CopyInto(tmp, 0, F(tmp[..]));
    assert tmp[..] == F(XorBlock(filled, t));
    XorInto(output, at, tmp[..], t);
  }

  lemma SpliceKeeps(s: seq<byte>, off: nat, v: Block, w: seq<byte>)
    requires off + 16 + |w| <= |s| && s[off..off + 16] == v
    ensures Splice(s, off + 16, w)[off..off + 16] == v
  {
  }

  /** The loop over the full blocks; returns the tweak left for a partial block. */
  method CryptFull(F: BlockFn, t0: Block, decrypting: bool, input: seq<byte>, output: array<byte>) returns (t: Block)
    requires 16 <= |input| <= output.Length
    modifies output
    ensures var m, swap := |input| / 16, decrypting && |input| % 16 != 0;
            && output[..] == Splice(old(output[..]), 0, Flatten(LoopBlocks(F, t0, swap, m, Blocks(input))))
            && t == Tweak(t0, if swap then m - 1 else m)
  {
    hide *;
    var blocks, leftover := |input| / 16, |input| % 16;
    var tweak, prevTweak, k := t0, t0, 0;
    ghost var m, swap, out0, ps := blocks, decrypting && leftover != 0, output[..], Blocks(input);
    ghost var c: seq<Block> := [];
    LoopStart(F, t0, swap, m);
    SpliceNothing(out0, 0);
    assert ps[..0] == [];
    while blocks > 0
      invariant 0 <= k <= m && k + blocks == m
      invariant tweak == Tweak(t0, if swap && blocks == 0 then m + 1 else k)
      invariant swap && blocks == 0 ==> prevTweak == Tweak(t0, m - 1)
      invariant |c| == k && c == LoopBlocks(F, t0, swap, m, ps[..k])
      invariant output[..] == Splice(out0, 0, Flatten(c))
    {
      blocks := blocks - 1;
      TweakStep(t0, k); TweakStep(t0, k + 1); LoopTweakAt(t0, swap, m, k);
      if leftover != 0 && decrypting && blocks == 0 {
        prevTweak := tweak;
        tweak := NextTweak(tweak);
      }
      CryptOne(F, tweak, input[16 * k..16 * k + 16], output, 16 * k);
      ghost var b := XtsBlock(F, tweak, ps[k]);
      tweak := NextTweak(tweak);
      LoopStep(F, t0, swap, m, ps, k, c, b);
      SpliceAdjacent(out0, 0, Flatten(c), b);
      c := c + [b];
      k := k + 1;
    }
    assert ps[..m] == ps;
    t := if decrypting && leftover != 0 then prevTweak else tweak;
  }

  lemma LoopStart(F: BlockFn, t: Block, swap: bool, m: nat)
    ensures LoopBlocks(F, t, swap, m, []) == [] && Flatten([]) == [] && Tweak(t, 0) == t
  {
  }

  lemma TweakStep(t: Block, k: nat)
    ensures Tweak(t, k + 1) == NextTweak(Tweak(t, k))
  {
  }

  lemma LoopTweakAt(t: Block, swap: bool, m: nat, k: nat)
    ensures LoopTweak(t, swap, m, k) == Tweak(t, if swap && k == m - 1 then m else k)
  {
  }

  /** What the final round finds: the front of the standard's result, then the block to steal from. */
  lemma LastBlock(F: BlockFn, t: Block, swap: bool, ps: seq<Block>)
    requires ps != []
    ensures var m := |ps|;
            Flatten(LoopBlocks(F, t, swap, m, ps))
            == Flatten(XtsBlocks(F, t, ps[..m - 1])) + XtsBlock(F, FullTweak(t, swap, m), ps[m - 1])
  {
    hide XtsBlock, Tweak, XtsBlocks;
    LoopBlocksFront(F, t, swap, |ps|, ps[..|ps| - 1]);
  }

  lemma {:induction false} Unswapped(F: BlockFn, t: Block, m: nat, ps: seq<Block>)
    ensures LoopBlocks(F, t, false, m, ps) == XtsBlocks(F, t, ps)
  {
    LoopBlocksFront(F, t, false, m, ps);
  }

  lemma SpliceOver(front: seq<byte>, c: Block, r: nat, last: Block, out0: seq<byte>, at: nat)
    requires r < 16 && at == |front| + 16 && at + r <= |out0|
    ensures var mid := Splice(out0, 0, front + c);
            && mid[at - 16..at] == c
            && Splice(mid, at - 16, last + c[..r]) == front + (last + c[..r]) + out0[at + r..]
  {
    assert Splice(out0, 0, front + c) == front + c + out0[at..];
  }

  /** The final round on what the loop has left gives the standard's result. */
  method CryptLast(F: BlockFn, t0: Block, t: Block, decrypting: bool, ghost ps: seq<Block>, rest: seq<byte>,
                   output: array<byte>, at: nat, ghost out0: seq<byte>)
    requires ps != [] && at == 16 * |ps| && 0 < |rest| < 16 && at + |rest| <= output.Length && |out0| == output.Length
    requires t == PartTweak(t0, decrypting, |ps|)
    requires output[..] == Splice(out0, 0, Flatten(LoopBlocks(F, t0, decrypting, |ps|, ps)))
    modifies output
    ensures output[..] == Xts(F, t0, decrypting, Flatten(ps) + rest) + out0[at + |rest|..]
  {
    hide *;
    ghost var front := Flatten(XtsBlocks(F, t0, ps[..|ps| - 1]));
    ghost var c := XtsBlock(F, FullTweak(t0, decrypting, |ps|), ps[|ps| - 1]);
    LastBlock(F, t0, decrypting, ps);
    SpliceOver(front, c, |rest|, XtsBlock(F, t, rest + c[|rest|..]), out0, at);
    assert output[at - 16..at] == output[..][at - 16..at];
    StealLast(F, t, rest, output, at, c);
    Ending(F, t0, decrypting, ps, rest);
  }

  lemma Ending(F: BlockFn, t: Block, decrypting: bool, ps: seq<Block>, rest: seq<byte>)
    requires ps != [] && 0 < |rest| < 16
    ensures var c := XtsBlock(F, FullTweak(t, decrypting, |ps|), ps[|ps| - 1]);
            Xts(F, t, decrypting, Flatten(ps) + rest)
            == Flatten(XtsBlocks(F, t, ps[..|ps| - 1]))
               + (XtsBlock(F, PartTweak(t, decrypting, |ps|), rest + c[|rest|..]) + c[..|rest|])
  {
    hide XtsDecrypt, XtsEncrypt, XtsBlock, XtsBlocks, Stolen, Tweak, Flatten;
    OnParts(F, t, ps, rest);
    StolenDef(F, FullTweak(t, decrypting, |ps|), PartTweak(t, decrypting, |ps|), ps[|ps| - 1], rest);
  }

  lemma StolenDef(F: BlockFn, first: Block, second: Block, full: Block, rest: seq<byte>)
    requires |rest| < 16
    ensures var c := XtsBlock(F, first, full);
            Stolen(F, first, second, full, rest) == XtsBlock(F, second, rest + c[|rest|..]) + c[..|rest|]
  {
  }

  /** mbedtls_aes_crypt_xts; TweakE is the block cipher under the tweak key. */
  method CryptXts(TweakE: BlockFn, E: BlockFn, D: BlockFn, decrypting: bool, dataUnit: Block,
                  input: seq<byte>, output: array<byte>) returns (ret: int)
    requires |input| <= output.Length
    modifies output
    ensures ret == if 16 <= |input| <= MAX_DATA_UNIT then 0 else INVALID_INPUT_LENGTH
    ensures ret == 0 <==> 16 <= |input| <= 0x10_0000 * 16
    ensures ret != 0 ==> output[..] == old(output[..])
    ensures ret == 0 ==>
      output[..] == (if decrypting then XtsDecrypt(D, TweakE(dataUnit), input) else XtsEncrypt(E, TweakE(dataUnit), input))
                    + old(output[|input|..])
  {
    hide XtsDecrypt, XtsEncrypt, LoopBlocks, XtsBlocks, XtsBlock, Tweak, Flatten, Blocks, Splice;
    if |input| < 16 || |input| > MAX_DATA_UNIT {
      return INVALID_INPUT_LENGTH;
    }
    var F := if decrypting then D else E;
    var t0 := TweakE(dataUnit);
    ghost var out0 := output[..];
    var t := CryptFull(F, t0, decrypting, input, output);
    if |input| % 16 != 0 {
      var m := |input| / 16;
      PutTogether(input);
      CryptLast(F, t0, t, decrypting, Blocks(input), input[16 * m..], output, 16 * m, out0);
    } else {
      WholeUnit(F, t0, decrypting, input, out0);
    }
    return 0;
  }

  lemma WholeUnit(F: BlockFn, t: Block, decrypting: bool, input: seq<byte>, out0: seq<byte>)
    requires 16 <= |input| <= |out0| && |input| % 16 == 0
    ensures Splice(out0, 0, Flatten(LoopBlocks(F, t, false, |input| / 16, Blocks(input))))
            == Xts(F, t, decrypting, input) + out0[|input|..]
  {
    hide XtsBlock, Tweak, LoopBlocks, XtsBlocks, Flatten, Blocks;
    Unswapped(F, t, |input| / 16, Blocks(input));
  }
}
