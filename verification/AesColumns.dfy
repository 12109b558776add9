/**
 The byte substitution and the column mixing of AES, as functions on bytes and on 32-bit words
 holding one column of the state (section 5 of FIPS 197), with their inverses.
 */
module AesColumns {
  import opened Bytes
  import opened GaloisField

  type word = bv32

  // ---------------------------------------------------------------- S-box

  function Rotl(x: byte): byte {
    (x << 1) | (x >> 7)
  }

  /** The affine step of the S-box (section 5.1.1 of FIPS 197). */
  function Affine(x: byte): byte {
    x ^ Rotl(x) ^ Rotl(Rotl(x)) ^ Rotl(Rotl(Rotl(x))) ^ Rotl(Rotl(Rotl(Rotl(x)))) ^ 0x63
  }

  function InvAffine(y: byte): byte {
    Rotl(y) ^ Rotl(Rotl(Rotl(y))) ^ Rotl(Rotl(Rotl(Rotl(Rotl(Rotl(y)))))) ^ 0x05
  }

  lemma AffineInverse(x: byte)
    ensures InvAffine(Affine(x)) == x && Affine(InvAffine(x)) == x
  {
  }

  ghost function Sbox(x: byte): byte {
    Affine(Inverse(x))
  }

  ghost function InvSbox(y: byte): byte {
    Inverse(InvAffine(y))
  }

  lemma SboxInverse(x: byte)
    ensures InvSbox(Sbox(x)) == x && Sbox(InvSbox(x)) == x
  {
    AffineInverse(Inverse(x));
    InverseInvolution(x);
    AffineInverse(x);
    InverseInvolution(InvAffine(x));
  }

  // ---------------------------------------------------------------- words as columns

  function B0(w: word): byte { (w & 0xFF) as byte }
  function B1(w: word): byte { ((w >> 8) & 0xFF) as byte }
  function B2(w: word): byte { ((w >> 16) & 0xFF) as byte }
  function B3(w: word): byte { ((w >> 24) & 0xFF) as byte }

  /** Byte j of a column. */
  function ByteAt(w: word, j: nat): byte
    requires j < 4
  {
    if j == 0 then B0(w) else if j == 1 then B1(w) else if j == 2 then B2(w) else B3(w)
  }

  function XorWord(w: word, v: word): word {
    w ^ v
  }

  function Pack(a: byte, b: byte, c: byte, d: byte): word {
    (a as word) ^ (b as word << 8) ^ (c as word << 16) ^ (d as word << 24)
  }

  function Rotl8(w: word): word {
    (w << 8) | (w >> 24)
  }

  lemma BytesOfPack(a: byte, b: byte, c: byte, d: byte)
    ensures B0(Pack(a, b, c, d)) == a && B1(Pack(a, b, c, d)) == b
    ensures B2(Pack(a, b, c, d)) == c && B3(Pack(a, b, c, d)) == d
  {
  }

  lemma PackOfBytes(w: word)
    ensures Pack(B0(w), B1(w), B2(w), B3(w)) == w
  {
  }

  lemma BytesOfXor(w: word, v: word)
    ensures B0(w ^ v) == B0(w) ^ B0(v) && B1(w ^ v) == B1(w) ^ B1(v)
    ensures B2(w ^ v) == B2(w) ^ B2(v) && B3(w ^ v) == B3(w) ^ B3(v)
  {
  }

  lemma RotatePack(a: byte, b: byte, c: byte, d: byte)
    ensures Rotl8(Pack(a, b, c, d)) == Pack(d, a, b, c)
  {
  }

  lemma XorPack(a: byte, b: byte, c: byte, d: byte, a': byte, b': byte, c': byte, d': byte)
    ensures Pack(a, b, c, d) ^ Pack(a', b', c', d') == Pack(a ^ a', b ^ b', c ^ c', d ^ d')
  {
  }

  ghost function SubWord(w: word): word {
    Pack(Sbox(B0(w)), Sbox(B1(w)), Sbox(B2(w)), Sbox(B3(w)))
  }

  ghost function InvSubWord(w: word): word {
    Pack(InvSbox(B0(w)), InvSbox(B1(w)), InvSbox(B2(w)), InvSbox(B3(w)))
  }

  // ---------------------------------------------------------------- column mixing

  function Sum(a: byte, b: byte, c: byte, d: byte): byte {
    Add(Add(a, b), Add(c, d))
  }

  /** One row of the MixColumns matrix (section 5.1.3 of FIPS 197). */
  function MixRow(a: byte, b: byte, c: byte, d: byte): byte {
    Sum(Mul(a, 2), Mul(b, 3), c, d)
  }

  /** One row of the InvMixColumns matrix (section 5.3.3 of FIPS 197). */
  function InvMixRow(a: byte, b: byte, c: byte, d: byte): byte {
    Sum(Mul(a, 0x0E), Mul(b, 0x0B), Mul(c, 0x0D), Mul(d, 0x09))
  }

  function MixColumn(w: word): word {
    var a, b, c, d := B0(w), B1(w), B2(w), B3(w);
    Pack(MixRow(a, b, c, d), MixRow(b, c, d, a), MixRow(c, d, a, b), MixRow(d, a, b, c))
  }

  function InvMixColumn(w: word): word {
    var a, b, c, d := B0(w), B1(w), B2(w), B3(w);
    Pack(InvMixRow(a, b, c, d), InvMixRow(b, c, d, a), InvMixRow(c, d, a, b), InvMixRow(d, a, b, c))
  }

  lemma MulEven(x: byte, y: byte, h: byte)
    requires y & 1 == 0 && y >> 1 == h
    ensures Mul(x, y) == Mul(Xtime(x), h)
  {
    hide Xtime;
    assert Mul(x, 0) == 0 == Mul(Xtime(x), 0);
  }

  lemma MulOdd(x: byte, y: byte, h: byte)
    requires y & 1 == 1 && y >> 1 == h
    ensures Mul(x, y) == Add(x, Mul(Xtime(x), h))
  {
    hide Xtime;
  }

  lemma MulSmall(x: byte)
    ensures Mul(x, 0) == 0 && Mul(x, 1) == x
    ensures Mul(x, 2) == Xtime(x) && Mul(x, 3) == Add(x, Xtime(x))
  {
    hide *;
    MulUnfold(x, 0); MulUnfold(Xtime(x), 0); MulUnfold(Xtime(Xtime(x)), 0);
    AddLaws(x, 0, 0); AddLaws(Xtime(x), 0, 0);
    MulOdd(x, 1, 0); MulOdd(Xtime(x), 1, 0); MulEven(x, 2, 1); MulOdd(x, 3, 1);
  }

  /** Products by the matrix constants, as sums of doublings. */
  lemma MulConstants(x: byte, x2: byte, x4: byte, x8: byte)
    requires x2 == Xtime(x) && x4 == Xtime(x2) && x8 == Xtime(x4)
    ensures Mul(x, 0x09) == Add(x, x8) && Mul(x, 0x0B) == Add(x, Add(x2, x8))
    ensures Mul(x, 0x0D) == Add(x, Add(x4, x8)) && Mul(x, 0x0E) == Add(x2, Add(x4, x8))
  {
    hide *;
    MulSmall(x4);
    MulEven(x2, 4, 2); MulOdd(x2, 5, 2); MulEven(x2, 6, 3); MulOdd(x2, 7, 3);
    MulOdd(x, 0x09, 4); MulOdd(x, 0x0B, 5); MulOdd(x, 0x0D, 6); MulEven(x, 0x0E, 7);
  }

  lemma MulSum(a: byte, b: byte, c: byte, d: byte, y: byte)
    ensures Mul(Sum(a, b, c, d), y) == Sum(Mul(a, y), Mul(b, y), Mul(c, y), Mul(d, y))
  {
    hide Mul, Add;
    MulLinear(a, b, y); MulLinear(c, d, y); MulLinear(Add(a, b), Add(c, d), y);
  }

  lemma SumXor(a: byte, b: byte, c: byte, d: byte)
    ensures Sum(a, b, c, d) == a ^ b ^ c ^ d
  {
    AddXor(a, b, c, d, Add(a, b), Add(c, d));
  }

  lemma AddXor(a: byte, b: byte, c: byte, d: byte, e: byte, f: byte)
    requires e == a ^ b && f == c ^ d
    ensures Add(e, f) == a ^ b ^ c ^ d
  {
  }

  lemma AddDef(a: byte, b: byte)
    ensures Add(a, b) == a ^ b
  {
  }

  lemma Add3(a: byte, b: byte, c: byte)
    ensures Add(a, Add(b, c)) == a ^ b ^ c
  {
    AddXor(a, 0, b, c, a, Add(b, c));
  }

  /** The coefficients of the product InvMixColumns * MixColumns: one on the diagonal, zero elsewhere. */
  lemma MixCoefficients(x: byte)
    ensures Sum(Mul(Mul(x, 2), 0x0E), Mul(x, 0x0B), Mul(x, 0x0D), Mul(Mul(x, 3), 0x09)) == x
    ensures Sum(Mul(Mul(x, 3), 0x0E), Mul(Mul(x, 2), 0x0B), Mul(x, 0x0D), Mul(x, 0x09)) == 0
    ensures Sum(Mul(x, 0x0E), Mul(Mul(x, 3), 0x0B), Mul(Mul(x, 2), 0x0D), Mul(x, 0x09)) == 0
    ensures Sum(Mul(x, 0x0E), Mul(x, 0x0B), Mul(Mul(x, 3), 0x0D), Mul(Mul(x, 2), 0x09)) == 0
  {
    hide *;
    var x2 := Xtime(x); var x4 := Xtime(x2); var x8 := Xtime(x4); var x16 := Xtime(x8);
    MulSmall(x);
    MulConstants(x, x2, x4, x8);
    MulConstants(x2, x4, x8, x16);
    MulLinear(x, x2, 0x0E); MulLinear(x, x2, 0x0B); MulLinear(x, x2, 0x0D); MulLinear(x, x2, 0x09);
    Cancel0(x, x2, x4, x8, x16);
    Cancel1(x, x2, x4, x8, x16);
    Cancel2(x, x2, x4, x8, x16);
    Cancel3(x, x2, x4, x8, x16);
  }

  lemma Cancel0(x: byte, x2: byte, x4: byte, x8: byte, x16: byte)
    ensures Sum(Add(x4, Add(x8, x16)),
                Add(x, Add(x2, x8)),
                Add(x, Add(x4, x8)),
                Add(Add(x, x8), Add(x2, x16))) == x
  {
    hide *;
    var p := Add(x4, Add(x8, x16));
    var q := Add(x, Add(x2, x8));
    var r := Add(x, Add(x4, x8));
    var s0, s1 := Add(x, x8), Add(x2, x16);
    var s := Add(s0, s1);
    Add3(x4, x8, x16); Add3(x, x2, x8); Add3(x, x4, x8); AddDef(x, x8); AddDef(x2, x16); AddDef(s0, s1);
    SumXor(p, q, r, s);
  }

  lemma Cancel1(x: byte, x2: byte, x4: byte, x8: byte, x16: byte)
    ensures Sum(Add(Add(x2, Add(x4, x8)), Add(x4, Add(x8, x16))),
                Add(x2, Add(x4, x16)),
                Add(x, Add(x4, x8)),
                Add(x, x8)) == 0
  {
    hide *;
    var p0, p1 := Add(x2, Add(x4, x8)), Add(x4, Add(x8, x16));
    var p := Add(p0, p1);
    var q := Add(x2, Add(x4, x16));
    var r := Add(x, Add(x4, x8));
    var s := Add(x, x8);
    Add3(x2, x4, x8); Add3(x4, x8, x16); Add3(x2, x4, x16); Add3(x, x4, x8); AddDef(x, x8); AddDef(p0, p1);
    SumXor(p, q, r, s);
  }

  lemma Cancel2(x: byte, x2: byte, x4: byte, x8: byte, x16: byte)
    ensures Sum(Add(x2, Add(x4, x8)),
                Add(Add(x, Add(x2, x8)), Add(x2, Add(x4, x16))),
                Add(x2, Add(x8, x16)),
                Add(x, x8)) == 0
  {
    hide *;
    var p := Add(x2, Add(x4, x8));
    var q0, q1 := Add(x, Add(x2, x8)), Add(x2, Add(x4, x16));
    var q := Add(q0, q1);
    var r := Add(x2, Add(x8, x16));
    var s := Add(x, x8);
    Add3(x2, x4, x8); Add3(x, x2, x8); Add3(x2, x4, x16); Add3(x2, x8, x16); AddDef(x, x8); AddDef(q0, q1);
    SumXor(p, q, r, s);
  }

  lemma Cancel3(x: byte, x2: byte, x4: byte, x8: byte, x16: byte)
    ensures Sum(Add(x2, Add(x4, x8)),
                Add(x, Add(x2, x8)),
                Add(Add(x, Add(x4, x8)), Add(x2, Add(x8, x16))),
                Add(x2, x16)) == 0
  {
    hide *;
    var p := Add(x2, Add(x4, x8));
    var q := Add(x, Add(x2, x8));
    var r0, r1 := Add(x, Add(x4, x8)), Add(x2, Add(x8, x16));
    var r := Add(r0, r1);
    var s := Add(x2, x16);
    Add3(x2, x4, x8); Add3(x, x2, x8); Add3(x, x4, x8); Add3(x2, x8, x16); AddDef(x2, x16); AddDef(r0, r1);
    SumXor(p, q, r, s);
  }

  lemma SumRotate(a: byte, b: byte, c: byte, d: byte)
    ensures Sum(b, c, d, a) == Sum(a, b, c, d) == Sum(c, d, a, b) == Sum(d, a, b, c)
  {
    hide *;
    SumXor(a, b, c, d); SumXor(b, c, d, a); SumXor(c, d, a, b); SumXor(d, a, b, c);
  }

  lemma SumAdd(a: byte, b: byte, c: byte, d: byte, a': byte, b': byte, c': byte, d': byte)
    ensures Sum(Add(a, a'), Add(b, b'), Add(c, c'), Add(d, d')) == Add(Sum(a, b, c, d), Sum(a', b', c', d'))
  {
    hide Add;
    AddSwap(a, a', b, b'); AddSwap(c, c', d, d'); AddSwap(Add(a, b), Add(a', b'), Add(c, d), Add(c', d'));
  }

  /** A four-by-four sum does not depend on whether rows or columns are added first. */
  lemma SumTranspose(pa: byte, pb: byte, pc: byte, pd: byte, qa: byte, qb: byte, qc: byte, qd: byte,
                     ra: byte, rb: byte, rc: byte, rd: byte, sa: byte, sb: byte, sc: byte, sd: byte)
    ensures Sum(Sum(pa, pb, pc, pd), Sum(qb, qc, qd, qa), Sum(rc, rd, ra, rb), Sum(sd, sa, sb, sc))
            == Sum(Sum(pa, qa, ra, sa), Sum(pb, qb, rb, sb), Sum(pc, qc, rc, sc), Sum(pd, qd, rd, sd))
  {
    SumRotate(qa, qb, qc, qd); SumRotate(ra, rb, rc, rd); SumRotate(sa, sb, sc, sd);
    hide Add;
    SumAdd(pa, pb, pc, pd, qa, qb, qc, qd);
    SumAdd(ra, rb, rc, rd, sa, sb, sc, sd);
    SumAdd(Add(pa, qa), Add(pb, qb), Add(pc, qc), Add(pd, qd), Add(ra, sa), Add(rb, sb), Add(rc, sc), Add(rd, sd));
  }

  lemma InvMixRowOfMixRows(a: byte, b: byte, c: byte, d: byte)
    ensures InvMixRow(MixRow(a, b, c, d), MixRow(b, c, d, a), MixRow(c, d, a, b), MixRow(d, a, b, c)) == a
  {
    hide Mul, Sum, Xtime;
    MulSum(Mul(a, 2), Mul(b, 3), c, d, 0x0E);
    MulSum(Mul(b, 2), Mul(c, 3), d, a, 0x0B);
    MulSum(Mul(c, 2), Mul(d, 3), a, b, 0x0D);
    MulSum(Mul(d, 2), Mul(a, 3), b, c, 0x09);
    SumTranspose(Mul(Mul(a, 2), 0x0E), Mul(Mul(b, 3), 0x0E), Mul(c, 0x0E), Mul(d, 0x0E),
                 Mul(a, 0x0B), Mul(Mul(b, 2), 0x0B), Mul(Mul(c, 3), 0x0B), Mul(d, 0x0B),
                 Mul(a, 0x0D), Mul(b, 0x0D), Mul(Mul(c, 2), 0x0D), Mul(Mul(d, 3), 0x0D),
                 Mul(Mul(a, 3), 0x09), Mul(b, 0x09), Mul(c, 0x09), Mul(Mul(d, 2), 0x09));
    MixCoefficients(a); MixCoefficients(b); MixCoefficients(c); MixCoefficients(d);
    assert Sum(a, 0, 0, 0) == a by { SumXor(a, 0, 0, 0); }
  }

  lemma InvMixColumnInverse(w: word)
    ensures InvMixColumn(MixColumn(w)) == w
  {
    hide *;
    var a, b, c, d := B0(w), B1(w), B2(w), B3(w);
    InvMixRowOfMixRows(a, b, c, d); InvMixRowOfMixRows(b, c, d, a);
    InvMixRowOfMixRows(c, d, a, b); InvMixRowOfMixRows(d, a, b, c);
    MixColumnBytes(w);
    PackOfBytes(w);
    InvMixColumnDef(MixColumn(w));
  }

  lemma MixColumnBytes(w: word)
    ensures var a, b, c, d := B0(w), B1(w), B2(w), B3(w);
            B0(MixColumn(w)) == MixRow(a, b, c, d) && B1(MixColumn(w)) == MixRow(b, c, d, a)
            && B2(MixColumn(w)) == MixRow(c, d, a, b) && B3(MixColumn(w)) == MixRow(d, a, b, c)
  {
    hide MixRow, Pack, B0, B1, B2, B3;
    var a, b, c, d := B0(w), B1(w), B2(w), B3(w);
    BytesOfPack(MixRow(a, b, c, d), MixRow(b, c, d, a), MixRow(c, d, a, b), MixRow(d, a, b, c));
  }

  lemma InvMixColumnDef(w: word)
    ensures var a, b, c, d := B0(w), B1(w), B2(w), B3(w);
            InvMixColumn(w) == Pack(InvMixRow(a, b, c, d), InvMixRow(b, c, d, a), InvMixRow(c, d, a, b), InvMixRow(d, a, b, c))
  {
  }

  lemma InvMixRowLinear(a: byte, b: byte, c: byte, d: byte, a': byte, b': byte, c': byte, d': byte)
    ensures InvMixRow(Add(a, a'), Add(b, b'), Add(c, c'), Add(d, d')) == Add(InvMixRow(a, b, c, d), InvMixRow(a', b', c', d'))
  {
    hide Mul, Add;
    MulLinear(a, a', 0x0E); MulLinear(b, b', 0x0B); MulLinear(c, c', 0x0D); MulLinear(d, d', 0x09);
    SumAdd(Mul(a, 0x0E), Mul(b, 0x0B), Mul(c, 0x0D), Mul(d, 0x09),
           Mul(a', 0x0E), Mul(b', 0x0B), Mul(c', 0x0D), Mul(d', 0x09));
  }

  lemma PackAdd(a: byte, b: byte, c: byte, d: byte, a': byte, b': byte, c': byte, d': byte)
    ensures Pack(Add(a, a'), Add(b, b'), Add(c, c'), Add(d, d')) == Pack(a, b, c, d) ^ Pack(a', b', c', d')
  {
    hide Pack;
    XorPack(a, b, c, d, a', b', c', d');
  }

  lemma BytesOfXorAdd(w: word, v: word)
    ensures B0(w ^ v) == Add(B0(w), B0(v)) && B1(w ^ v) == Add(B1(w), B1(v))
    ensures B2(w ^ v) == Add(B2(w), B2(v)) && B3(w ^ v) == Add(B3(w), B3(v))
  {
    BytesOfXor(w, v);
  }

  /** InvMixColumns distributes over the round-key addition: what the equivalent inverse cipher rests on. */
  lemma InvMixColumnLinear(w: word, v: word)
    ensures InvMixColumn(w ^ v) == InvMixColumn(w) ^ InvMixColumn(v)
  {
    hide *;
    var a, b, c, d := B0(w), B1(w), B2(w), B3(w);
    var a', b', c', d' := B0(v), B1(v), B2(v), B3(v);
    BytesOfXorAdd(w, v);
    InvMixRowLinear(a, b, c, d, a', b', c', d'); InvMixRowLinear(b, c, d, a, b', c', d', a');
    InvMixRowLinear(c, d, a, b, c', d', a', b'); InvMixRowLinear(d, a, b, c, d', a', b', c');
    InvMixColumnDef(w); InvMixColumnDef(v); InvMixColumnDef(w ^ v);
    PackAdd(InvMixRow(a, b, c, d), InvMixRow(b, c, d, a), InvMixRow(c, d, a, b), InvMixRow(d, a, b, c),
            InvMixRow(a', b', c', d'), InvMixRow(b', c', d', a'), InvMixRow(c', d', a', b'), InvMixRow(d', a', b', c'));
  }
}
