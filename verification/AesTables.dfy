/**
 The table generator of the AES implementation.  Its loops over pow, log and the S-box arrays are
 proved to produce the S-boxes of FIPS 197 and the fused substitution-and-mixing tables.
 */
module AesTables {
  import opened Bytes
  import opened GaloisField
  import opened AesColumns
  import opened AesCipher

  /** Contribution of the first byte of a column to MixColumns. */
  function ForwardWord(x: byte): word {
    Pack(Xtime(x), x, x, Add(Xtime(x), x))
  }

  /** Contribution of the first byte of a column to InvMixColumns. */
  function ReverseWord(x: byte): word {
    Pack(Mul(0x0E, x), Mul(0x09, x), Mul(0x0D, x), Mul(0x0B, x))
  }

  function Xor4(p: word, q: word, r: word, s: word): word {
    p ^ q ^ r ^ s
  }

  /** The four forward tables together compute MixColumns of a column. */
  lemma ForwardColumn(a: byte, b: byte, c: byte, d: byte)
    ensures Xor4(ForwardWord(a), Rotl8(ForwardWord(b)), Rotl8(Rotl8(ForwardWord(c))), Rotl8(Rotl8(Rotl8(ForwardWord(d)))))
            == MixColumn(Pack(a, b, c, d))
  {
    hide *;
    ForwardPack(a); ForwardPack(b); ForwardPack(c); ForwardPack(d);
    RotateOnce(Mul(b, 2), b, b, Mul(b, 3)); 
    RotateTwice(Mul(c, 2), c, c, Mul(c, 3));
    RotateThrice(Mul(d, 2), d, d, Mul(d, 3));
    XorPack4(Mul(a, 2), a, a, Mul(a, 3), Mul(b, 3), Mul(b, 2), b, b, c, Mul(c, 3), Mul(c, 2), c, d, d, Mul(d, 3), Mul(d, 2));
    MixPack(a, b, c, d);
  }

  lemma ForwardPack(x: byte)
    ensures ForwardWord(x) == Pack(Mul(x, 2), x, x, Mul(x, 3))
  {
    hide Xtime, Mul, Add;
    MulSmall(x);
    AddLaws(x, Xtime(x), 0);
  }

  lemma RotateOnce(a: byte, b: byte, c: byte, d: byte)
    ensures Rotl8(Pack(a, b, c, d)) == Pack(d, a, b, c)
  {
    RotatePack(a, b, c, d);
  }

  lemma RotateTwice(a: byte, b: byte, c: byte, d: byte)
    ensures Rotl8(Rotl8(Pack(a, b, c, d))) == Pack(c, d, a, b)
  {
    hide *;
    RotatePack(a, b, c, d); RotatePack(d, a, b, c);
  }

  lemma RotateThrice(a: byte, b: byte, c: byte, d: byte)
    ensures Rotl8(Rotl8(Rotl8(Pack(a, b, c, d)))) == Pack(b, c, d, a)
  {
    hide *;
    RotateTwice(a, b, c, d); RotatePack(c, d, a, b);
  }

  lemma XorPack4(a: byte, b: byte, c: byte, d: byte, a1: byte, b1: byte, c1: byte, d1: byte,
                 a2: byte, b2: byte, c2: byte, d2: byte, a3: byte, b3: byte, c3: byte, d3: byte)
    ensures Xor4(Pack(a, b, c, d), Pack(a1, b1, c1, d1), Pack(a2, b2, c2, d2), Pack(a3, b3, c3, d3))
            == Pack(Sum(a, a1, a2, a3), Sum(b, b1, b2, b3), Sum(c, c1, c2, c3), Sum(d, d1, d2, d3))
  {
    hide *;
    SumXor(a, a1, a2, a3); SumXor(b, b1, b2, b3); SumXor(c, c1, c2, c3); SumXor(d, d1, d2, d3);
    XorPackPlain(a, b, c, d, a1, b1, c1, d1, a2, b2, c2, d2, a3, b3, c3, d3);
  }

  lemma XorPackPlain(a: byte, b: byte, c: byte, d: byte, a1: byte, b1: byte, c1: byte, d1: byte,
                     a2: byte, b2: byte, c2: byte, d2: byte, a3: byte, b3: byte, c3: byte, d3: byte)
    ensures Xor4(Pack(a, b, c, d), Pack(a1, b1, c1, d1), Pack(a2, b2, c2, d2), Pack(a3, b3, c3, d3))
            == Pack(a ^ a1 ^ a2 ^ a3, b ^ b1 ^ b2 ^ b3, c ^ c1 ^ c2 ^ c3, d ^ d1 ^ d2 ^ d3)
  {
    XorPack(a, b, c, d, a1, b1, c1, d1);
    XorPack(a ^ a1, b ^ b1, c ^ c1, d ^ d1, a2, b2, c2, d2);
    XorPack(a ^ a1 ^ a2, b ^ b1 ^ b2, c ^ c1 ^ c2, d ^ d1 ^ d2, a3, b3, c3, d3);
  }

  lemma MixPack(a: byte, b: byte, c: byte, d: byte)
    ensures MixColumn(Pack(a, b, c, d)) == Pack(Sum(Mul(a, 2), Mul(b, 3), c, d), Sum(a, Mul(b, 2), Mul(c, 3), d),
                                                Sum(a, b, Mul(c, 2), Mul(d, 3)), Sum(Mul(a, 3), b, c, Mul(d, 2)))
  {
    hide Mul, Sum, Pack, B0, B1, B2, B3;
    BytesOfPack(a, b, c, d);
    SumRotate(a, Mul(b, 2), Mul(c, 3), d); SumRotate(a, b, Mul(c, 2), Mul(d, 3)); SumRotate(Mul(a, 3), b, c, Mul(d, 2));
  }

  /** The four reverse tables together compute InvMixColumns of a column. */
  lemma ReverseColumn(a: byte, b: byte, c: byte, d: byte)
    ensures Xor4(ReverseWord(a), Rotl8(ReverseWord(b)), Rotl8(Rotl8(ReverseWord(c))), Rotl8(Rotl8(Rotl8(ReverseWord(d)))))
            == InvMixColumn(Pack(a, b, c, d))
  {
    hide *;
    ReversePack(a); ReversePack(b); ReversePack(c); ReversePack(d);
    RotateOnce(Mul(b, 0x0E), Mul(b, 0x09), Mul(b, 0x0D), Mul(b, 0x0B));
    RotateTwice(Mul(c, 0x0E), Mul(c, 0x09), Mul(c, 0x0D), Mul(c, 0x0B));
    RotateThrice(Mul(d, 0x0E), Mul(d, 0x09), Mul(d, 0x0D), Mul(d, 0x0B));
    XorPack4(Mul(a, 0x0E), Mul(a, 0x09), Mul(a, 0x0D), Mul(a, 0x0B), Mul(b, 0x0B), Mul(b, 0x0E), Mul(b, 0x09), Mul(b, 0x0D),
             Mul(c, 0x0D), Mul(c, 0x0B), Mul(c, 0x0E), Mul(c, 0x09), Mul(d, 0x09), Mul(d, 0x0D), Mul(d, 0x0B), Mul(d, 0x0E));
    InvMixPack(a, b, c, d);
  }

  lemma ReversePack(x: byte)
    ensures ReverseWord(x) == Pack(Mul(x, 0x0E), Mul(x, 0x09), Mul(x, 0x0D), Mul(x, 0x0B))
  {
    hide Mul;
    MulCommutes(x, 0x0E); MulCommutes(x, 0x09); MulCommutes(x, 0x0D); MulCommutes(x, 0x0B);
  }

  lemma InvMixPack(a: byte, b: byte, c: byte, d: byte)
    ensures InvMixColumn(Pack(a, b, c, d))
            == Pack(Sum(Mul(a, 0x0E), Mul(b, 0x0B), Mul(c, 0x0D), Mul(d, 0x09)), Sum(Mul(a, 0x09), Mul(b, 0x0E), Mul(c, 0x0B), Mul(d, 0x0D)),
                    Sum(Mul(a, 0x0D), Mul(b, 0x09), Mul(c, 0x0E), Mul(d, 0x0B)), Sum(Mul(a, 0x0B), Mul(b, 0x0D), Mul(c, 0x09), Mul(d, 0x0E)))
  {
    hide Mul, Sum, Pack, B0, B1, B2, B3;
    BytesOfPack(a, b, c, d);
    SumRotate(Mul(a, 0x09), Mul(b, 0x0E), Mul(c, 0x0B), Mul(d, 0x0D));
    SumRotate(Mul(a, 0x0D), Mul(b, 0x09), Mul(c, 0x0E), Mul(d, 0x0B));
    SumRotate(Mul(a, 0x0B), Mul(b, 0x0D), Mul(c, 0x09), Mul(d, 0x0E));
  }

  // ---------------------------------------------------------------- the generated tables

  /** The static tables; FSb, RSb, FT0-FT3, RT0-RT3 and the round constants of the source. */
  datatype Tables = Tables(fsb: seq<byte>, rsb: seq<byte>,
                           ft0: seq<word>, ft1: seq<word>, ft2: seq<word>, ft3: seq<word>,
                           rt0: seq<word>, rt1: seq<word>, rt2: seq<word>, rt3: seq<word>, rcon: seq<word>)
  {
    ghost predicate Sized() {
      && |fsb| == 256 && |rsb| == 256 && |rcon| == 10
      && |ft0| == 256 && |ft1| == 256 && |ft2| == 256 && |ft3| == 256
      && |rt0| == 256 && |rt1| == 256 && |rt2| == 256 && |rt3| == 256
    }

    /** The row of index k: S-box values and the rotated mixing words of byte x. */
    ghost predicate Row(k: int, x: byte)
      requires Sized() && 0 <= k < 256
    {
      && fsb[k] == Sbox(x) && rsb[k] == InvSbox(x)
      && ft0[k] == ForwardWord(Sbox(x)) && ft1[k] == Rotl8(ft0[k]) && ft2[k] == Rotl8(ft1[k]) && ft3[k] == Rotl8(ft2[k])
      && rt0[k] == ReverseWord(InvSbox(x)) && rt1[k] == Rotl8(rt0[k]) && rt2[k] == Rotl8(rt1[k]) && rt3[k] == Rotl8(rt2[k])
    }

    /** Every row belongs to its index, and the round constants are the doublings of one. */
    ghost predicate Correct() {
      && Sized()
      && (forall k :: 0 <= k < 256 ==> Row(k, ToByte(k)))
      && (forall i :: 0 <= i < 10 ==> rcon[i] == RoundConstant(i))
    }
  }

  function PowIndex(k: nat): (i: int)
    ensures 0 <= i < 256
  {
    Index(Pow(k))
  }

  method GeneratePowLog() returns (pow: array<byte>, log: array<int>)
    ensures fresh(pow) && fresh(log) && pow.Length == 256 && log.Length == 256
    ensures forall k :: 0 <= k < 256 ==> pow[k] == Pow(k)
    ensures forall k :: 1 <= k < 256 ==> log[PowIndex(k)] == k
  {
    hide *;
    pow, log := new byte[256], new int[256];
    var x: byte := 1;
    PowStep(0);
    for i := 0 to 256
      invariant x == Pow(i)
      invariant forall k :: 0 <= k < i ==> pow[k] == Pow(k)
      invariant forall k :: 1 <= k < i ==> log[PowIndex(k)] == k
    {
      pow[i] := x;
      PowsDiffer(i);
      PowIndexDef(i);
      log[Index(x)] := i;
      x := x ^ Xtime(x);
      PowStep(i);
    }
  }

  lemma PowIndexDef(i: nat)
    ensures PowIndex(i) == Index(Pow(i))
  {
  }

  lemma PowStep(i: nat)
    ensures Pow(0) == 1 && Pow(i + 1) == Pow(i) ^ Xtime(Pow(i))
  {
  }

  lemma PowsDiffer(i: nat)
    requires i < 256
    ensures forall k :: 1 <= k < i ==> PowIndex(k) != PowIndex(i)
  {
    forall k | 1 <= k < i ensures PowIndex(k) != PowIndex(i) {
      PowInjective(k, i);
      if Index(Pow(k)) == Index(Pow(i)) {
        SameIndex(Pow(k), Pow(i));
      }
    }
  }

  ghost function SboxIndex(k: int): (i: int)
    requires 0 <= k < 256
    ensures 0 <= i < 256
  {
    Index(Sbox(ToByte(k)))
  }

  lemma SboxIndexesDiffer(i: nat)
    requires i < 256
    ensures forall k :: 0 <= k < i ==> SboxIndex(k) != SboxIndex(i)
  {
    forall k | 0 <= k < i ensures SboxIndex(k) != SboxIndex(i) {
      SboxInverse(ToByte(k)); SboxInverse(ToByte(i));
      ByteRoundTrip(k); ByteRoundTrip(i);
      if SboxIndex(k) == SboxIndex(i) {
        SameIndex(Sbox(ToByte(k)), Sbox(ToByte(i)));
      }
    }
  }

  /** The affine step as the generator's loop body computes it. */
  function AffineSteps(x: byte): byte {
    var y1 := (x << 1) | (x >> 7);
    var y2 := (y1 << 1) | (y1 >> 7);
    var y3 := (y2 << 1) | (y2 >> 7);
    var y4 := (y3 << 1) | (y3 >> 7);
    x ^ y1 ^ y2 ^ y3 ^ (y4 ^ 0x63)
  }

  method GenerateSboxes(pow: array<byte>, log: array<int>) returns (fsb: array<byte>, rsb: array<byte>)
    requires pow.Length == 256 && log.Length == 256
    requires forall k :: 0 <= k < 256 ==> pow[k] == Pow(k)
    requires forall k :: 1 <= k < 256 ==> log[PowIndex(k)] == k
    ensures fresh(fsb) && fresh(rsb) && fsb.Length == 256 && rsb.Length == 256
    ensures forall k :: 0 <= k < 256 ==> fsb[k] == Sbox(ToByte(k))
    ensures forall k :: 0 <= k < 256 ==> rsb[SboxIndex(k)] == ToByte(k)
  {
    hide *;
    fsb, rsb := new byte[256], new byte[256];
    fsb[0] := 0x63;
    rsb[0x63] := 0;
    SboxOfZero();
    for i := 1 to 256
      invariant forall k :: 0 <= k < i ==> fsb[k] == Sbox(ToByte(k))
      invariant forall k :: 0 <= k < i ==> rsb[SboxIndex(k)] == ToByte(k)
    {
      ghost var l := SboxSteps(i);
      assert log[i] == l;
      var x := AffineSteps(pow[255 - log[i]]);
      SboxIndexesDiffer(i);
      fsb[i] := x;
      rsb[Index(x)] := ToByte(i);
    }
  }

  lemma SboxOfZero()
    ensures Sbox(0) == 0x63 && SboxIndex(0) == 0x63 && ToByte(0) == 0
  {
  }

  lemma SboxSteps(i: int) returns (l: nat)
    requires 1 <= i < 256
    ensures 1 <= l < 256 && PowIndex(l) == i
    ensures Sbox(ToByte(i)) == AffineSteps(Pow(255 - l)) && SboxIndex(i) == Index(Sbox(ToByte(i)))
  {
    ByteRoundTrip(i);
    var x := ToByte(i);
    assert x != 0;
    l := Log(x);
    hide Pow, Affine, AffineSteps, Index, ToByte;
    AffineStepsIsAffine(Pow(255 - l));
  }

  lemma AffineStepsIsAffine(x: byte)
    ensures AffineSteps(x) == Affine(x)
  {
  }

  /** The MUL macro: a product by adding logarithms modulo 255. */
  method MulByLogs(pow: array<byte>, log: array<int>, x: byte, y: byte) returns (r: byte)
    requires pow.Length == 256 && log.Length == 256
    requires forall k :: 0 <= k < 256 ==> pow[k] == Pow(k)
    requires forall k :: 1 <= k < 256 ==> log[PowIndex(k)] == k
    ensures r == Mul(x, y)
  {
    hide *;
    if x != 0 && y != 0 {
      LogEntry(x); LogEntry(y);
      LogMul(x, y);
      assert log[PowIndex(Log(x))] == Log(x) && log[PowIndex(Log(y))] == Log(y);
      r := pow[(log[Index(x)] + log[Index(y)]) % 255];
    } else {
      MulByZero(y); MulCommutes(x, y); MulByZero(x);
      r := 0;
    }
  }

  lemma LogEntry(x: byte)
    requires x != 0
    ensures Index(x) == PowIndex(Log(x))
  {
  }

  method GenerateReverseWord(pow: array<byte>, log: array<int>, x: byte) returns (w: word)
    requires pow.Length == 256 && log.Length == 256
    requires forall k :: 0 <= k < 256 ==> pow[k] == Pow(k)
    requires forall k :: 1 <= k < 256 ==> log[PowIndex(k)] == k
    ensures w == ReverseWord(x)
  {
    var e := MulByLogs(pow, log, 0x0E, x);
    var n := MulByLogs(pow, log, 0x09, x);
    var d := MulByLogs(pow, log, 0x0D, x);
    var b := MulByLogs(pow, log, 0x0B, x);
    hide Mul;
    w := (e as word) ^ (n as word << 8) ^ (d as word << 16) ^ (b as word << 24);
  }

  method GenerateForward(fsb: array<byte>) returns (ft0: array<word>, ft1: array<word>, ft2: array<word>, ft3: array<word>)
    requires fsb.Length == 256
    requires forall k :: 0 <= k < 256 ==> fsb[k] == Sbox(ToByte(k))
    ensures ft0.Length == 256 && ft1.Length == 256 && ft2.Length == 256 && ft3.Length == 256
    ensures forall k :: 0 <= k < 256 ==> ft0[k] == ForwardWord(Sbox(ToByte(k))) && ft1[k] == Rotl8(ft0[k])
                                         && ft2[k] == Rotl8(ft1[k]) && ft3[k] == Rotl8(ft2[k])
  {
    hide *;
    ft0, ft1, ft2, ft3 := new word[256], new word[256], new word[256], new word[256];
    for i := 0 to 256
      invariant forall k :: 0 <= k < i ==> ft0[k] == ForwardWord(Sbox(ToByte(k))) && ft1[k] == Rotl8(ft0[k])
                                           && ft2[k] == Rotl8(ft1[k]) && ft3[k] == Rotl8(ft2[k])
    {
      ft0[i] := ForwardWord(fsb[i]);
      ft1[i] := Rotl8(ft0[i]);
      ft2[i] := Rotl8(ft1[i]);
      ft3[i] := Rotl8(ft2[i]);
    }
  }

  method GenerateReverse(pow: array<byte>, log: array<int>, rsb: array<byte>)
    returns (rt0: array<word>, rt1: array<word>, rt2: array<word>, rt3: array<word>)
    requires pow.Length == 256 && log.Length == 256 && rsb.Length == 256
    requires forall k :: 0 <= k < 256 ==> pow[k] == Pow(k)
    requires forall k :: 1 <= k < 256 ==> log[PowIndex(k)] == k
    requires forall k :: 0 <= k < 256 ==> rsb[k] == InvSbox(ToByte(k))
    ensures rt0.Length == 256 && rt1.Length == 256 && rt2.Length == 256 && rt3.Length == 256
    ensures forall k :: 0 <= k < 256 ==> rt0[k] == ReverseWord(InvSbox(ToByte(k))) && rt1[k] == Rotl8(rt0[k])
                                         && rt2[k] == Rotl8(rt1[k]) && rt3[k] == Rotl8(rt2[k])
  {
    hide *;
    rt0, rt1, rt2, rt3 := new word[256], new word[256], new word[256], new word[256];
    for i := 0 to 256
      invariant forall k :: 0 <= k < i ==> rt0[k] == ReverseWord(InvSbox(ToByte(k))) && rt1[k] == Rotl8(rt0[k])
                                           && rt2[k] == Rotl8(rt1[k]) && rt3[k] == Rotl8(rt2[k])
    {
      rt0[i] := GenerateReverseWord(pow, log, rsb[i]);
      rt1[i] := Rotl8(rt0[i]);
      rt2[i] := Rotl8(rt1[i]);
      rt3[i] := Rotl8(rt2[i]);
    }
  }

  lemma ReverseEntry(v: int) returns (k: int)
    requires 0 <= v < 256
    ensures 0 <= k < 256 && SboxIndex(k) == v && ToByte(k) == InvSbox(ToByte(v))
  {
    SboxInverse(ToByte(v));
    k := Index(InvSbox(ToByte(v)));
    IndexRoundTrip(InvSbox(ToByte(v)));
    ByteRoundTrip(v);
  }

  method GenerateRoundConstants() returns (rcon: array<word>)
    ensures rcon.Length == 10 && forall k :: 0 <= k < 10 ==> rcon[k] == RoundConstant(k)
  {
    rcon := new word[10];
    var x: byte := 1;
    for i := 0 to 10
      invariant x == Doubling(i)
      invariant forall k :: 0 <= k < i ==> rcon[k] == RoundConstant(k)
    {
      rcon[i] := x as word;
      x := Xtime(x);
      DoublingStep(i);
    }
  }

  lemma DoublingStep(i: nat)
    ensures Doubling(i + 1) == Xtime(Doubling(i)) && RoundConstant(i) == Doubling(i) as word
  {
  }

  method GenerateTables() returns (t: Tables)
    ensures t.Correct()
  {
    hide Sbox, InvSbox, ForwardWord, ReverseWord, Rotl8, RoundConstant, Index, ToByte, PowIndex, SboxIndex, Pow;
    var pow, log := GeneratePowLog();
    var fsb, rsb := GenerateSboxes(pow, log);
    forall v | 0 <= v < 256 ensures rsb[v] == InvSbox(ToByte(v)) {
      var k := ReverseEntry(v);
      assert rsb[SboxIndex(k)] == ToByte(k);
    }
    var ft0, ft1, ft2, ft3 := GenerateForward(fsb);
    var rt0, rt1, rt2, rt3 := GenerateReverse(pow, log, rsb);
    var rcon := GenerateRoundConstants();
    t := Tables(fsb[..], rsb[..], ft0[..], ft1[..], ft2[..], ft3[..], rt0[..], rt1[..], rt2[..], rt3[..], rcon[..]);
  }
}
