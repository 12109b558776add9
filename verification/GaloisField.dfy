/**
 The field GF(2^8) as the AES table generator builds it: repeated doubling, the powers of the
 generator 3, and logarithms.  Two facts make the generated tables correct: the powers of 3 run
 through every non-zero byte exactly once, and adding logarithms multiplies.
 */
module GaloisField {
  import opened Arith
  import opened Bytes

  /** A byte as a table index, and back. */
  function Index(x: byte): (i: int)
    ensures 0 <= i < 256
  {
    x as int
  }

  function ToByte(i: int): byte
    requires 0 <= i < 256
  {
    i as byte
  }

  lemma IndexRoundTrip(x: byte)
    ensures ToByte(Index(x)) == x
  {
  }

  lemma ByteRoundTrip(i: int)
    requires 0 <= i < 256
    ensures Index(ToByte(i)) == i
  {
    assert i % 256 == i;
  }

  /** Field addition. */
  function Add(x: byte, y: byte): byte {
    x ^ y
  }

  /** Multiplication by x, reduced by x^8 + x^4 + x^3 + x + 1. */
  function Xtime(x: byte): byte {
    (x << 1) ^ (if x & 0x80 != 0 then 0x1B else 0x00)
  }

  /** Multiplication by 3, the step of the table generator's first loop. */
  function Triple(x: byte): byte {
    Add(x, Xtime(x))
  }

  lemma AddLaws(x: byte, y: byte, z: byte)
    ensures Add(x, y) == Add(y, x)
    ensures Add(Add(x, y), z) == Add(x, Add(y, z))
    ensures Add(x, x) == 0 && Add(x, 0) == x
  {
  }

  lemma AddSwap(a: byte, b: byte, c: byte, d: byte)
    ensures Add(Add(a, b), Add(c, d)) == Add(Add(a, c), Add(b, d))
  {
    hide Add;
    AddLaws(a, b, Add(c, d)); AddLaws(b, c, d); AddLaws(c, b, d); AddLaws(a, c, Add(b, d));
  }

  /** Branch-free form of Xtime: the carry bit is added at positions 0, 1, 3 and 4. */
  function XtimeCarry(x: byte): byte {
    (x << 1) ^ (x >> 7) ^ ((x >> 7) << 1) ^ ((x >> 7) << 3) ^ ((x >> 7) << 4)
  }

  lemma XtimeIsCarry(x: byte)
    ensures Xtime(x) == XtimeCarry(x)
  {
  }

  lemma XtimeLinear(x: byte, y: byte)
    ensures Xtime(Add(x, y)) == Add(Xtime(x), Xtime(y))
  {
    assert XtimeCarry(x ^ y) == XtimeCarry(x) ^ XtimeCarry(y);
    XtimeIsCarry(x); XtimeIsCarry(y); XtimeIsCarry(x ^ y);
  }

  lemma TripleInjective(x: byte, y: byte)
    requires Triple(x) == Triple(y)
    ensures x == y
  {
    XtimeIsCarry(x); XtimeIsCarry(y);
  }

  // ---------------------------------------------------------------- the product of the field

  /** The multiplicand, counted once when the low bit of y is set. */
  function LowBit(x: byte, y: byte): byte {
    if y & 1 != 0 then x else 0
  }

  /** The field product: shift-and-add over the bits of the multiplier (section 4.2 of FIPS 197). */
  function Mul(x: byte, y: byte): byte
    decreases y
  {
    if y == 0 then 0 else Add(LowBit(x, y), Mul(Xtime(x), y >> 1))
  }

  lemma MulUnfold(x: byte, y: byte)
    ensures Mul(x, 0) == 0 == Xtime(0) == Add(0, 0)
    ensures y != 0 ==> Mul(x, y) == Add(LowBit(x, y), Mul(Xtime(x), y >> 1))
  {
  }

  lemma LowBitLinear(x: byte, x': byte, y: byte)
    ensures LowBit(Add(x, x'), y) == Add(LowBit(x, y), LowBit(x', y))
    ensures LowBit(Xtime(x), y) == Xtime(LowBit(x, y))
  {
  }

  lemma {:induction false} MulXtime(x: byte, y: byte)
    ensures Mul(Xtime(x), y) == Xtime(Mul(x, y))
    decreases y
  {
    hide *;
    MulUnfold(x, y); MulUnfold(Xtime(x), y);
    if y != 0 {
      LowBitLinear(x, x, y);
      MulXtime(Xtime(x), y >> 1);
      XtimeLinear(LowBit(x, y), Mul(Xtime(x), y >> 1));
    }
  }

  lemma {:induction false} MulLinear(x: byte, x': byte, y: byte)
    ensures Mul(Add(x, x'), y) == Add(Mul(x, y), Mul(x', y))
    decreases y
  {
    hide *;
    MulUnfold(x, y); MulUnfold(x', y); MulUnfold(Add(x, x'), y);
    if y != 0 {
      LowBitLinear(x, x', y);
      XtimeLinear(x, x');
      MulLinear(Xtime(x), Xtime(x'), y >> 1);
      AddSwap(LowBit(x, y), LowBit(x', y), Mul(Xtime(x), y >> 1), Mul(Xtime(x'), y >> 1));
    }
  }

  lemma MulTriple(x: byte, y: byte)
    ensures Mul(Triple(x), y) == Triple(Mul(x, y))
  {
    MulLinear(x, Xtime(x), y);
    MulXtime(x, y);
  }

  /** Multiplying the power-of-two unit 2^k by a short enough y only shifts y. */
  lemma {:induction false} MulUnit(k: byte, y: byte)
    requires k <= 7 && y <= 0xFF >> (k as bv4)
    ensures Mul(1 << (k as bv4), y) == y << (k as bv4)
    decreases y
  {
    if y > 1 {
      assert k < 7 && Xtime(1 << (k as bv4)) == 1 << (k as bv4 + 1);
      MulUnit(k + 1, y >> 1);
    }
  }

  // ---------------------------------------------------------------- powers of the generator

  /** The value the generator loop stores in pow[i]. */
  function Pow(i: nat): byte {
    if i == 0 then 1 else Triple(Pow(i - 1))
  }

  /** Adding exponents multiplies: what the generator's MUL macro relies on. */
  lemma {:induction false} PowAdd(i: nat, j: nat)
    ensures Pow(i + j) == Mul(Pow(i), Pow(j))
  {
    if i == 0 {
      MulUnit(0, Pow(j));
    } else {
      PowAdd(i - 1, j);
      MulTriple(Pow(i - 1), Pow(j));
    }
  }

  /** The first third of the generator's pow table. */
  lemma PowersTo85()
    ensures Pow(15) != 1 && Pow(51) != 1 && Pow(85) == 0xBD
  {
    assert Pow(1) == 0x03 && Pow(2) == 0x05 && Pow(3) == 0x0F && Pow(4) == 0x11 && Pow(5) == 0x33;
    assert Pow(6) == 0x55 && Pow(7) == 0xFF && Pow(8) == 0x1A && Pow(9) == 0x2E && Pow(10) == 0x72;
    assert Pow(11) == 0x96 && Pow(12) == 0xA1 && Pow(13) == 0xF8 && Pow(14) == 0x13 && Pow(15) == 0x35;
    assert Pow(16) == 0x5F && Pow(17) == 0xE1 && Pow(18) == 0x38 && Pow(19) == 0x48 && Pow(20) == 0xD8;
    assert Pow(21) == 0x73 && Pow(22) == 0x95 && Pow(23) == 0xA4 && Pow(24) == 0xF7 && Pow(25) == 0x02;
    assert Pow(26) == 0x06 && Pow(27) == 0x0A && Pow(28) == 0x1E && Pow(29) == 0x22 && Pow(30) == 0x66;
    assert Pow(31) == 0xAA && Pow(32) == 0xE5 && Pow(33) == 0x34 && Pow(34) == 0x5C && Pow(35) == 0xE4;
    assert Pow(36) == 0x37 && Pow(37) == 0x59 && Pow(38) == 0xEB && Pow(39) == 0x26 && Pow(40) == 0x6A;
    assert Pow(41) == 0xBE && Pow(42) == 0xD9 && Pow(43) == 0x70 && Pow(44) == 0x90 && Pow(45) == 0xAB;
    assert Pow(46) == 0xE6 && Pow(47) == 0x31 && Pow(48) == 0x53 && Pow(49) == 0xF5 && Pow(50) == 0x04;
    assert Pow(51) == 0x0C && Pow(52) == 0x14 && Pow(53) == 0x3C && Pow(54) == 0x44 && Pow(55) == 0xCC;
    assert Pow(56) == 0x4F && Pow(57) == 0xD1 && Pow(58) == 0x68 && Pow(59) == 0xB8 && Pow(60) == 0xD3;
    assert Pow(61) == 0x6E && Pow(62) == 0xB2 && Pow(63) == 0xCD && Pow(64) == 0x4C && Pow(65) == 0xD4;
    assert Pow(66) == 0x67 && Pow(67) == 0xA9 && Pow(68) == 0xE0 && Pow(69) == 0x3B && Pow(70) == 0x4D;
    assert Pow(71) == 0xD7 && Pow(72) == 0x62 && Pow(73) == 0xA6 && Pow(74) == 0xF1 && Pow(75) == 0x08;
    assert Pow(76) == 0x18 && Pow(77) == 0x28 && Pow(78) == 0x78 && Pow(79) == 0x88 && Pow(80) == 0x83;
    assert Pow(81) == 0x9E && Pow(82) == 0xB9 && Pow(83) == 0xD0 && Pow(84) == 0x6B && Pow(85) == 0xBD;
  }

  /** 3^85 is a cube root of one. */
  lemma PowersClose()
    ensures Pow(255) == 1
  {
    PowersTo85();
    PowAdd(85, 85);
    PowAdd(170, 85);
    CubeRoot();
  }

  lemma CubeRoot()
    ensures Mul(0xBD, 0xBD) == 0xBC && Mul(0xBC, 0xBD) == 1
  {
    assert Mul(0x33, 0x01) == 0x33 && Mul(0x94, 0x02) == 0x33 && Mul(0x4A, 0x05) == 0x79 && Mul(0x25, 0x0B) == 0x5C;
    assert Mul(0x9F, 0x17) == 0xC3 && Mul(0xC2, 0x2F) == 0x01 && Mul(0x61, 0x5E) == 0x01 && Mul(0xBD, 0xBD) == 0xBC;
    assert Mul(0xB3, 0x01) == 0xB3 && Mul(0xD4, 0x02) == 0xB3 && Mul(0x6A, 0x05) == 0xD9 && Mul(0x35, 0x0B) == 0xEC;
    assert Mul(0x97, 0x17) == 0x7B && Mul(0xC6, 0x2F) == 0xBD && Mul(0x63, 0x5E) == 0xBD && Mul(0xBC, 0xBD) == 0x01;
  }

  // ---------------------------------------------------------------- three is a generator

  lemma PowShift(n: nat, k: nat)
    requires Pow(k) == 1
    ensures Pow(k + n) == Pow(n)
  {
    PowAdd(k, n);
    PowAdd(0, n);
  }

  lemma {:induction false} PowPeriodic(n: nat, k: nat)
    requires k > 0 && Pow(k) == 1
    ensures Pow(n) == Pow(n % k)
  {
    hide Pow;
    if n >= k {
      PowShift(n - k, k);
      PowPeriodic(n - k, k);
      ModStep(n, k);
    }
  }

  lemma DivisorsOf255(k: nat)
    requires 0 < k < 255 && 255 % k == 0
    ensures 85 % k == 0 || 51 % k == 0 || 15 % k == 0
  {
    var q := 255 / k;
    assert q * k == 255;
    if k > 15 {
      assert q <= 15;
      assert q == 3 || q == 5 || q == 15;
    }
  }

  /** No power of the generator below the 255th is one. */
  lemma {:induction false} PowNotOne(k: nat)
    requires 0 < k < 255
    ensures Pow(k) != 1
  {
    if Pow(k) == 1 {
      PowersTo85();
      PowersClose();
      PowPeriodic(255, k);
      if 255 % k != 0 {
        PowNotOne(255 % k);
      } else {
        DivisorsOf255(k);
        PowPeriodic(85, k); PowPeriodic(51, k); PowPeriodic(15, k);
      }
    }
  }

  lemma {:induction false} PowInjective(i: nat, j: nat)
    requires i < j < i + 255
    ensures Pow(i) != Pow(j)
  {
    if i == 0 {
      PowNotOne(j);
    } else if Pow(i) == Pow(j) {
      TripleInjective(Pow(i - 1), Pow(j - 1));
      PowInjective(i - 1, j - 1);
    }
  }

  lemma {:induction false} PowNonZero(i: nat)
    ensures Pow(i) != 0
  {
    if i > 0 {
      PowNonZero(i - 1);
      assert Triple(0) == 0;
      if Pow(i) == 0 {
        TripleInjective(Pow(i - 1), 0);
      }
    }
  }

  /** The first n non-trivial powers, as table indices. */
  ghost function Powers(n: nat): set<int> {
    set i | 1 <= i <= n :: Index(Pow(i))
  }

  ghost function Upto(n: nat): (s: set<int>)
    ensures forall v :: v in s <==> 1 <= v <= n
    ensures |s| == n
  {
    if n == 0 then {} else Upto(n - 1) + {n}
  }

  lemma {:induction false} PowersCount(n: nat)
    requires n <= 255
    ensures |Powers(n)| == n
  {
    if n > 0 {
      PowersCount(n - 1);
      forall i | 1 <= i < n ensures Index(Pow(i)) != Index(Pow(n)) {
        PowInjective(i, n);
      }
      assert Powers(n) == Powers(n - 1) + {Index(Pow(n))};
    }
  }

  lemma NonZeroIndex(x: byte)
    requires x != 0
    ensures 1 <= Index(x) <= 255
  {
  }

  lemma SameIndex(x: byte, y: byte)
    requires Index(x) == Index(y)
    ensures x == y
  {
  }

  lemma PowersNonZero()
    ensures Powers(255) <= Upto(255)
  {
    forall i | 1 <= i <= 255 ensures 1 <= Index(Pow(i)) <= 255 {
      PowNonZero(i);
      NonZeroIndex(Pow(i));
    }
  }

  lemma SubsetOfEqualSize(a: set<int>, b: set<int>)
    requires a <= b && |a| == |b|
    ensures a == b
  {
    assert |b| == |a| + |b - a| by { assert b == a + (b - a); }
  }

  /** Every non-zero byte is a power of three with exponent 1 to 255. */
  lemma PowSurjective(x: byte)
    requires x != 0
    ensures exists i :: 1 <= i <= 255 && Pow(i) == x
  {
    PowersNonZero();
    PowersCount(255);
    SubsetOfEqualSize(Powers(255), Upto(255));
    NonZeroIndex(x);
    assert Index(x) in Powers(255);
    var i :| 1 <= i <= 255 && Index(Pow(i)) == Index(x);
    SameIndex(Pow(i), x);
  }

  /** The logarithm the generator leaves in log[x]: the last exponent up to 255 reaching x. */
  ghost function Log(x: byte): (i: nat)
    requires x != 0
    ensures 1 <= i <= 255 && Pow(i) == x
  {
    PowSurjective(x);
    var i :| 1 <= i <= 255 && Pow(i) == x;
    i
  }

  lemma LogUnique(x: byte, i: nat)
    requires x != 0 && 1 <= i <= 255 && Pow(i) == x
    ensures Log(x) == i
  {
    if Log(x) < i {
      PowInjective(Log(x), i);
    } else if i < Log(x) {
      PowInjective(i, Log(x));
    }
  }

  /** Exponents only count modulo 255, and logarithms of non-zero factors add. */
  lemma LogMul(x: byte, y: byte)
    requires x != 0 && y != 0
    ensures Pow((Log(x) + Log(y)) % 255) == Mul(x, y)
  {
    PowersClose();
    PowAdd(Log(x), Log(y));
    PowPeriodic(Log(x) + Log(y), 255);
  }

  /** The multiplicative inverse the S-box loop looks up, with zero sent to zero. */
  ghost function Inverse(x: byte): byte {
    if x == 0 then 0 else Pow(255 - Log(x))
  }

  lemma InverseIsInverse(x: byte)
    requires x != 0
    ensures Mul(x, Inverse(x)) == 1
  {
    PowersClose();
    PowAdd(Log(x), 255 - Log(x));
  }

  lemma InverseInvolution(x: byte)
    ensures Inverse(Inverse(x)) == x
  {
    if x != 0 {
      var i := 255 - Log(x);
      PowNonZero(i);
      if i == 0 {
        PowersClose();
        LogUnique(1, 255);
      } else {
        LogUnique(Pow(i), i);
      }
    }
  }

  lemma MulCommutes(x: byte, y: byte)
    ensures Mul(x, y) == Mul(y, x)
  {
    MulByZero(x); MulByZero(y);
    if x != 0 && y != 0 {
      PowAdd(Log(x), Log(y));
      PowAdd(Log(y), Log(x));
    }
  }

  lemma {:induction false} MulByZero(y: byte)
    ensures Mul(0, y) == 0
    decreases y
  {
    MulUnfold(0, y);
    if y != 0 {
      MulByZero(y >> 1);
    }
  }
}
