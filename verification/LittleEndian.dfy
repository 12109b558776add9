/** Little-endian byte strings as numbers. */
module LittleEndian {
  import opened Arith
  import opened Bytes
  import opened GaloisField
  import opened Counter
  import opened Words

  /** The n low bytes of v, lowest first. */
  function LeBytes(n: nat, v: nat): (s: seq<byte>)
    ensures |s| == n
  {
    if n == 0 then [] else [ToByte(v % 256)] + LeBytes(n - 1, v / 256)
  }

  function LeNat(s: seq<byte>): nat {
    if s == [] then 0 else Index(s[0]) + 256 * LeNat(s[1..])
  }

  /** The first byte counts least. */
  lemma LeNatSteps(x: byte, s: seq<byte>)
    ensures LeNat([]) == 0 && LeNat([x] + s) == Index(x) + 256 * LeNat(s)
  {
    assert ([x] + s)[1..] == s;
  }

  lemma {:induction false} LeNatBound(s: seq<byte>)
    ensures LeNat(s) < Pow256(|s|)
    decreases |s|
  {
    if s != [] {
      LeNatBound(s[1..]);
    }
  }

  /** A number that fits is read back. */
  lemma {:induction false} LeRoundTrip(n: nat, v: nat)
    requires v < Pow256(n)
    ensures LeNat(LeBytes(n, v)) == v
    decreases n
  {
    hide ToByte, Index;
    if n > 0 {
      LeRoundTrip(n - 1, v / 256);
      ByteRoundTrip(v % 256);
      assert LeBytes(n, v)[1..] == LeBytes(n - 1, v / 256);
    }
  }

  /** The bytes of a number are the bytes it was read from. */
  lemma {:induction false} LeBytesOfNat(s: seq<byte>)
    ensures LeBytes(|s|, LeNat(s)) == s
    decreases |s|
  {
    hide ToByte, Index;
    if s != [] {
      var rest := LeNat(s[1..]);
      DivModUnique(LeNat(s), 256, rest, Index(s[0]));
      LeBytesOfNat(s[1..]);
      IndexRoundTrip(s[0]);
      assert s == [s[0]] + s[1..];
    }
  }

  lemma WidthPowers()
    ensures Pow256(1) == 0x100 && Pow256(2) == 0x1_0000 && Pow256(4) == 0x1_0000_0000
    ensures Pow256(8) == 0x1_0000_0000_0000_0000
  {
    assert Pow256(3) == 0x100_0000 && Pow256(5) == 0x100_0000_0000 && Pow256(6) == 0x1_0000_0000_0000;
  }
  // ---------------------------------------------------------------- 16 and 32 bits, as the source reads and writes them

  function Number4(s: seq<byte>): U32
    requires |s| == 4
  {
    LeNatBound(s);
    WidthPowers();
    LeNat(s)
  }

  function Number2(s: seq<byte>): U16
    requires |s| == 2
  {
    LeNatBound(s);
    WidthPowers();
    LeNat(s)
  }

  /** One byte of a number, as the source shifts and masks it. */
  function ByteOf(v: nat, i: nat): byte
    requires i < 4
  {
    if i == 0 then ToByte(v % 256)
    else if i == 1 then ToByte(v / 256 % 256)
    else if i == 2 then ToByte(v / 0x1_0000 % 256)
    else ToByte(v / 0x100_0000 % 256)
  }

  lemma LittleEndianBytes(v: nat)
    ensures LeBytes(2, v) == [ByteOf(v, 0), ByteOf(v, 1)]
    ensures LeBytes(4, v) == [ByteOf(v, 0), ByteOf(v, 1), ByteOf(v, 2), ByteOf(v, 3)]
  {
    hide ToByte;
    Digits(v);
    var v1, v2, v3 := v / 256, v / 256 / 256, v / 256 / 256 / 256;
    assert LeBytes(0, v3 / 256) == [];
    assert LeBytes(1, v3) == [ToByte(v3 % 256)] && LeBytes(1, v1) == [ToByte(v1 % 256)] by {
      assert LeBytes(0, v1 / 256) == [];
    }
    assert LeBytes(2, v2) == [ToByte(v2 % 256)] + LeBytes(1, v3);
    assert LeBytes(2, v) == [ToByte(v % 256)] + LeBytes(1, v1);
    assert LeBytes(3, v1) == [ToByte(v1 % 256)] + LeBytes(2, v2);
    assert LeBytes(4, v) == [ToByte(v % 256)] + LeBytes(3, v1);
  }

  /** The number written low byte first at an offset. */
  function Read2(wire: seq<byte>, at: nat): (v: U16)
    requires at + 2 <= |wire|
    ensures v == Number2(wire[at..at + 2])
  {
    ReadDigits(wire[at..at + 2]);
    Index(wire[at]) + 256 * Index(wire[at + 1])
  }

  function Read4(wire: seq<byte>, at: nat): (v: U32)
    requires at + 4 <= |wire|
    ensures v == Number4(wire[at..at + 4])
  {
    ReadDigits(wire[at..at + 4]);
    Index(wire[at]) + 256 * Index(wire[at + 1]) + 0x1_0000 * Index(wire[at + 2]) + 0x100_0000 * Index(wire[at + 3])
  }

  lemma ReadDigits(s: seq<byte>)
    ensures |s| == 2 ==> LeNat(s) == Index(s[0]) + 256 * Index(s[1])
    ensures |s| == 4 ==> LeNat(s) == Index(s[0]) + 256 * Index(s[1]) + 0x1_0000 * Index(s[2]) + 0x100_0000 * Index(s[3])
  {
    hide Index;
    if |s| == 2 {
      assert LeNat(s[1..][1..]) == 0;
      assert LeNat(s[1..]) == Index(s[1]) + 256 * LeNat(s[1..][1..]);
    } else if |s| == 4 {
      var t := s[1..];
      var u := t[1..];
      var v := u[1..];
      assert LeNat(v[1..]) == 0;
      assert LeNat(v) == Index(v[0]) && LeNat(u) == Index(u[0]) + 256 * LeNat(v) && LeNat(t) == Index(t[0]) + 256 * LeNat(u);
    }
  }
}
