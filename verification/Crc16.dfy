/**
 The two 16-bit cyclic redundancy checks of the field links, as linear maps on the register: feeding
 a byte is adding it in and shifting eight times, and a shift can be undone.
 */
module Crc16 {
  import opened Bytes

  type Register = bv16

  /** The reflected check with polynomial 0xA001 and the one with polynomial 0x1021. */
  datatype Code = Modbus | Ccitt

  function Plus(a: Register, b: Register): Register {
    a ^ b
  }

  /** One step of the reflected inner loop. */
  function ShiftRight(c: Register): Register {
    if c & 1 != 0 then (c >> 1) ^ 0xA001 else c >> 1
  }

  /** One step of the other. */
  function ShiftLeft(c: Register): Register {
    if c & 0x8000 != 0 then (c << 1) ^ 0x1021 else c << 1
  }

  function Shift(k: Code, c: Register): Register {
    match k
    case Modbus => ShiftRight(c)
    case Ccitt => ShiftLeft(c)
  }

  function Shifts(k: Code, c: Register, n: nat): Register {
    if n == 0 then c else Shift(k, Shifts(k, c, n - 1))
  }

  function Low(b: byte): Register {
    b as bv16
  }

  function High(b: byte): Register {
    (b as bv16) << 8
  }

  /** Where a byte is added in. */
  function Inject(k: Code, b: byte): Register {
    match k
    case Modbus => Low(b)
    case Ccitt => High(b)
  }

  function Feed(k: Code, c: Register, b: byte): Register {
    Shifts(k, Plus(c, Inject(k, b)), 8)
  }

  /** The register after the bytes, from an initial value. */
  function Run(k: Code, c: Register, s: seq<byte>): Register {
    if s == [] then c else Feed(k, Run(k, c, s[..|s| - 1]), s[|s| - 1])
  }

  function Crc(k: Code, s: seq<byte>): Register {
    Run(k, 0xFFFF, s)
  }

  /** One bit of the reflected check and one of the other. */
  lemma Steps(c: Register)
    ensures Shift(Modbus, c) == if c & 1 == 0 then c >> 1 else (c >> 1) ^ 0xA001
    ensures Shift(Ccitt, c) == if c & 0x8000 == 0 then c << 1 else (c << 1) ^ 0x1021
  {
    OneBit(c);
  }

  lemma OneBit(c: Register)
    ensures ShiftRight(c) == if c & 1 == 0 then c >> 1 else (c >> 1) ^ 0xA001
    ensures ShiftLeft(c) == if c & 0x8000 == 0 then c << 1 else (c << 1) ^ 0x1021
  {
  }

  /** The check starts from all ones; each byte is added in, low or high, and shifted out in eight steps. */
  lemma CrcSteps(k: Code, s: seq<byte>, b: byte)
    ensures Crc(k, []) == 0xFFFF
    ensures Crc(k, s + [b])
            == Shifts(k, Plus(Crc(k, s), if k == Modbus then b as bv16 else (b as bv16) << 8), 8)
  {
    hide Shifts;
    assert (s + [b])[..|s|] == s;
  }

  /** n steps are one step after n - 1. */
  lemma ShiftsSteps(k: Code, c: Register, n: nat)
    ensures Shifts(k, c, 0) == c && Shifts(k, c, n + 1) == Shift(k, Shifts(k, c, n))
  {
    hide Shift;
  }

  // ---------------------------------------------------------------- algebra

  lemma PlusLaws(a: Register, b: Register, c: Register, d: Register)
    ensures Plus(Plus(a, b), Plus(c, d)) == Plus(Plus(a, c), Plus(b, d))
    ensures Plus(a, b) == 0 <==> a == b
    ensures Plus(a, 0) == a && Plus(a, a) == 0 && Plus(a, b) == Plus(b, a)
  {
    XorLaws(a, b, c, d);
  }

  lemma XorLaws(a: Register, b: Register, c: Register, d: Register)
    ensures (a ^ b) ^ (c ^ d) == (a ^ c) ^ (b ^ d)
    ensures a ^ b == 0 <==> a == b
    ensures a ^ 0 == a && a ^ a == 0 && a ^ b == b ^ a
  {
  }

  /** The shifts without branches: the bit shifted out goes to each place of the polynomial. */
  function Right(c: Register): Register {
    (c >> 1) ^ (c & 1) ^ ((c & 1) << 13) ^ ((c & 1) << 15)
  }

  function Up(c: Register): Register {
    c << 1
  }

  /** The top bit, moved down by n places. */
  function Tap(c: Register, n: bv5): Register
    requires n < 16
  {
    (c & 0x8000) >> n
  }

  function Left(c: Register): Register {
    Plus(Plus(Up(c), Tap(c, 15)), Plus(Tap(c, 10), Tap(c, 3)))
  }

  lemma RightIs(c: Register)
    ensures ShiftRight(c) == Right(c)
  {
    if c & 1 != 0 {
      assert c & 1 == 1;
    }
  }

  lemma LeftIs(c: Register)
    ensures ShiftLeft(c) == Left(c)
  {
    if c & 0x8000 != 0 {
      assert c & 0x8000 == 0x8000;
    }
  }

  lemma RightLinear(a: Register, b: Register)
    ensures Right(Plus(a, b)) == Plus(Right(a), Right(b))
  {
  }

  lemma UpLinear(a: Register, b: Register)
    ensures Up(Plus(a, b)) == Plus(Up(a), Up(b))
  {
  }

  lemma TapLinear(a: Register, b: Register, n: bv5)
    requires n == 15 || n == 10 || n == 3
    ensures Tap(Plus(a, b), n) == Plus(Tap(a, n), Tap(b, n))
  {
  }

  lemma LeftLinear(a: Register, b: Register)
    ensures Left(Plus(a, b)) == Plus(Left(a), Left(b))
  {
    hide Plus, Up, Tap;
    UpLinear(a, b);
    TapLinear(a, b, 15); TapLinear(a, b, 10); TapLinear(a, b, 3);
    PlusLaws(Up(a), Up(b), Tap(a, 15), Tap(b, 15));
    PlusLaws(Tap(a, 10), Tap(b, 10), Tap(a, 3), Tap(b, 3));
    PlusLaws(Plus(Up(a), Tap(a, 15)), Plus(Up(b), Tap(b, 15)), Plus(Tap(a, 10), Tap(a, 3)), Plus(Tap(b, 10), Tap(b, 3)));
  }

  lemma ShiftLinear(k: Code, a: Register, b: Register)
    ensures Shift(k, Plus(a, b)) == Plus(Shift(k, a), Shift(k, b))
  {
    hide Plus, ShiftRight, ShiftLeft, Right, Left;
    RightIs(a); RightIs(b); RightIs(Plus(a, b));
    LeftIs(a); LeftIs(b); LeftIs(Plus(a, b));
    RightLinear(a, b);
    LeftLinear(a, b);
  }

  lemma LowHighLinear(x: byte, y: byte)
    ensures Low(x ^ y) == Plus(Low(x), Low(y)) && High(x ^ y) == Plus(High(x), High(y))
  {
  }

  lemma InjectLinear(k: Code, x: byte, y: byte)
    ensures Inject(k, x ^ y) == Plus(Inject(k, x), Inject(k, y))
  {
    hide Low, High, Plus;
    LowHighLinear(x, y);
  }

  /** Only zero shifts to zero: the bit fed back would have to be the one shifted in. */
  lemma ShiftKernel(c: Register)
    ensures ShiftRight(c) == 0 ==> c == 0
    ensures ShiftLeft(c) == 0 ==> c == 0
  {
  }

  lemma ShiftInjective(k: Code, a: Register, b: Register)
    requires Shift(k, a) == Shift(k, b)
    ensures a == b
  {
    hide Plus, ShiftRight, ShiftLeft;
    ShiftLinear(k, a, b);
    PlusLaws(Shift(k, a), Shift(k, b), 0, 0);
    ShiftKernel(Plus(a, b));
    PlusLaws(a, b, 0, 0);
  }

  lemma {:induction false} ShiftsLinear(k: Code, a: Register, b: Register, n: nat)
    ensures Shifts(k, Plus(a, b), n) == Plus(Shifts(k, a, n), Shifts(k, b, n))
  {
    hide Plus, Shift;
    if n > 0 {
      ShiftsLinear(k, a, b, n - 1);
      ShiftLinear(k, Shifts(k, a, n - 1), Shifts(k, b, n - 1));
    }
  }

  lemma {:induction false} ShiftsInjective(k: Code, a: Register, b: Register, n: nat)
    requires Shifts(k, a, n) == Shifts(k, b, n)
    ensures a == b
  {
    hide Shift;
    if n > 0 {
      ShiftInjective(k, Shifts(k, a, n - 1), Shifts(k, b, n - 1));
      ShiftsInjective(k, a, b, n - 1);
    }
  }

  /** The check is linear: it distributes over the difference of two messages. */
  lemma {:induction false} RunLinear(k: Code, a: Register, b: Register, s: seq<byte>, t: seq<byte>)
    requires |s| == |t|
    ensures Run(k, Plus(a, b), Xor(s, t)) == Plus(Run(k, a, s), Run(k, b, t))
    decreases |s|
  {
    hide Plus, Inject, Shifts;
    if s != [] {
      var n := |s| - 1;
      RunLinear(k, a, b, s[..n], t[..n]);
      assert Xor(s, t)[..n] == Xor(s[..n], t[..n]);
      FeedLinear(k, Run(k, a, s[..n]), Run(k, b, t[..n]), s[n], t[n]);
      assert Xor(s, t)[n] == s[n] ^ t[n];
    }
  }

  lemma FeedLinear(k: Code, a: Register, b: Register, x: byte, y: byte)
    ensures Feed(k, Plus(a, b), x ^ y) == Plus(Feed(k, a, x), Feed(k, b, y))
  {
    hide Plus, Inject, Shifts;
    InjectLinear(k, x, y);
    PlusLaws(a, b, Inject(k, x), Inject(k, y));
    ShiftsLinear(k, Plus(a, Inject(k, x)), Plus(b, Inject(k, y)), 8);
  }

  lemma PlusTwice(a: Register, b: Register)
    ensures Plus(Plus(a, b), b) == a
  {
  }

  lemma FeedInjective(k: Code, a: Register, b: Register, x: byte)
    requires Feed(k, a, x) == Feed(k, b, x)
    ensures a == b
  {
    hide Inject, Shifts, Plus;
    ShiftsInjective(k, Plus(a, Inject(k, x)), Plus(b, Inject(k, x)), 8);
    PlusTwice(a, Inject(k, x));
    PlusTwice(b, Inject(k, x));
  }

  /** Different registers stay different under the same bytes. */
  lemma {:induction false} RunInjective(k: Code, a: Register, b: Register, s: seq<byte>)
    requires Run(k, a, s) == Run(k, b, s)
    ensures a == b
    decreases |s|
  {
    hide Feed;
    if s != [] {
      var n := |s| - 1;
      FeedInjective(k, Run(k, a, s[..n]), Run(k, b, s[..n]), s[n]);
      RunInjective(k, a, b, s[..n]);
    }
  }

  lemma {:induction false} RunAppend(k: Code, c: Register, s: seq<byte>, t: seq<byte>)
    ensures Run(k, c, s + t) == Run(k, Run(k, c, s), t)
    decreases |t|
  {
    hide Feed;
    if t == [] {
      assert s + t == s;
    } else {
      RunAppend(k, c, s, t[..|t| - 1]);
      assert (s + t)[..|s + t| - 1] == s + t[..|t| - 1];
    }
  }

  // ---------------------------------------------------------------- bursts

  /** A register that reaches Inject(d) in eight shifts with nothing fed back. */
  function Spread(k: Code, d: byte): Register {
    match k
    case Modbus => High(d)
    case Ccitt => Low(d)
  }

  lemma CcittSteps(d: byte)
    ensures var x := d as bv16;
            && ShiftLeft(x) == x << 1 && ShiftLeft(x << 1) == x << 2 && ShiftLeft(x << 2) == x << 3
            && ShiftLeft(x << 3) == x << 4 && ShiftLeft(x << 4) == x << 5 && ShiftLeft(x << 5) == x << 6
            && ShiftLeft(x << 6) == x << 7 && ShiftLeft(x << 7) == x << 8
  {
  }

  lemma ModbusSteps(d: byte)
    ensures var x := d as bv16;
            && ShiftRight(x << 8) == x << 7 && ShiftRight(x << 7) == x << 6 && ShiftRight(x << 6) == x << 5
            && ShiftRight(x << 5) == x << 4 && ShiftRight(x << 4) == x << 3 && ShiftRight(x << 3) == x << 2
            && ShiftRight(x << 2) == x << 1 && ShiftRight(x << 1) == x
  {
  }

  lemma EightShifts(k: Code, c: Register)
    ensures Shifts(k, c, 8) == Shift(k, Shift(k, Shift(k, Shift(k, Shift(k, Shift(k, Shift(k, Shift(k, c))))))))
  {
    hide Shift;
    assert Shifts(k, c, 1) == Shift(k, c);
    assert Shifts(k, c, 2) == Shift(k, Shift(k, c));
    assert Shifts(k, c, 4) == Shift(k, Shift(k, Shifts(k, c, 2)));
    assert Shifts(k, c, 6) == Shift(k, Shift(k, Shifts(k, c, 4)));
  }

  lemma SpreadShifts(k: Code, d: byte)
    ensures Shifts(k, Spread(k, d), 8) == Inject(k, d)
  {
    hide ShiftRight, ShiftLeft, Shifts;
    EightShifts(k, Spread(k, d));
    ModbusSteps(d);
    CcittSteps(d);
  }

  lemma SpreadApart(k: Code, x: byte, y: byte)
    requires Inject(k, x) == Spread(k, y)
    ensures x == 0 && y == 0
  {
  }

  lemma Zeroes(k: Code)
    ensures Shift(k, 0) == 0 && Inject(k, 0) == 0
  {
  }

  lemma {:induction false} ShiftsZero(k: Code, n: nat)
    ensures Shifts(k, 0, n) == 0
  {
    hide Shift;
    Zeroes(k);
    if n > 0 {
      ShiftsZero(k, n - 1);
    }
  }

  /** Two bytes, not both zero, cannot bring a zero register back to zero. */
  lemma TwoBytes(k: Code, x: byte, y: byte)
    requires Feed(k, Feed(k, 0, x), y) == 0
    ensures x == 0 && y == 0
  {
    hide Plus, Inject, Shift, Shifts, Spread;
    ShiftsZero(k, 8);
    ShiftsInjective(k, Plus(Feed(k, 0, x), Inject(k, y)), 0, 8);
    PlusLaws(Feed(k, 0, x), Inject(k, y), 0, 0);
    SpreadShifts(k, y);
    PlusLaws(0, Inject(k, x), 0, 0);
    PlusLaws(Inject(k, x), 0, 0, 0);
    ShiftsInjective(k, Inject(k, x), Spread(k, y), 8);
    SpreadApart(k, x, y);
  }

  /** From equal registers, two pairs of bytes lead to equal registers only if they are equal. */
  lemma PairInjective(k: Code, c: Register, x: byte, y: byte, x': byte, y': byte)
    requires Feed(k, Feed(k, c, x), y) == Feed(k, Feed(k, c, x'), y')
    ensures x == x' && y == y'
  {
    hide Feed;
    FeedLinear(k, c, c, x, x');
    FeedLinear(k, Feed(k, c, x), Feed(k, c, x'), y, y');
    PlusLaws(c, c, 0, 0);
    PlusLaws(Feed(k, Feed(k, c, x), y), Feed(k, Feed(k, c, x'), y'), 0, 0);
    TwoBytes(k, x ^ x', y ^ y');
    XorZero(x, x');
    XorZero(y, y');
  }

  lemma XorZero(x: byte, y: byte)
    ensures x ^ y == 0 <==> x == y
  {
  }

  /** The two messages agree outside positions i and i + 1. */
  ghost predicate BurstAt(s: seq<byte>, t: seq<byte>, i: nat) {
    && |s| == |t| && i + 2 <= |s|
    && s[..i] == t[..i] && s[i + 2..] == t[i + 2..]
  }

  /** Every change confined to two neighbouring bytes changes the check. */
  lemma BurstDetected(k: Code, s: seq<byte>, t: seq<byte>, i: nat)
    requires BurstAt(s, t, i) && s != t
    ensures Crc(k, s) != Crc(k, t)
  {
    hide Feed;
    var c := Run(k, 0xFFFF, s[..i]);
    Split(k, s, i);
    Split(k, t, i);
    if Crc(k, s) == Crc(k, t) {
      RunInjective(k, Feed(k, Feed(k, c, s[i]), s[i + 1]), Feed(k, Feed(k, c, t[i]), t[i + 1]), s[i + 2..]);
      PairInjective(k, c, s[i], s[i + 1], t[i], t[i + 1]);
      SameParts(s, t, i);
    }
  }

  lemma SameParts(s: seq<byte>, t: seq<byte>, i: nat)
    requires BurstAt(s, t, i) && s[i] == t[i] && s[i + 1] == t[i + 1]
    ensures s == t
  {
    assert s == s[..i] + [s[i], s[i + 1]] + s[i + 2..];
    assert t == t[..i] + [t[i], t[i + 1]] + t[i + 2..];
  }

  lemma Split(k: Code, s: seq<byte>, i: nat)
    requires i + 2 <= |s|
    ensures Crc(k, s) == Run(k, Feed(k, Feed(k, Run(k, 0xFFFF, s[..i]), s[i]), s[i + 1]), s[i + 2..])
  {
    hide Feed;
    RunAppend(k, 0xFFFF, s[..i], s[i..]);
    assert s == s[..i] + s[i..];
    var c := Run(k, 0xFFFF, s[..i]);
    RunAppend(k, c, [s[i], s[i + 1]], s[i + 2..]);
    assert s[i..] == [s[i], s[i + 1]] + s[i + 2..];
    assert [s[i], s[i + 1]][..1] == [s[i]] && [s[i]][..0] == [];
    assert Run(k, c, [s[i]]) == Feed(k, c, s[i]);
    assert Run(k, c, [s[i], s[i + 1]]) == Feed(k, Run(k, c, [s[i]]), s[i + 1]);
  }

  // ---------------------------------------------------------------- the loops

  lemma RunNext(k: Code, s: seq<byte>, i: nat)
    requires i < |s|
    ensures Run(k, 0xFFFF, s[..i + 1]) == Shifts(k, Plus(Run(k, 0xFFFF, s[..i]), Inject(k, s[i])), 8)
  {
    assert s[..i + 1][..i] == s[..i];
  }

  method ShiftRightStep(c: Register) returns (r: Register)
    ensures r == ShiftRight(c)
  {
    if c & 1 != 0 {
      r := (c >> 1) ^ 0xA001;
    } else {
      r := c >> 1;
    }
  }

  method ShiftLeftStep(c: Register) returns (r: Register)
    ensures r == ShiftLeft(c)
  {
    if c & 0x8000 != 0 {
      r := (c << 1) ^ 0x1021;
    } else {
      r := c << 1;
    }
  }

  /** rs485_crc16 */
  method ModbusCrc(data: seq<byte>) returns (crc: Register)
    ensures crc == Crc(Modbus, data)
  {
    hide Run, Plus, Low, High, ShiftRight, ShiftLeft;
    crc := 0xFFFF;
    NothingRun(Modbus);
    assert data[..0] == [];
    for i := 0 to |data|
      invariant crc == Run(Modbus, 0xFFFF, data[..i])
    {
      RunNext(Modbus, data, i);
      crc := Plus(crc, Low(data[i]));
      ghost var start := crc;
      for j := 0 to 8
        invariant crc == Shifts(Modbus, start, j)
      {
        crc := ShiftRightStep(crc);
      }
    }
    assert data[..|data|] == data;
  }

  /** lora_crc16 */
  method CcittCrc(data: seq<byte>) returns (crc: Register)
    ensures crc == Crc(Ccitt, data)
  {
    hide Run, Plus, Low, High, ShiftRight, ShiftLeft;
    crc := 0xFFFF;
    NothingRun(Ccitt);
    assert data[..0] == [];
    for i := 0 to |data|
      invariant crc == Run(Ccitt, 0xFFFF, data[..i])
    {
      RunNext(Ccitt, data, i);
      crc := Plus(crc, High(data[i]));
      ghost var start := crc;
      for j := 0 to 8
        invariant crc == Shifts(Ccitt, start, j)
      {
        crc := ShiftLeftStep(crc);
      }
    }
    assert data[..|data|] == data;
  }

  lemma NothingRun(k: Code)
    ensures Run(k, 0xFFFF, []) == 0xFFFF
  {
  }
}
