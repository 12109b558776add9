/**
 The byte-oriented modes CFB128, CFB8, OFB and CTR.  Each is a machine that takes one byte at a time
 and carries its state between calls; the loops are proved to run the machine, and the machine is
 proved to compute the mode of sections 6.3 to 6.5 of NIST SP 800-38A.
 */
module StreamModes {
  import opened Bytes
  import opened GaloisField
  import opened Counter
  import opened CbcMode

  const BAD_INPUT_DATA := -0x0021

  type Offset = n: nat | n < 16

  /** The shift register and the number of its bytes in use. */
  datatype Shift = Shift(iv: Block, n: Offset)

  datatype CtrState = CtrState(counter: Block, stream: Block, n: Offset)

  // ---------------------------------------------------------------- machines over bytes

  type Step<!S> = (S, byte) -> (S, byte)

  /** The state reached and the bytes put out. */
  function Run<S>(step: Step<S>, s: S, input: seq<byte>): (r: (S, seq<byte>))
    ensures |r.1| == |input|
  {
    if input == [] then (s, [])
    else
      var (t, out) := Run(step, s, input[..|input| - 1]);
      var (u, b) := step(t, input[|input| - 1]);
      (u, out + [b])
  }

  lemma RunNothing<S>(step: Step<S>, s: S)
    ensures Run(step, s, []) == (s, [])
  {
  }

  lemma RunNext<S>(step: Step<S>, s: S, input: seq<byte>, i: nat)
    requires i < |input|
    ensures var (t, out) := Run(step, s, input[..i]);
            var (u, b) := step(t, input[i]);
            Run(step, s, input[..i + 1]) == (u, out + [b])
  {
    assert input[..i + 1][..i] == input[..i];
  }

  /** Any split of the input, with the state carried across, gives the same bytes and the same state. */
  lemma {:induction false} ChunkIndependence<S>(step: Step<S>, s: S, a: seq<byte>, b: seq<byte>)
    ensures var (t, out) := Run(step, s, a);
            var (u, out') := Run(step, t, b);
            Run(step, s, a + b) == (u, out + out')
    decreases |b|
  {
    if b == [] {
      assert a + b == a && Run(step, s, a).1 + [] == Run(step, s, a).1;
    } else {
      ChunkIndependence(step, s, a, b[..|b| - 1]);
      assert (a + b)[..|a + b| - 1] == a + b[..|b| - 1];
      var (t, out) := Run(step, s, a);
      var (u, more) := Run(step, t, b[..|b| - 1]);
      var (v, last) := step(u, b[|b| - 1]);
      assert Run(step, t, b) == (v, more + [last]);
      assert out + (more + [last]) == (out + more) + [last];
    }
  }

  /** Each byte put out is the step's, from the state reached before it. */
  lemma {:induction false} RunAt<S>(step: Step<S>, s: S, input: seq<byte>, i: nat)
    requires i < |input|
    ensures Run(step, s, input).1[i] == step(Run(step, s, input[..i]).0, input[i]).1
    ensures Run(step, s, input[..i]).1 == Run(step, s, input).1[..i]
    decreases |input|
  {
    var n := |input| - 1;
    RunNext(step, s, input, n);
    assert input[..n + 1] == input;
    if i < n {
      RunAt(step, s, input[..n], i);
      assert input[..n][..i] == input[..i];
    }
  }

  /** A machine that undoes another byte by byte, in the same state, undoes it on every input. */
  lemma {:induction false} RunInverse<S(!new)>(enc: Step<S>, dec: Step<S>, s: S, input: seq<byte>)
    requires forall t, x :: dec(t, enc(t, x).1) == (enc(t, x).0, x)
    ensures Run(dec, s, Run(enc, s, input).1) == (Run(enc, s, input).0, input)
    decreases |input|
  {
    if input != [] {
      var n := |input| - 1;
      RunInverse(enc, dec, s, input[..n]);
      var out := Run(enc, s, input).1;
      assert out[..n] == Run(enc, s, input[..n]).1;
      assert input == input[..n] + [input[n]];
    }
  }

  // ---------------------------------------------------------------- the four machines

  function Refilled(E: BlockFn, s: Shift): Block {
    if s.n == 0 then E(s.iv) else s.iv
  }

  function NextOffset(n: Offset): Offset {
    (n + 1) % 16
  }

  function OfbStep(E: BlockFn): Step<Shift> {
    (s: Shift, x: byte) =>
      var iv := Refilled(E, s);
      (Shift(iv, NextOffset(s.n)), Add(x, iv[s.n]))
  }

  function Put(iv: Block, n: Offset, b: byte): Block {
    iv[n := b]
  }

  /** The register takes up the ciphertext byte: the output when encrypting, the input when decrypting. */
  function CfbStep(E: BlockFn, decrypting: bool): Step<Shift> {
    (s: Shift, x: byte) =>
      var iv := Refilled(E, s);
      var y := Add(x, iv[s.n]);
      (Shift(Put(iv, s.n, if decrypting then x else y), NextOffset(s.n)), y)
  }

  function ShiftIn(iv: Block, c: byte): Block {
    iv[1..] + [c]
  }

  function Cfb8Step(E: BlockFn, decrypting: bool): Step<Block> {
    (iv: Block, x: byte) =>
      var y := Add(x, E(iv)[0]);
      (ShiftIn(iv, if decrypting then x else y), y)
  }

  function CtrStep(E: BlockFn): Step<CtrState> {
    (s: CtrState, x: byte) =>
      var stream := if s.n == 0 then E(s.counter) else s.stream;
      var counter: Block := if s.n == 0 then Increment(s.counter) else s.counter;
      (CtrState(counter, stream, NextOffset(s.n)), Add(x, stream[s.n]))
  }

  lemma AddTwice(x: byte, k: byte)
    ensures Add(Add(x, k), k) == x
  {
  }

  lemma OfbInverse(E: BlockFn, s: Shift, input: seq<byte>)
    ensures Run(OfbStep(E), s, Run(OfbStep(E), s, input).1) == (Run(OfbStep(E), s, input).0, input)
  {
    hide Add;
    forall t, x ensures OfbStep(E)(t, OfbStep(E)(t, x).1) == (OfbStep(E)(t, x).0, x) {
      AddTwice(x, Refilled(E, t)[t.n]);
    }
    RunInverse(OfbStep(E), OfbStep(E), s, input);
  }

  lemma CtrInverse(E: BlockFn, s: CtrState, input: seq<byte>)
    ensures Run(CtrStep(E), s, Run(CtrStep(E), s, input).1) == (Run(CtrStep(E), s, input).0, input)
  {
    hide Add, Increment;
    forall t, x ensures CtrStep(E)(t, CtrStep(E)(t, x).1) == (CtrStep(E)(t, x).0, x) {
      AddTwice(x, (if t.n == 0 then E(t.counter) else t.stream)[t.n]);
    }
    RunInverse(CtrStep(E), CtrStep(E), s, input);
  }

  lemma CfbInverse(E: BlockFn, s: Shift, input: seq<byte>)
    ensures Run(CfbStep(E, true), s, Run(CfbStep(E, false), s, input).1) == (Run(CfbStep(E, false), s, input).0, input)
  {
    hide Add;
    forall t, x ensures CfbStep(E, true)(t, CfbStep(E, false)(t, x).1) == (CfbStep(E, false)(t, x).0, x) {
      AddTwice(x, Refilled(E, t)[t.n]);
    }
    RunInverse(CfbStep(E, false), CfbStep(E, true), s, input);
  }

  lemma Cfb8Inverse(E: BlockFn, iv: Block, input: seq<byte>)
    ensures Run(Cfb8Step(E, true), iv, Run(Cfb8Step(E, false), iv, input).1) == (Run(Cfb8Step(E, false), iv, input).0, input)
  {
    hide Add;
    forall t, x ensures Cfb8Step(E, true)(t, Cfb8Step(E, false)(t, x).1) == (Cfb8Step(E, false)(t, x).0, x) {
      AddTwice(x, E(t)[0]);
    }
    RunInverse(Cfb8Step(E, false), Cfb8Step(E, true), iv, input);
  }

  // ---------------------------------------------------------------- NIST SP 800-38A

  /** Output block j of OFB (section 6.4): the initial value encrypted j times over. */
  function OfbBlock(E: BlockFn, iv: Block, j: nat): Block {
    if j == 0 then iv else E(OfbBlock(E, iv, j - 1))
  }

  /** The number of blocks that k bytes use up. */
  function Used(k: nat): nat {
    (k + 15) / 16
  }

  lemma UsedNext(k: nat)
    ensures (k + 1) % 16 == NextOffset(k % 16)
    ensures if k % 16 == 0 then Used(k) == k / 16 && Used(k + 1) == k / 16 + 1 else Used(k) == Used(k + 1) == k / 16 + 1
  {
  }

  lemma {:induction false} OfbState(E: BlockFn, iv: Block, p: seq<byte>)
    ensures var s := Run(OfbStep(E), Shift(iv, 0), p).0; s.iv == OfbBlock(E, iv, Used(|p|)) && s.n == |p| % 16
    decreases |p|
  {
    hide Add, Used, NextOffset, Run;
    UsedZero();
    if p == [] {
      RunNothing(OfbStep(E), Shift(iv, 0));
    } else {
      var n := |p| - 1;
      OfbState(E, iv, p[..n]);
      OfbNext(E, iv, n / 16);
      RunNext(OfbStep(E), Shift(iv, 0), p, n);
      assert p[..n + 1] == p;
      UsedNext(n);
      var s := Run(OfbStep(E), Shift(iv, 0), p[..n]).0;
      assert OfbStep(E)(s, p[n]).0.iv == Refilled(E, s);
    }
  }

  lemma UsedZero()
    ensures Used(0) == 0
  {
  }

  lemma OfbNext(E: BlockFn, iv: Block, j: nat)
    ensures OfbBlock(E, iv, j + 1) == E(OfbBlock(E, iv, j))
  {
  }

  /** Every byte is combined with its place in the output stream. */
  lemma OfbReference(E: BlockFn, iv: Block, p: seq<byte>, i: nat)
    requires i < |p|
    ensures Run(OfbStep(E), Shift(iv, 0), p).1[i] == Add(p[i], OfbBlock(E, iv, i / 16 + 1)[i % 16])
  {
    hide Add, Used, NextOffset, Run;
    RunAt(OfbStep(E), Shift(iv, 0), p, i);
    OfbState(E, iv, p[..i]);
    OfbNext(E, iv, i / 16);
    UsedNext(i);
    var s := Run(OfbStep(E), Shift(iv, 0), p[..i]).0;
    assert OfbStep(E)(s, p[i]).1 == Add(p[i], Refilled(E, s)[s.n]);
  }

  lemma {:induction false} CtrRun(E: BlockFn, s: CtrState, p: seq<byte>)
    requires s.n == 0
    ensures var t := Run(CtrStep(E), s, p).0;
            && t.counter == AddTo(s.counter, Used(|p|)) && t.n == |p| % 16
            && (t.n != 0 ==> t.stream == E(AddTo(s.counter, |p| / 16)))
    decreases |p|
  {
    hide Add, Used, NextOffset, Run, Increment;
    UsedZero();
    if p == [] {
      RunNothing(CtrStep(E), s);
    } else {
      var n := |p| - 1;
      CtrRun(E, s, p[..n]);
      RunNext(CtrStep(E), s, p, n);
      assert p[..n + 1] == p;
      UsedNext(n);
    }
  }

  /** Output block j of CTR (section 6.5) is the encryption of the counter plus j. */
  lemma CtrReference(E: BlockFn, s: CtrState, p: seq<byte>, i: nat)
    requires s.n == 0 && i < |p|
    ensures Run(CtrStep(E), s, p).1[i] == Add(p[i], E(AddTo(s.counter, i / 16))[i % 16])
  {
    hide Add, Used, NextOffset, Run, Increment;
    RunAt(CtrStep(E), s, p, i);
    CtrRun(E, s, p[..i]);
    UsedNext(i);
  }

  /** No counter block is used twice within 2^128 blocks. */
  lemma CtrCountersDistinct(s: CtrState, i: nat, j: nat)
    requires i < j < i + Pow256(16)
    ensures AddTo(s.counter, i) != AddTo(s.counter, j)
  {
    CountersDistinct(s.counter, i, j);
  }

  /** The ciphertext block before block j, or the initial value. */
  function Previous(iv: Block, c: seq<byte>, j: nat): Block
    requires 16 * j <= |c|
  {
    if j == 0 then iv else c[16 * j - 16..16 * j]
  }

  /** What the register holds once c has been put out. */
  function Register(E: BlockFn, iv: Block, c: seq<byte>): Shift {
    var j, n := |c| / 16, |c| % 16;
    if n == 0 then Shift(Previous(iv, c, j), 0)
    else Shift(c[16 * j..] + E(Previous(iv, c, j))[n..], n)
  }

  lemma RegisterAt(E: BlockFn, iv: Block, c: seq<byte>, j: nat, n: nat)
    requires |c| == 16 * j + n && n < 16
    ensures |c| / 16 == j && |c| % 16 == n
    ensures Register(E, iv, c)
            == if n == 0 then Shift(Previous(iv, c, j), 0) else Shift(c[16 * j..] + E(Previous(iv, c, j))[n..], n)
  {
  }

  lemma RegisterNext(E: BlockFn, iv: Block, c: seq<byte>, y: byte)
    ensures var s := Register(E, iv, c);
            && Refilled(E, s)[s.n] == E(Previous(iv, c, |c| / 16))[|c| % 16]
            && Register(E, iv, c + [y]) == Shift(Put(Refilled(E, s), s.n, y), NextOffset(s.n))
  {
    hide Register, Previous;
    var j, n := |c| / 16, |c| % 16;
    RegisterAt(E, iv, c, j, n);
    SamePrevious(iv, c, y, j);
    var before := E(Previous(iv, c, j));
    var filled: Block := c[16 * j..] + before[n..];
    assert Refilled(E, Register(E, iv, c)) == filled;
    assert filled[n := y] == (c + [y])[16 * j..] + before[n + 1..];
    if n == 15 {
      RegisterAt(E, iv, c + [y], j + 1, 0);
      LastBlockIs(iv, c + [y], j);
    } else {
      RegisterAt(E, iv, c + [y], j, n + 1);
    }
  }

  lemma SamePrevious(iv: Block, c: seq<byte>, y: byte, j: nat)
    requires 16 * j <= |c|
    ensures Previous(iv, c + [y], j) == Previous(iv, c, j)
  {
  }

  lemma LastBlockIs(iv: Block, c: seq<byte>, j: nat)
    requires |c| == 16 * j + 16
    ensures Previous(iv, c, j + 1) == c[16 * j..]
  {
  }

  lemma {:induction false} CfbState(E: BlockFn, iv: Block, p: seq<byte>)
    ensures var (s, c) := Run(CfbStep(E, false), Shift(iv, 0), p); s == Register(E, iv, c)
    decreases |p|
  {
    hide Add, NextOffset, Run, Register, Previous, Refilled, Put;
    RegisterStart(E, iv);
    if p == [] {
      RunNothing(CfbStep(E, false), Shift(iv, 0));
    } else {
      var n := |p| - 1;
      CfbState(E, iv, p[..n]);
      RunNext(CfbStep(E, false), Shift(iv, 0), p, n);
      assert p[..n + 1] == p;
      var (s, c) := Run(CfbStep(E, false), Shift(iv, 0), p[..n]);
      RegisterNext(E, iv, c, CfbStep(E, false)(s, p[n]).1);
    }
  }

  lemma RegisterStart(E: BlockFn, iv: Block)
    ensures Register(E, iv, []) == Shift(iv, 0)
  {
  }

  /** Section 6.3 with 128-bit segments: each block of ciphertext is the plaintext plus the encrypted previous one. */
  lemma CfbReference(E: BlockFn, iv: Block, p: seq<byte>, i: nat)
    requires i < |p|
    ensures var c := Run(CfbStep(E, false), Shift(iv, 0), p).1;
            c[i] == Add(p[i], E(Previous(iv, c, i / 16))[i % 16])
  {
    hide Add, NextOffset, Run, Register, Refilled, Put;
    var c, d := Run(CfbStep(E, false), Shift(iv, 0), p).1, Run(CfbStep(E, false), Shift(iv, 0), p[..i]).1;
    RunAt(CfbStep(E, false), Shift(iv, 0), p, i);
    CfbState(E, iv, p[..i]);
    RegisterNext(E, iv, d, 0);
    assert d == c[..i];
    assert Previous(iv, c, i / 16) == Previous(iv, d, i / 16);
  }

  lemma {:induction false} Cfb8State(E: BlockFn, iv: Block, p: seq<byte>)
    ensures var (s, c) := Run(Cfb8Step(E, false), iv, p); s == (iv + c)[|c|..]
    decreases |p|
  {
    hide Add, Run;
    if p == [] {
      RunNothing(Cfb8Step(E, false), iv);
      assert iv + [] == iv;
    } else {
      var n := |p| - 1;
      Cfb8State(E, iv, p[..n]);
      RunNext(Cfb8Step(E, false), iv, p, n);
      assert p[..n + 1] == p;
      var (s, c) := Run(Cfb8Step(E, false), iv, p[..n]);
      ShiftNext(iv, c, Cfb8Step(E, false)(s, p[n]).1);
    }
  }

  lemma ShiftNext(iv: Block, c: seq<byte>, y: byte)
    ensures ShiftIn((iv + c)[|c|..], y) == (iv + (c + [y]))[|c| + 1..]
  {
  }

  /** Section 6.3 with 8-bit segments: the register is the last 16 bytes of initial value and ciphertext. */
  lemma Cfb8Reference(E: BlockFn, iv: Block, p: seq<byte>, i: nat)
    requires i < |p|
    ensures var c := Run(Cfb8Step(E, false), iv, p).1;
            c[i] == Add(p[i], E((iv + c)[i..i + 16])[0])
  {
    hide Add, Run;
    var c, d := Run(Cfb8Step(E, false), iv, p).1, Run(Cfb8Step(E, false), iv, p[..i]).1;
    RunAt(Cfb8Step(E, false), iv, p, i);
    Cfb8State(E, iv, p[..i]);
    assert d == c[..i];
    assert (iv + c)[i..i + 16] == (iv + d)[i..];
  }

  // ---------------------------------------------------------------- the buffer loops

  /** output[i] = b, seen as appending to the part written. */
  method Emit(output: array<byte>, i: nat, b: byte, ghost out: seq<byte>, ghost out0: seq<byte>)
    requires i < output.Length == |out0| && |out| == i && output[..] == out + out0[i..]
    modifies output
    ensures output[..] == (out + [b]) + out0[i + 1..]
  {
    output[i] := b;
  }

  /** if (n == 0) crypt_ecb(iv, iv) */
  method Refill(E: BlockFn, iv: array<byte>, n: Offset)
    requires iv.Length == 16
    modifies iv
    ensures iv[..] == Refilled(E, Shift(old(iv[..]), n))
  {
    if n == 0 {
      CopyInto(iv, 0, E(iv[..]));
    }
  }

  /** mbedtls_aes_crypt_ofb */
  method CryptOfb(E: BlockFn, ivOff: nat, iv: array<byte>, input: seq<byte>, output: array<byte>)
    returns (ret: int, off: nat)
    requires iv.Length == 16 && iv != output && |input| <= output.Length
    modifies iv, output
    ensures ivOff > 15 ==> ret == BAD_INPUT_DATA && off == ivOff && unchanged(iv) && unchanged(output)
    ensures ivOff <= 15 ==>
      && ret == 0 && off <= 15
      && var (s, out) := Run(OfbStep(E), Shift(old(iv[..]), ivOff), input);
      && s == Shift(iv[..], off) && output[..] == out + old(output[|input|..])
  {
    hide Run, Add, Refilled;
    if ivOff > 15 {
      return BAD_INPUT_DATA, ivOff;
    }
    var n: Offset := ivOff;
    ghost var out0, s0 := output[..], Shift(iv[..], n);
    RunNothing(OfbStep(E), s0);
    ghost var out: seq<byte> := [];
    assert input[..0] == [] && output[..] == out + out0[0..];
    for i := 0 to |input|
      invariant |out| == i
      invariant Run(OfbStep(E), s0, input[..i]) == (Shift(iv[..], n), out)
      invariant output[..] == out + out0[i..]
    {
      RunNext(OfbStep(E), s0, input, i);
      Refill(E, iv, n);
      var b := Add(input[i], iv[n]);
      Emit(output, i, b, out, out0);
      out := out + [b];
      n := (n + 1) % 16;
    }
    assert input[..|input|] == input;
    return 0, n;
  }

  /** mbedtls_aes_crypt_cfb128 */
  method CryptCfb128(E: BlockFn, decrypting: bool, ivOff: nat, iv: array<byte>, input: seq<byte>, output: array<byte>)
    returns (ret: int, off: nat)
    requires iv.Length == 16 && iv != output && |input| <= output.Length
    modifies iv, output
    ensures ivOff > 15 ==> ret == BAD_INPUT_DATA && off == ivOff && unchanged(iv) && unchanged(output)
    ensures ivOff <= 15 ==>
      && ret == 0 && off <= 15
      && var (s, out) := Run(CfbStep(E, decrypting), Shift(old(iv[..]), ivOff), input);
      && s == Shift(iv[..], off) && output[..] == out + old(output[|input|..])
  {
    hide Run, Add, Refilled;
    if ivOff > 15 {
      return BAD_INPUT_DATA, ivOff;
    }
    var n: Offset := ivOff;
    ghost var out0, s0 := output[..], Shift(iv[..], n);
    RunNothing(CfbStep(E, decrypting), s0);
    ghost var out: seq<byte> := [];
    assert input[..0] == [] && output[..] == out + out0[0..];
    for i := 0 to |input|
      invariant |out| == i
      invariant Run(CfbStep(E, decrypting), s0, input[..i]) == (Shift(iv[..], n), out)
      invariant output[..] == out + out0[i..]
    {
      RunNext(CfbStep(E, decrypting), s0, input, i);
      Refill(E, iv, n);
      var b := Add(input[i], iv[n]);
      Emit(output, i, b, out, out0);
      iv[n] := if decrypting then input[i] else b;
      out := out + [b];
      n := (n + 1) % 16;
    }
    assert input[..|input|] == input;
    return 0, n;
  }

  /** mbedtls_aes_crypt_cfb8 */
  method CryptCfb8(E: BlockFn, decrypting: bool, iv: array<byte>, input: seq<byte>, output: array<byte>)
    returns (ret: int)
    requires iv.Length == 16 && iv != output && |input| <= output.Length
    modifies iv, output
    ensures ret == 0
    ensures var (s, out) := Run<Block>(Cfb8Step(E, decrypting), old(iv[..]), input);
            s == iv[..] && output[..] == out + old(output[|input|..])
  {
    hide Run, Add, Splice;
    ghost var out0, iv0: Block := output[..], iv[..];
    RunNothing(Cfb8Step(E, decrypting), iv0);
    ghost var out: seq<byte> := [];
    assert input[..0] == [] && output[..] == out + out0[0..];
    for i := 0 to |input|
      invariant |out| == i
      invariant Run(Cfb8Step(E, decrypting), iv0, input[..i]) == (iv[..], out)
      invariant output[..] == out + out0[i..]
    {
      RunNext(Cfb8Step(E, decrypting), iv0, input, i);
      var ov := iv[..];
      ghost var was: Block := ov;
      CopyInto(iv, 0, E(iv[..]));
      SpliceBlock(ov, E(ov));
      var b := Add(input[i], iv[0]);
      Emit(output, i, b, out, out0);
      ov := ov + [if decrypting then input[i] else b];
      SpliceBlock(iv[..], ov[1..]);
      CopyInto(iv, 0, ov[1..]);
      assert ov[1..] == ShiftIn(was, if decrypting then input[i] else b);
      out := out + [b];
    }
    assert input[..|input|] == input;
    return 0;
  }

  /** mbedtls_aes_crypt_ctr */
  method CryptCtr(E: BlockFn, ncOff: nat, nonceCounter: array<byte>, streamBlock: array<byte>, input: seq<byte>, output: array<byte>)
    returns (ret: int, off: nat)
    requires nonceCounter.Length == 16 == streamBlock.Length && |input| <= output.Length
    requires nonceCounter != streamBlock && nonceCounter != output && streamBlock != output
    modifies nonceCounter, streamBlock, output
    ensures ncOff > 15 ==>
      ret == BAD_INPUT_DATA && off == ncOff && unchanged(nonceCounter) && unchanged(streamBlock) && unchanged(output)
    ensures ncOff <= 15 ==>
      && ret == 0 && off <= 15
      && var (s, out) := Run(CtrStep(E), CtrState(old(nonceCounter[..]), old(streamBlock[..]), ncOff), input);
      && s == CtrState(nonceCounter[..], streamBlock[..], off) && output[..] == out + old(output[|input|..])
  {
    hide Run, Add, Increment, Splice;
    if ncOff > 15 {
      return BAD_INPUT_DATA, ncOff;
    }
    var n: Offset := ncOff;
    ghost var out0, s0 := output[..], CtrState(nonceCounter[..], streamBlock[..], n);
    RunNothing(CtrStep(E), s0);
    ghost var out: seq<byte> := [];
    assert input[..0] == [] && output[..] == out + out0[0..];
    for i := 0 to |input|
      invariant |out| == i
      invariant Run(CtrStep(E), s0, input[..i]) == (CtrState(nonceCounter[..], streamBlock[..], n), out)
      invariant output[..] == out + out0[i..]
    {
      RunNext(CtrStep(E), s0, input, i);
      ghost var s := CtrState(nonceCounter[..], streamBlock[..], n);
      if n == 0 {
        SpliceBlock(streamBlock[..], E(nonceCounter[..]));
        CopyInto(streamBlock, 0, E(nonceCounter[..]));
        NextCounter(nonceCounter);
      }
      var b := Add(input[i], streamBlock[n]);
      Emit(output, i, b, out, out0);
      out := out + [b];
      assert CtrStep(E)(s, input[i]) == (CtrState(nonceCounter[..], streamBlock[..], NextOffset(n)), b);
      n := (n + 1) % 16;
    }
    assert input[..|input|] == input;
    return 0, n;
  }

  method NextCounter(counter: array<byte>)
    modifies counter
    ensures counter[..] == Increment(old(counter[..]))
  {
    hide Increment;
    IncrementFrom(counter, 0);
    assert counter[0..] == counter[..];
  }
}
