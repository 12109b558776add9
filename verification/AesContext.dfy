/**
 The AES context: round keys written into a word buffer by the key-schedule loops, and the
 table-driven block functions, each proved against the cipher of AesCipher.
 */
module AesContext {
  import opened Arith
  import opened Bytes
  import opened GaloisField
  import opened AesColumns
  import opened AesCipher
  import opened AesTables

  const INVALID_KEY_LENGTH := -0x0020

  // ---------------------------------------------------------------- table lookups

  lemma Lookup(t: Tables, x: byte)
    requires t.Correct()
    ensures t.Row(Index(x), x)
  {
    IndexRoundTrip(x);
    assert t.Row(Index(x), ToByte(Index(x)));
  }

  /** Four S-box lookups packed into a word. */
  function SubPacked(t: Tables, a: byte, b: byte, c: byte, d: byte): (w: word)
    requires t.Correct()
    ensures w == Pack(Sbox(a), Sbox(b), Sbox(c), Sbox(d))
  {
    Lookup(t, a); Lookup(t, b); Lookup(t, c); Lookup(t, d);
    hide Pack, Sbox, Index;
    Pack(t.fsb[Index(a)], t.fsb[Index(b)], t.fsb[Index(c)], t.fsb[Index(d)])
  }

  function InvSubPacked(t: Tables, a: byte, b: byte, c: byte, d: byte): (w: word)
    requires t.Correct()
    ensures w == Pack(InvSbox(a), InvSbox(b), InvSbox(c), InvSbox(d))
  {
    Lookup(t, a); Lookup(t, b); Lookup(t, c); Lookup(t, d);
    hide Pack, InvSbox, Index;
    Pack(t.rsb[Index(a)], t.rsb[Index(b)], t.rsb[Index(c)], t.rsb[Index(d)])
  }

  /** One word of a forward round: four table lookups substitute and mix a column. */
  function ForwardLookup(t: Tables, a: byte, b: byte, c: byte, d: byte): (w: word)
    requires t.Correct()
    ensures w == MixColumn(Pack(Sbox(a), Sbox(b), Sbox(c), Sbox(d)))
  {
    Lookup(t, a); Lookup(t, b); Lookup(t, c); Lookup(t, d);
    ForwardColumn(Sbox(a), Sbox(b), Sbox(c), Sbox(d));
    hide Pack, Sbox, Index, Xor4, MixColumn, ForwardWord, Rotl8;
    Xor4(t.ft0[Index(a)], t.ft1[Index(b)], t.ft2[Index(c)], t.ft3[Index(d)])
  }

  function ReverseLookup(t: Tables, a: byte, b: byte, c: byte, d: byte): (w: word)
    requires t.Correct()
    ensures w == InvMixColumn(Pack(InvSbox(a), InvSbox(b), InvSbox(c), InvSbox(d)))
  {
    Lookup(t, a); Lookup(t, b); Lookup(t, c); Lookup(t, d);
    ReverseColumn(InvSbox(a), InvSbox(b), InvSbox(c), InvSbox(d));
    hide Pack, InvSbox, Index, Xor4, InvMixColumn, ReverseWord, Rotl8;
    Xor4(t.rt0[Index(a)], t.rt1[Index(b)], t.rt2[Index(c)], t.rt3[Index(d)])
  }

  /** A word of a decryption schedule: RT lookups of S-box outputs leave InvMixColumns of the key word. */
  function InverseKeyWord(t: Tables, w: word): (r: word)
    requires t.Correct()
    ensures r == InvMixColumn(w)
  {
    Lookup(t, B0(w)); Lookup(t, B1(w)); Lookup(t, B2(w)); Lookup(t, B3(w));
    SboxInverse(B0(w)); SboxInverse(B1(w)); SboxInverse(B2(w)); SboxInverse(B3(w));
    PackOfBytes(w);
    hide Pack, Sbox, InvSbox, Index, InvMixColumn, ReverseLookup, B0, B1, B2, B3;
    ReverseLookup(t, t.fsb[Index(B0(w))], t.fsb[Index(B1(w))], t.fsb[Index(B2(w))], t.fsb[Index(B3(w))])
  }

  /** The word the key schedule writes at multiples of the key length. */
  function CoreWord(t: Tables, base: word, last: word, round: nat): (w: word)
    requires t.Correct() && round < 10
    ensures w == XorWord(base, XorWord(RotSubWord(last), RoundConstant(round)))
  {
    hide SubPacked, RoundConstant, Sbox, Pack, XorWord, B0, B1, B2, B3;
    XorWordAssociates(base, t.rcon[round], SubPacked(t, B1(last), B2(last), B3(last), B0(last)));
    XorWord(XorWord(base, t.rcon[round]), SubPacked(t, B1(last), B2(last), B3(last), B0(last)))
  }

  lemma XorWordAssociates(a: word, b: word, c: word)
    ensures XorWord(XorWord(a, b), c) == XorWord(a, XorWord(c, b))
    ensures XorWord(a, b) == XorWord(b, a)
  {
  }

  function SubWordByTable(t: Tables, w: word): (r: word)
    requires t.Correct()
    ensures r == SubWord(w)
  {
    hide SubPacked, Sbox, Pack, B0, B1, B2, B3;
    SubPacked(t, B0(w), B1(w), B2(w), B3(w))
  }

  // ---------------------------------------------------------------- rounds by table

  lemma ShiftSubWords(s: State)
    ensures ShiftRows(SubBytes(s)) == State(Pack(Sbox(B0(s.w0)), Sbox(B1(s.w1)), Sbox(B2(s.w2)), Sbox(B3(s.w3))),
                                            Pack(Sbox(B0(s.w1)), Sbox(B1(s.w2)), Sbox(B2(s.w3)), Sbox(B3(s.w0))),
                                            Pack(Sbox(B0(s.w2)), Sbox(B1(s.w3)), Sbox(B2(s.w0)), Sbox(B3(s.w1))),
                                            Pack(Sbox(B0(s.w3)), Sbox(B1(s.w0)), Sbox(B2(s.w1)), Sbox(B3(s.w2))))
    ensures InvShiftRows(InvSubBytes(s)) == State(Pack(InvSbox(B0(s.w0)), InvSbox(B1(s.w3)), InvSbox(B2(s.w2)), InvSbox(B3(s.w1))),
                                                  Pack(InvSbox(B0(s.w1)), InvSbox(B1(s.w0)), InvSbox(B2(s.w3)), InvSbox(B3(s.w2))),
                                                  Pack(InvSbox(B0(s.w2)), InvSbox(B1(s.w1)), InvSbox(B2(s.w0)), InvSbox(B3(s.w3))),
                                                  Pack(InvSbox(B0(s.w3)), InvSbox(B1(s.w2)), InvSbox(B2(s.w1)), InvSbox(B3(s.w0))))
  {
    hide Sbox, InvSbox, SubWord, InvSubWord, Pack, B0, B1, B2, B3;
    SubWordBytes(s.w0); SubWordBytes(s.w1); SubWordBytes(s.w2); SubWordBytes(s.w3);
  }

  lemma XorWordCommutes(s: State, k: State)
    ensures AddRoundKey(s, k) == AddRoundKey(k, s)
  {
    hide XorWord;
    XorWordAssociates(s.w0, k.w0, 0); XorWordAssociates(s.w1, k.w1, 0);
    XorWordAssociates(s.w2, k.w2, 0); XorWordAssociates(s.w3, k.w3, 0);
  }

  /** A forward round through the tables is a round of the cipher. */
  function ForwardRound(t: Tables, k: State, y: State): (x: State)
    requires t.Correct()
    ensures x == Round(y, k)
  {
    ShiftSubWords(y);
    XorWordCommutes(MixColumns(ShiftRows(SubBytes(y))), k);
    hide Sbox, Pack, B0, B1, B2, B3, ShiftRows, SubBytes, MixColumn, ForwardLookup, XorWord;
    AddRoundKey(k, State(ForwardLookup(t, B0(y.w0), B1(y.w1), B2(y.w2), B3(y.w3)),
                         ForwardLookup(t, B0(y.w1), B1(y.w2), B2(y.w3), B3(y.w0)),
                         ForwardLookup(t, B0(y.w2), B1(y.w3), B2(y.w0), B3(y.w1)),
                         ForwardLookup(t, B0(y.w3), B1(y.w0), B2(y.w1), B3(y.w2))))
  }

  function ForwardLastRound(t: Tables, k: State, y: State): (x: State)
    requires t.Correct()
    ensures x == LastRound(y, k)
  {
    ShiftSubWords(y);
    XorWordCommutes(ShiftRows(SubBytes(y)), k);
    hide Sbox, Pack, B0, B1, B2, B3, ShiftRows, SubBytes, SubPacked, XorWord;
    AddRoundKey(k, State(SubPacked(t, B0(y.w0), B1(y.w1), B2(y.w2), B3(y.w3)),
                         SubPacked(t, B0(y.w1), B1(y.w2), B2(y.w3), B3(y.w0)),
                         SubPacked(t, B0(y.w2), B1(y.w3), B2(y.w0), B3(y.w1)),
                         SubPacked(t, B0(y.w3), B1(y.w0), B2(y.w1), B3(y.w2))))
  }

  /** A reverse round through the tables is a round of the equivalent inverse cipher. */
  function ReverseRound(t: Tables, k: State, y: State): (x: State)
    requires t.Correct()
    ensures x == InvRound(y, k)
  {
    ShiftSubWords(y);
    XorWordCommutes(InvMixColumns(InvShiftRows(InvSubBytes(y))), k);
    hide InvSbox, Pack, B0, B1, B2, B3, InvShiftRows, InvSubBytes, InvMixColumn, ReverseLookup, XorWord;
    AddRoundKey(k, State(ReverseLookup(t, B0(y.w0), B1(y.w3), B2(y.w2), B3(y.w1)),
                         ReverseLookup(t, B0(y.w1), B1(y.w0), B2(y.w3), B3(y.w2)),
                         ReverseLookup(t, B0(y.w2), B1(y.w1), B2(y.w0), B3(y.w3)),
                         ReverseLookup(t, B0(y.w3), B1(y.w2), B2(y.w1), B3(y.w0))))
  }

  function ReverseLastRound(t: Tables, k: State, y: State): (x: State)
    requires t.Correct()
    ensures x == InvLastRound(y, k)
  {
    ShiftSubWords(y);
    XorWordCommutes(InvShiftRows(InvSubBytes(y)), k);
    hide InvSbox, Pack, B0, B1, B2, B3, InvShiftRows, InvSubBytes, InvSubPacked, XorWord;
    AddRoundKey(k, State(InvSubPacked(t, B0(y.w0), B1(y.w3), B2(y.w2), B3(y.w1)),
                         InvSubPacked(t, B0(y.w1), B1(y.w0), B2(y.w3), B3(y.w2)),
                         InvSubPacked(t, B0(y.w2), B1(y.w1), B2(y.w0), B3(y.w3)),
                         InvSubPacked(t, B0(y.w3), B1(y.w2), B2(y.w1), B3(y.w0))))
  }

  // ---------------------------------------------------------------- the context

  /** The expanded key as far as index n. */
  ghost predicate Expanded(buf: array<word>, key: seq<word>, n: nat)
    requires |key| == 4 || |key| == 6 || |key| == 8
    requires n <= buf.Length
    reads buf
  {
    forall j :: 0 <= j < n ==> buf[j] == ExpandedWord(key, j)
  }

  /** The word r places into the i-th repetition of the schedule. */
  lemma ScheduleWord(key: seq<word>, i: nat, r: nat)
    requires |key| == 4 || |key| == 6 || |key| == 8
    requires r < |key|
    ensures var n := |key| * (i + 1) + r;
            n >= |key| &&
            var base, last := ExpandedWord(key, n - |key|), ExpandedWord(key, n - 1);
            ExpandedWord(key, n) == if r == 0 then XorWord(base, XorWord(RotSubWord(last), RoundConstant(i)))
                                    else if |key| == 8 && r == 4 then XorWord(base, SubWord(last))
                                    else XorWord(base, last)
  {
    hide *;
    SchedulePlace(|key|, i, r);
    NextWord(key, |key| * (i + 1) + r);
  }

  lemma SchedulePlace(nk: nat, i: nat, r: nat)
    requires r < nk
    ensures var n := nk * (i + 1) + r; n >= nk && n / nk == i + 1 && n % nk == r
  {
    var n := nk * (i + 1) + r;
    assert n == (i + 1) * nk + r;
    DivModUnique(n, nk, i + 1, r);
  }

  /** Section 5.2 of FIPS 197, unfolded once. */
  lemma NextWord(key: seq<word>, n: nat)
    requires |key| == 4 || |key| == 6 || |key| == 8
    requires n >= |key|
    ensures var nk := |key|;
            var base, last := ExpandedWord(key, n - nk), ExpandedWord(key, n - 1);
            ExpandedWord(key, n) == if n % nk == 0 then XorWord(base, XorWord(RotSubWord(last), RoundConstant(n / nk - 1)))
                                    else if nk > 6 && n % nk == 4 then XorWord(base, SubWord(last))
                                    else XorWord(base, last)
  {
    hide XorWord, RotSubWord, RoundConstant, SubWord;
  }

  lemma BytesOf(w: word)
    ensures ByteAt(w, 0) == B0(w) && ByteAt(w, 1) == B1(w) && ByteAt(w, 2) == B2(w) && ByteAt(w, 3) == B3(w)
  {
  }

  lemma XorWordBytes(w: word, v: word)
    ensures B0(XorWord(w, v)) == Add(B0(w), B0(v)) && B1(XorWord(w, v)) == Add(B1(w), B1(v))
    ensures B2(XorWord(w, v)) == Add(B2(w), B2(v)) && B3(XorWord(w, v)) == Add(B3(w), B3(v))
  {
    hide Add, B0, B1, B2, B3;
    BytesOfXorAdd(w, v);
  }

  lemma XorBytes(w: word, v: word, j: nat)
    requires j < 4
    ensures ByteAt(XorWord(w, v), j) == Add(ByteAt(w, j), ByteAt(v, j))
  {
    hide Add, XorWord, B0, B1, B2, B3;
    XorWordBytes(w, v);
  }

  lemma ConstantBytes(i: nat, j: nat)
    requires j < 4
    ensures ByteAt(RoundConstant(i), j) == if j == 0 then Doubling(i) else 0
  {
    hide Doubling;
    OneByte(Doubling(i));
  }

  lemma OneByte(d: byte)
    ensures B0(d as word) == d && B1(d as word) == 0 == B2(d as word) && B3(d as word) == 0
  {
  }

  lemma SubWordByte(w: word, j: nat)
    requires j < 4
    ensures ByteAt(SubWord(w), j) == Sbox(ByteAt(w, j))
  {
    hide Sbox, SubWord, B0, B1, B2, B3;
    SubWordBytes(w);
  }

  lemma CoreByte(w: word, j: nat)
    requires j < 4
    ensures ByteAt(RotSubWord(w), j) == Sbox(ByteAt(w, (j + 1) % 4))
  {
    hide Sbox, Pack, B0, B1, B2, B3;
    BytesOfPack(Sbox(B1(w)), Sbox(B2(w)), Sbox(B3(w)), Sbox(B0(w)));
  }

  /** Section 5.2 of FIPS 197 on bytes: which byte of the word before goes where, through what, and what is added. */
  lemma NextWordByte(key: seq<word>, n: nat, j: nat)
    requires |key| == 4 || |key| == 6 || |key| == 8
    requires n >= |key| && j < 4
    ensures var nk := |key|;
            var base, last := ExpandedWord(key, n - nk), ExpandedWord(key, n - 1);
            ByteAt(ExpandedWord(key, n), j)
            == Add(ByteAt(base, j), if n % nk == 0 then Add(Sbox(ByteAt(last, (j + 1) % 4)), if j == 0 then Doubling(n / nk - 1) else 0)
                                    else if nk == 8 && n % nk == 4 then Sbox(ByteAt(last, j))
                                    else ByteAt(last, j))
  {
    hide ExpandedWord, Sbox, SubWord, RotSubWord, RoundConstant, XorWord, Add, Doubling, ByteAt;
    NextWord(key, n);
    var nk := |key|;
    var base, last := ExpandedWord(key, n - nk), ExpandedWord(key, n - 1);
    if n % nk == 0 {
      var rcon := RoundConstant(n / nk - 1);
      CoreByte(last, j);
      ConstantBytes(n / nk - 1, j);
      XorBytes(RotSubWord(last), rcon, j);
      XorBytes(base, XorWord(RotSubWord(last), rcon), j);
    } else if nk == 8 && n % nk == 4 {
      SubWordByte(last, j);
      XorBytes(base, SubWord(last), j);
    } else {
      XorBytes(base, last, j);
    }
  }

  lemma FirstWordByte(key: seq<byte>, m: nat, j: nat)
    requires KeyLength(|key|) && m < |key| / 4 && j < 4
    ensures |KeyWords(key)| == |key| / 4 && ByteAt(ExpandedWord(KeyWords(key), m), j) == key[4 * m + j]
  {
    hide Pack, B0, B1, B2, B3;
    var w := KeyWords(key);
    assert ExpandedWord(w, m) == w[m] == Pack(key[4 * m], key[4 * m + 1], key[4 * m + 2], key[4 * m + 3]);
    BytesOfPack(key[4 * m], key[4 * m + 1], key[4 * m + 2], key[4 * m + 3]);
    BytesOf(w[m]);
  }

  /** Byte j of word m of a buffer that SetKeyEnc has filled: the key to begin with. */
  lemma KeyByte(buf: array<word>, key: seq<byte>, n: nat, m: nat, j: nat)
    requires KeyLength(|key|) && n <= buf.Length && Expanded(buf, KeyWords(key), n)
    requires m < n && m < |key| / 4 && j < 4
    ensures ByteAt(buf[m], j) == key[4 * m + j]
  {
    hide ExpandedWord, KeyWords, ByteAt;
    FirstWordByte(key, m, j);
  }

  /**
   Then, from the words one and nk places before it: at every nk-th word the bytes move up by one, go
   through the S-box and take a round constant; for the longest keys they go through the S-box halfway.
   */
  lemma ScheduleByte(buf: array<word>, key: seq<byte>, n: nat, m: nat, j: nat)
    requires KeyLength(|key|) && n <= buf.Length && Expanded(buf, KeyWords(key), n)
    requires |key| / 4 <= m < n && j < 4
    ensures var nk := |key| / 4;
            var base, last := buf[m - nk], buf[m - 1];
            ByteAt(buf[m], j)
            == Add(ByteAt(base, j), if m % nk == 0 then Add(Sbox(ByteAt(last, (j + 1) % 4)), if j == 0 then Doubling(m / nk - 1) else 0)
                                    else if nk == 8 && m % nk == 4 then Sbox(ByteAt(last, j))
                                    else ByteAt(last, j))
  {
    hide ExpandedWord, KeyWords, Sbox, Doubling, ByteAt, Add;
    FirstWordByte(key, 0, j);
    NextWordByte(KeyWords(key), m, j);
  }

  /** The round constants: the first eight are the powers of two, the last two are reduced. */
  lemma RoundConstantBytes(i: nat)
    ensures i < 8 ==> Doubling(i) == 1 << (i as bv4)
    ensures Doubling(8) == 0x1B && Doubling(9) == 0x36
  {
    assert Doubling(0) == 1 && Doubling(1) == 2 && Doubling(2) == 4 && Doubling(3) == 8;
    assert Doubling(4) == 0x10 && Doubling(5) == 0x20 && Doubling(6) == 0x40 && Doubling(7) == 0x80;
  }

  /** Word m of the decryption schedule for nr rounds. */
  ghost function DecryptionWord(key: seq<word>, nr: nat, m: nat): word
    requires |key| == 4 || |key| == 6 || |key| == 8
    requires m < 4 * (nr + 1)
  {
    var w := ExpandedWord(key, 4 * (nr - m / 4) + m % 4);
    if m / 4 == 0 || m / 4 == nr then w else InvMixColumn(w)
  }

  ghost predicate DecryptionExpanded(buf: array<word>, key: seq<word>, nr: nat, n: nat)
    requires |key| == 4 || |key| == 6 || |key| == 8
    requires n <= buf.Length && n <= 4 * (nr + 1)
    reads buf
  {
    forall j :: 0 <= j < n ==> buf[j] == DecryptionWord(key, nr, j)
  }

  lemma DecryptionWordAt(key: seq<word>, nr: nat, i: nat, j: nat)
    requires |key| == 4 || |key| == 6 || |key| == 8
    requires i <= nr && j < 4
    ensures 4 * i + j < 4 * (nr + 1)
    ensures DecryptionWord(key, nr, 4 * i + j) == if i == 0 || i == nr then ExpandedWord(key, 4 * (nr - i) + j)
                                                  else InvMixColumn(ExpandedWord(key, 4 * (nr - i) + j))
  {
    hide ExpandedWord, InvMixColumn;
  }

  class Context {
    var nr: nat
    const buf: array<word>

    constructor ()
      ensures fresh(buf) && buf.Length == 68
    {
      nr := 0;
      buf := new word[68];
    }

    /** The key loaded into the front of the buffer as little-endian words. */
    method LoadKey(key: seq<byte>)
      requires KeyLength(|key|) && buf.Length == 68
      modifies buf
      ensures Expanded(buf, KeyWords(key), |KeyWords(key)|)
    {
      var words := KeyWords(key);
      hide Pack;
      for i := 0 to |key| / 4
        invariant forall j :: 0 <= j < i ==> buf[j] == words[j]
      {
        buf[i] := Pack(key[4 * i], key[4 * i + 1], key[4 * i + 2], key[4 * i + 3]);
      }
    }

    /** Reads a word already expanded. */
    function Word(ghost key: seq<word>, ghost n: nat, j: nat): (w: word)
      requires |key| == 4 || |key| == 6 || |key| == 8
      requires j < n <= buf.Length && Expanded(buf, key, n)
      reads buf
      ensures w == ExpandedWord(key, j)
    {
      buf[j]
    }

    method Append(ghost key: seq<word>, n: nat, w: word)
      requires |key| == 4 || |key| == 6 || |key| == 8
      requires n < buf.Length && Expanded(buf, key, n) && w == ExpandedWord(key, n)
      modifies buf
      ensures Expanded(buf, key, n + 1)
    {
      hide ExpandedWord;
      buf[n] := w;
    }

    /** RK[nk] = RK[0] ^ rcon[i] ^ the rotated and substituted RK[nk - 1]. */
    method WriteCore(t: Tables, ghost key: seq<word>, rk: nat, i: nat, nk: nat)
      requires t.Correct() && i < 10
      requires (|key| == 4 || |key| == 6 || |key| == 8) && nk == |key| && rk == nk * i
      requires rk + nk < buf.Length && Expanded(buf, key, rk + nk)
      modifies buf
      ensures Expanded(buf, key, rk + nk + 1)
    {
      hide *;
      ScheduleWord(key, i, 0);
      var w := CoreWord(t, Word(key, rk + nk, rk), Word(key, rk + nk, rk + nk - 1), i);
      Append(key, rk + nk, w);
    }

    /** RK[nk + r] = RK[r] ^ RK[nk + r - 1]. */
    method WriteXor(ghost key: seq<word>, rk: nat, ghost i: nat, r: nat, nk: nat)
      requires (|key| == 4 || |key| == 6 || |key| == 8) && nk == |key| && rk == nk * i
      requires 0 < r < nk && !(nk == 8 && r == 4)
      requires rk + nk + r < buf.Length && Expanded(buf, key, rk + nk + r)
      modifies buf
      ensures Expanded(buf, key, rk + nk + r + 1)
    {
      hide *;
      ScheduleWord(key, i, r);
      Append(key, rk + nk + r, XorWord(Word(key, rk + nk + r, rk + r), Word(key, rk + nk + r, rk + nk + r - 1)));
    }

    /** RK[12] = RK[4] ^ the substituted RK[11], for the longest keys. */
    method WriteSub(t: Tables, ghost key: seq<word>, rk: nat, ghost i: nat)
      requires t.Correct() && |key| == 8 && rk == 8 * i
      requires rk + 12 < buf.Length && Expanded(buf, key, rk + 12)
      modifies buf
      ensures Expanded(buf, key, rk + 13)
    {
      hide *;
      ScheduleWord(key, i, 4);
      Append(key, rk + 12, XorWord(Word(key, rk + 12, rk + 4), SubWordByTable(t, Word(key, rk + 12, rk + 11))));
    }

    method Expand128(t: Tables, ghost key: seq<word>)
      requires t.Correct() && |key| == 4 && buf.Length == 68 && Expanded(buf, key, 4)
      modifies buf
      ensures Expanded(buf, key, 44)
    {
      hide *;
      var rk := 0;
      for i := 0 to 10
        invariant rk == 4 * i
        invariant Expanded(buf, key, rk + 4)
      {
        WriteCore(t, key, rk, i, 4);
        WriteXor(key, rk, i, 1, 4);
        WriteXor(key, rk, i, 2, 4);
        WriteXor(key, rk, i, 3, 4);
        rk := rk + 4;
      }
    }

    method Expand192(t: Tables, ghost key: seq<word>)
      requires t.Correct() && |key| == 6 && buf.Length == 68 && Expanded(buf, key, 6)
      modifies buf
      ensures Expanded(buf, key, 54)
    {
      hide *;
      var rk := 0;
      for i := 0 to 8
        invariant rk == 6 * i
        invariant Expanded(buf, key, rk + 6)
      {
        WriteCore(t, key, rk, i, 6);
        WriteXor(key, rk, i, 1, 6);
        WriteXor(key, rk, i, 2, 6);
        WriteXor(key, rk, i, 3, 6);
        WriteXor(key, rk, i, 4, 6);
        WriteXor(key, rk, i, 5, 6);
        rk := rk + 6;
      }
    }

    method Expand256(t: Tables, ghost key: seq<word>)
      requires t.Correct() && |key| == 8 && buf.Length == 68 && Expanded(buf, key, 8)
      modifies buf
      ensures Expanded(buf, key, 64)
    {
      hide *;
      var rk := 0;
      for i := 0 to 7
        invariant rk == 8 * i
        invariant Expanded(buf, key, rk + 8)
      {
        WriteCore(t, key, rk, i, 8);
        WriteXor(key, rk, i, 1, 8);
        WriteXor(key, rk, i, 2, 8);
        WriteXor(key, rk, i, 3, 8);
        WriteSub(t, key, rk, i);
        WriteXor(key, rk, i, 5, 8);
        WriteXor(key, rk, i, 6, 8);
        WriteXor(key, rk, i, 7, 8);
        rk := rk + 8;
      }
    }

    /** The encryption schedule for a 128-, 192- or 256-bit key; any other length is refused. */
    method SetKeyEnc(t: Tables, key: seq<byte>) returns (ret: int)
      requires t.Correct() && buf.Length == 68
      modifies this, buf
      ensures ret == if KeyLength(|key|) then 0 else INVALID_KEY_LENGTH
      ensures ret == 0 <==> |key| == 16 || |key| == 24 || |key| == 32
      ensures KeyLength(|key|) ==> nr == RoundCount(key) == |key| / 4 + 6 && Expanded(buf, KeyWords(key), 4 * (nr + 1))
      ensures !KeyLength(|key|) ==> unchanged(this) && unchanged(buf)
    {
      match |key| {
        case 16 => nr := 10;
        case 24 => nr := 12;
        case 32 => nr := 14;
        case _ => return INVALID_KEY_LENGTH;
      }
      LoadKey(key);
      match nr {
        case 10 => Expand128(t, KeyWords(key));
        case 12 => Expand192(t, KeyWords(key));
        case _ => Expand256(t, KeyWords(key));
      }
      return 0;
    }

    /** The four words of round key nr - i, copied unchanged. */
    method CopyRoundKey(ghost key: seq<word>, from: array<word>, i: nat)
      requires (|key| == 4 || |key| == 6 || |key| == 8) && from != buf
      requires i == 0 || i == nr
      requires 4 * (nr + 1) <= buf.Length && 4 * (nr + 1) <= from.Length
      requires Expanded(from, key, 4 * (nr + 1)) && DecryptionExpanded(buf, key, nr, 4 * i)
      modifies buf
      ensures DecryptionExpanded(buf, key, nr, 4 * (i + 1))
    {
      hide ExpandedWord, DecryptionWord;
      var rk, sk := 4 * i, 4 * (nr - i);
      for j := 0 to 4
        invariant rk == 4 * i + j && sk == 4 * (nr - i) + j
        invariant DecryptionExpanded(buf, key, nr, 4 * i + j)
      {
        DecryptionWordAt(key, nr, i, j);
        buf[rk] := from[sk];
        rk, sk := rk + 1, sk + 1;
      }
    }

    /** The four words of round key nr - i, passed through the RT lookups. */
    method InvertRoundKey(t: Tables, ghost key: seq<word>, from: array<word>, i: nat)
      requires t.Correct() && (|key| == 4 || |key| == 6 || |key| == 8) && from != buf
      requires 0 < i < nr
      requires 4 * (nr + 1) <= buf.Length && 4 * (nr + 1) <= from.Length
      requires Expanded(from, key, 4 * (nr + 1)) && DecryptionExpanded(buf, key, nr, 4 * i)
      modifies buf
      ensures DecryptionExpanded(buf, key, nr, 4 * (i + 1))
    {
      hide ExpandedWord, DecryptionWord, InvMixColumn, InverseKeyWord;
      var rk, sk := 4 * i, 4 * (nr - i);
      for j := 0 to 4
        invariant rk == 4 * i + j && sk == 4 * (nr - i) + j
        invariant DecryptionExpanded(buf, key, nr, 4 * i + j)
      {
        DecryptionWordAt(key, nr, i, j);
        buf[rk] := InverseKeyWord(t, from[sk]);
        rk, sk := rk + 1, sk + 1;
      }
    }

    /** The decryption schedule: the encryption schedule reversed, its inner words inverse-mixed. */
    method SetKeyDec(t: Tables, key: seq<byte>) returns (ret: int)
      requires t.Correct() && buf.Length == 68
      modifies this, buf
      ensures ret == if KeyLength(|key|) then 0 else INVALID_KEY_LENGTH
      ensures KeyLength(|key|) ==> nr == RoundCount(key) && DecryptionExpanded(buf, KeyWords(key), nr, 4 * (nr + 1))
      ensures !KeyLength(|key|) ==> unchanged(this) && unchanged(buf)
    {
      var cty := new Context();
      ret := cty.SetKeyEnc(t, key);
      if ret != 0 {
        return;
      }
      nr := cty.nr;
      hide DecryptionWord, ExpandedWord;
      CopyRoundKey(KeyWords(key), cty.buf, 0);
      for i := 1 to nr
        invariant nr == RoundCount(key) && 1 <= i
        invariant Expanded(cty.buf, KeyWords(key), 4 * (nr + 1))
        invariant DecryptionExpanded(buf, KeyWords(key), nr, 4 * i)
      {
        InvertRoundKey(t, KeyWords(key), cty.buf, i);
      }
      CopyRoundKey(KeyWords(key), cty.buf, nr);
    }

    predicate Sized()
      reads this
    {
      (nr == 10 || nr == 12 || nr == 14) && buf.Length == 68
    }

    /** The buffer holds these round keys. */
    ghost predicate Holds(keys: seq<State>)
      reads this, buf
    {
      Sized() && |keys| == nr + 1 && buf.Length == 68 &&
      forall i :: 0 <= i <= nr ==> keys[i] == State(buf[4 * i], buf[4 * i + 1], buf[4 * i + 2], buf[4 * i + 3])
    }

    lemma SizeFacts(keys: seq<State>)
      requires Holds(keys)
      ensures |keys| == nr + 1 && nr >= 10 && nr % 2 == 0
    {
    }

    /** Round key i, as four words of the buffer. */
    function Key(ghost keys: seq<State>, i: nat): (k: State)
      requires Holds(keys) && i <= nr
      reads this, buf
      ensures i < |keys| && k == keys[i] && |keys| == nr + 1
    {
      State(buf[4 * i], buf[4 * i + 1], buf[4 * i + 2], buf[4 * i + 3])
    }

    /** mbedtls_internal_aes_encrypt: two table rounds per iteration, then one, then the last. */
    method EncryptBlock(t: Tables, ghost keys: seq<State>, input: Block) returns (output: Block)
      requires t.Correct() && Holds(keys)
      ensures output == StoreBlock(Cipher(keys, LoadBlock(input)))
    {
      hide *;
      SizeFacts(keys);
      ghost var s := LoadBlock(input);
      FirstRound(keys, s);
      var x := AddRoundKey(LoadBlock(input), Key(keys, 0));
      var rk := 1;
      for i := nr / 2 - 1 downto 0
        invariant rk == nr - 1 - 2 * i
        invariant x == Rounds(keys, s, rk - 1)
      {
        x := EncryptPair(t, keys, s, rk, x, Key(keys, rk), Key(keys, rk + 1));
        rk := rk + 2;
      }
      x := EncryptTail(t, keys, s, x, Key(keys, rk), Key(keys, rk + 1));
      output := StoreBlock(x);
    }

    /** mbedtls_internal_aes_decrypt, with the reverse tables. */
    method DecryptBlock(t: Tables, ghost keys: seq<State>, input: Block) returns (output: Block)
      requires t.Correct() && Holds(keys)
      ensures output == StoreBlock(EqInvCipher(keys, LoadBlock(input)))
    {
      hide *;
      SizeFacts(keys);
      ghost var s := LoadBlock(input);
      FirstRound(keys, s);
      var x := AddRoundKey(LoadBlock(input), Key(keys, 0));
      var rk := 1;
      for i := nr / 2 - 1 downto 0
        invariant rk == nr - 1 - 2 * i
        invariant x == InvRounds(keys, s, rk - 1)
      {
        x := DecryptPair(t, keys, s, rk, x, Key(keys, rk), Key(keys, rk + 1));
        rk := rk + 2;
      }
      x := DecryptTail(t, keys, s, x, Key(keys, rk), Key(keys, rk + 1));
      output := StoreBlock(x);
    }
  }

  /** Two consecutive rounds, X to Y and back to X. */
  function EncryptPair(t: Tables, ghost keys: seq<State>, ghost s: State, ghost rk: nat, x: State, k: State, k': State): (x': State)
    requires t.Correct() && 0 < rk && rk + 1 < |keys| && k == keys[rk] && k' == keys[rk + 1]
    requires x == Rounds(keys, s, rk - 1)
    ensures x' == Rounds(keys, s, rk + 1)
  {
    hide *;
    NextRound(keys, s, rk); NextRound(keys, s, rk + 1);
    ForwardRound(t, k', ForwardRound(t, k, x))
  }

  /** The remaining full round and the last round. */
  function EncryptTail(t: Tables, ghost keys: seq<State>, ghost s: State, x: State, k: State, k': State): (x': State)
    requires t.Correct() && |keys| >= 3 && k == keys[|keys| - 2] && k' == keys[|keys| - 1]
    requires x == Rounds(keys, s, |keys| - 3)
    ensures x' == Cipher(keys, s)
  {
    hide *;
    FirstRound(keys, s);
    NextRound(keys, s, |keys| - 2);
    ForwardLastRound(t, k', ForwardRound(t, k, x))
  }

  /** Two consecutive rounds, X to Y and back to X. */
  function DecryptPair(t: Tables, ghost keys: seq<State>, ghost s: State, ghost rk: nat, x: State, k: State, k': State): (x': State)
    requires t.Correct() && 0 < rk && rk + 1 < |keys| && k == keys[rk] && k' == keys[rk + 1]
    requires x == InvRounds(keys, s, rk - 1)
    ensures x' == InvRounds(keys, s, rk + 1)
  {
    hide *;
    NextRound(keys, s, rk); NextRound(keys, s, rk + 1);
    ReverseRound(t, k', ReverseRound(t, k, x))
  }

  /** The remaining full round and the last round. */
  function DecryptTail(t: Tables, ghost keys: seq<State>, ghost s: State, x: State, k: State, k': State): (x': State)
    requires t.Correct() && |keys| >= 3 && k == keys[|keys| - 2] && k' == keys[|keys| - 1]
    requires x == InvRounds(keys, s, |keys| - 3)
    ensures x' == EqInvCipher(keys, s)
  {
    hide *;
    FirstRound(keys, s);
    NextRound(keys, s, |keys| - 2);
    ReverseLastRound(t, k', ReverseRound(t, k, x))
  }

  lemma FirstRound(keys: seq<State>, s: State)
    requires |keys| >= 2
    ensures Rounds(keys, s, 0) == InvRounds(keys, s, 0) == AddRoundKey(s, keys[0])
    ensures Cipher(keys, s) == LastRound(Rounds(keys, s, |keys| - 2), keys[|keys| - 1])
    ensures EqInvCipher(keys, s) == InvLastRound(InvRounds(keys, s, |keys| - 2), keys[|keys| - 1])
  {
  }

  lemma NextRound(keys: seq<State>, s: State, i: nat)
    requires 0 < i < |keys|
    ensures Rounds(keys, s, i) == Round(Rounds(keys, s, i - 1), keys[i])
    ensures InvRounds(keys, s, i) == InvRound(InvRounds(keys, s, i - 1), keys[i])
  {
    hide Round, InvRound;
  }

  /** After SetKeyEnc the buffer holds the key schedule. */
  lemma EncryptionSchedule(c: Context, key: seq<byte>)
    requires KeyLength(|key|) && c.buf.Length == 68 && c.nr == RoundCount(key)
    requires Expanded(c.buf, KeyWords(key), 4 * (c.nr + 1))
    ensures c.Holds(KeySchedule(key))
  {
    hide ExpandedWord, KeyWords, KeySchedule;
    forall i | 0 <= i <= c.nr
      ensures KeySchedule(key)[i] == State(c.buf[4 * i], c.buf[4 * i + 1], c.buf[4 * i + 2], c.buf[4 * i + 3])
    {
      KeyScheduleAt(key, i);
    }
  }

  /** After SetKeyDec the buffer holds the schedule of the equivalent inverse cipher. */
  lemma DecryptionSchedule(c: Context, key: seq<byte>)
    requires KeyLength(|key|) && c.buf.Length == 68 && c.nr == RoundCount(key)
    requires DecryptionExpanded(c.buf, KeyWords(key), c.nr, 4 * (c.nr + 1))
    ensures c.Holds(InverseKeys(KeySchedule(key)))
  {
    hide DecryptionWord, KeyWords, KeySchedule, InverseKeys;
    forall i | 0 <= i <= c.nr
      ensures InverseKeys(KeySchedule(key))[i] == State(c.buf[4 * i], c.buf[4 * i + 1], c.buf[4 * i + 2], c.buf[4 * i + 3])
    {
      DecryptionKey(key, i);
    }
  }

  lemma InverseKeysAt(keys: seq<State>, i: nat)
    requires i < |keys| && |keys| >= 2
    ensures InverseKeys(keys)[i] == if i == 0 || i == |keys| - 1 then keys[|keys| - 1 - i]
                                    else InvMixColumns(keys[|keys| - 1 - i])
  {
    hide InvMixColumns;
  }

  lemma KeyScheduleAt(key: seq<byte>, i: nat)
    requires KeyLength(|key|) && i <= RoundCount(key)
    ensures var w := KeyWords(key);
            KeySchedule(key)[i] == State(ExpandedWord(w, 4 * i), ExpandedWord(w, 4 * i + 1), ExpandedWord(w, 4 * i + 2), ExpandedWord(w, 4 * i + 3))
  {
    hide ExpandedWord;
  }

  lemma InvMixColumnsDef(s: State)
    ensures InvMixColumns(s) == State(InvMixColumn(s.w0), InvMixColumn(s.w1), InvMixColumn(s.w2), InvMixColumn(s.w3))
  {
  }

  lemma LengthFacts(key: seq<byte>)
    requires KeyLength(|key|)
    ensures var n := |KeyWords(key)|; (n == 4 || n == 6 || n == 8) && |KeySchedule(key)| == RoundCount(key) + 1 == n + 7
  {
    hide KeySchedule;
  }

  lemma DecryptionKey(key: seq<byte>, i: nat)
    requires KeyLength(|key|) && i <= RoundCount(key)
    ensures var w, nr := KeyWords(key), RoundCount(key);
            InverseKeys(KeySchedule(key))[i] == State(DecryptionWord(w, nr, 4 * i), DecryptionWord(w, nr, 4 * i + 1),
                                                      DecryptionWord(w, nr, 4 * i + 2), DecryptionWord(w, nr, 4 * i + 3))
  {
    hide *;
    LengthFacts(key);
    var w, nr, k := KeyWords(key), RoundCount(key), KeySchedule(key);
    DecryptionWordAt(w, nr, i, 0); DecryptionWordAt(w, nr, i, 1);
    DecryptionWordAt(w, nr, i, 2); DecryptionWordAt(w, nr, i, 3);
    InverseKeysAt(k, i);
    KeyScheduleAt(key, nr - i);
    InvMixColumnsDef(k[nr - i]);
  }

  /** Key set-up and block functions end to end: a decryption context undoes an encryption context. */
  method RoundTrip(t: Tables, key: seq<byte>, input: Block) returns (cipher: Block, plain: Block)
    requires t.Correct() && KeyLength(|key|)
    ensures cipher == Encrypt(key, input) && plain == input
  {
    hide Cipher, EqInvCipher, LoadBlock, StoreBlock, KeySchedule, ExpandedWord, DecryptionWord, KeyWords, InverseKeys,
         Context.Holds, Expanded, DecryptionExpanded, Tables.Correct;
    LengthFacts(key);
    var e := new Context();
    var d := new Context();
    var r := e.SetKeyEnc(t, key);
    r := d.SetKeyDec(t, key);
    EncryptionSchedule(e, key);
    DecryptionSchedule(d, key);
    cipher := e.EncryptBlock(t, KeySchedule(key), input);
    plain := d.DecryptBlock(t, InverseKeys(KeySchedule(key)), cipher);
    DecryptEncrypt(key, input);
  }
}
