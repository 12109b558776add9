/**
 AES on the bytes of FIPS 197: what the S-box, a round and the whole cipher do to each byte, without the
 words and tables that compute it.  Byte r of column c of a state is byte 4c + r of the block.
 */
module AesBytes {
  import opened Bytes
  import opened GaloisField
  import opened AesColumns
  import opened AesCipher
  import opened AesContext

  // ---------------------------------------------------------------- the S-box

  /** The product of section 4.2 of FIPS 197, one bit of the multiplier at a time. */
  lemma ProductSteps(x: byte, y: byte)
    ensures Mul(x, 0) == 0
    ensures y != 0 ==>
      Mul(x, y) == Add(if y & 1 == 1 then x else 0, Mul(if x & 0x80 == 0 then x << 1 else (x << 1) ^ 0x1B, y >> 1))
  {
    hide Mul;
    MulUnfold(x, y);
    BitIsSet(y);
    Doubled(x);
  }

  lemma BitIsSet(y: byte)
    ensures y & 1 == 1 <==> y & 1 != 0
  {
  }

  lemma Doubled(x: byte)
    ensures Xtime(x) == if x & 0x80 == 0 then x << 1 else (x << 1) ^ 0x1B
  {
  }

  /** Section 5.1.1: the inverse in the field, with zero left alone, then the affine map. */
  lemma SboxIs(x: byte)
    ensures exists y ::
      && (if x == 0 then y == 0 else Mul(x, y) == 1)
      && Sbox(x) == y ^ ((y << 1) | (y >> 7)) ^ ((y << 2) | (y >> 6)) ^ ((y << 3) | (y >> 5)) ^ ((y << 4) | (y >> 4)) ^ 0x63
  {
    var y := Inverse(x);
    if x != 0 {
      InverseIsInverse(x);
    }
    AffineIs(y);
    assert if x == 0 then y == 0 else Mul(x, y) == 1;
  }

  lemma AffineIs(y: byte)
    ensures Affine(y) == y ^ ((y << 1) | (y >> 7)) ^ ((y << 2) | (y >> 6)) ^ ((y << 3) | (y >> 5)) ^ ((y << 4) | (y >> 4)) ^ 0x63
  {
  }

  // ---------------------------------------------------------------- one round

  /** Column c of a state. */
  function Col(s: State, c: nat): word
    requires c < 4
  {
    if c == 0 then s.w0 else if c == 1 then s.w1 else if c == 2 then s.w2 else s.w3
  }

  lemma StoredByte(s: State, c: nat, r: nat)
    requires c < 4 && r < 4
    ensures StoreBlock(s)[4 * c + r] == ByteAt(Col(s, c), r)
  {
    hide B0, B1, B2, B3;
    assert StoreBlock(s)[4 * c..4 * c + 4] == StoreWord(Col(s, c));
    assert StoreBlock(s)[4 * c + r] == StoreBlock(s)[4 * c..4 * c + 4][r];
  }

  lemma AddKeyByte(s: State, k: State, c: nat, r: nat)
    requires c < 4 && r < 4
    ensures ByteAt(Col(AddRoundKey(s, k), c), r) == Add(ByteAt(Col(s, c), r), ByteAt(Col(k, c), r))
  {
    hide ByteAt, XorWord, Add;
    XorBytes(Col(s, c), Col(k, c), r);
  }

  lemma SubByte(s: State, c: nat, r: nat)
    requires c < 4 && r < 4
    ensures ByteAt(Col(SubBytes(s), c), r) == Sbox(ByteAt(Col(s, c), r))
  {
    hide Sbox, SubWord, ByteAt;
    SubWordByte(Col(s, c), r);
  }

  lemma Diagonal(a: word, b: word, c: word, d: word, r: nat)
    requires r < 4
    ensures ByteAt(Pack(B0(a), B1(b), B2(c), B3(d)), r)
            == if r == 0 then ByteAt(a, 0) else if r == 1 then ByteAt(b, 1) else if r == 2 then ByteAt(c, 2) else ByteAt(d, 3)
  {
    hide Pack, B0, B1, B2, B3;
    BytesOfPack(B0(a), B1(b), B2(c), B3(d));
  }

  /** Row r of the shifted state comes from r columns to the right. */
  lemma ShiftByte(s: State, c: nat, r: nat)
    requires c < 4 && r < 4
    ensures ByteAt(Col(ShiftRows(s), c), r) == ByteAt(Col(s, (c + r) % 4), r)
  {
    hide ByteAt, Pack, B0, B1, B2, B3;
    if c == 0 {
      Diagonal(s.w0, s.w1, s.w2, s.w3, r);
    } else if c == 1 {
      Diagonal(s.w1, s.w2, s.w3, s.w0, r);
    } else if c == 2 {
      Diagonal(s.w2, s.w3, s.w0, s.w1, r);
    } else {
      Diagonal(s.w3, s.w0, s.w1, s.w2, r);
    }
  }

  lemma MixByte(w: word, r: nat)
    requires r < 4
    ensures ByteAt(MixColumn(w), r) == MixRow(ByteAt(w, r), ByteAt(w, (r + 1) % 4), ByteAt(w, (r + 2) % 4), ByteAt(w, (r + 3) % 4))
  {
    hide MixColumn, MixRow, B0, B1, B2, B3;
    MixColumnBytes(w);
  }

  lemma MixRowIs(a: byte, b: byte, c: byte, d: byte)
    ensures MixRow(a, b, c, d) == Add(Add(Mul(a, 2), Mul(b, 3)), Add(c, d))
  {
    hide Mul, Add;
  }

  /** What is shifted into row r of column c, substituted. */
  lemma ShiftedIs(s: State, c: nat, r: nat)
    requires c < 4 && r < 4
    ensures ByteAt(Col(ShiftRows(SubBytes(s)), c), r) == Sbox(StoreBlock(s)[4 * ((c + r) % 4) + r])
  {
    hide Sbox, ByteAt, ShiftRows, SubBytes, StoreBlock, Col;
    ShiftByte(SubBytes(s), c, r);
    SubByte(s, (c + r) % 4, r);
    StoredByte(s, (c + r) % 4, r);
  }

  lemma MixedColumn(s: State, c: nat)
    requires c < 4
    ensures Col(MixColumns(s), c) == MixColumn(Col(s, c))
  {
    hide MixColumn;
  }

  // ---------------------------------------------------------------- the rounds

  lemma MixShifted(s: State, c: nat, r: nat, r1: nat, r2: nat, r3: nat)
    requires c < 4 && r < 4 && r1 == (r + 1) % 4 && r2 == (r + 2) % 4 && r3 == (r + 3) % 4
    ensures var b := StoreBlock(s);
            ByteAt(Col(MixColumns(ShiftRows(SubBytes(s))), c), r)
            == Add(Add(Mul(Sbox(b[4 * ((c + r) % 4) + r]), 2), Mul(Sbox(b[4 * ((c + r1) % 4) + r1]), 3)),
                   Add(Sbox(b[4 * ((c + r2) % 4) + r2]), Sbox(b[4 * ((c + r3) % 4) + r3])))
  {
    hide Sbox, Add, Mul, ByteAt, MixColumn, MixColumns, MixRow, ShiftRows, SubBytes, StoreBlock, Col;
    var t := ShiftRows(SubBytes(s));
    MixedColumn(t, c);
    MixByte(Col(t, c), r);
    MixRowIs(ByteAt(Col(t, c), r), ByteAt(Col(t, c), r1), ByteAt(Col(t, c), r2), ByteAt(Col(t, c), r3));
    ShiftedIs(s, c, r); ShiftedIs(s, c, r1); ShiftedIs(s, c, r2); ShiftedIs(s, c, r3);
  }

  /** A full round (section 5.1): row r of column c takes four substituted bytes of a diagonal, two of them multiplied. */
  lemma RoundByte(s: State, k: State, c: nat, r: nat, r1: nat, r2: nat, r3: nat)
    requires c < 4 && r < 4 && r1 == (r + 1) % 4 && r2 == (r + 2) % 4 && r3 == (r + 3) % 4
    ensures var b := StoreBlock(s);
            StoreBlock(Round(s, k))[4 * c + r]
            == Add(Add(Add(Mul(Sbox(b[4 * ((c + r) % 4) + r]), 2), Mul(Sbox(b[4 * ((c + r1) % 4) + r1]), 3)),
                       Add(Sbox(b[4 * ((c + r2) % 4) + r2]), Sbox(b[4 * ((c + r3) % 4) + r3]))),
                   StoreBlock(k)[4 * c + r])
  {
    hide Sbox, Add, Mul, ByteAt, MixColumns, ShiftRows, SubBytes, StoreBlock, AddRoundKey, Col;
    var t := ShiftRows(SubBytes(s));
    StoredByte(Round(s, k), c, r);
    StoredByte(k, c, r);
    AddKeyByte(MixColumns(t), k, c, r);
    MixShifted(s, c, r, r1, r2, r3);
  }

  /** The last round does not mix. */
  lemma LastRoundByte(s: State, k: State, c: nat, r: nat)
    requires c < 4 && r < 4
    ensures StoreBlock(LastRound(s, k))[4 * c + r] == Add(Sbox(StoreBlock(s)[4 * ((c + r) % 4) + r]), StoreBlock(k)[4 * c + r])
  {
    hide Sbox, Add, ByteAt, ShiftRows, SubBytes, StoreBlock, AddRoundKey, Col;
    StoredByte(LastRound(s, k), c, r);
    StoredByte(k, c, r);
    AddKeyByte(ShiftRows(SubBytes(s)), k, c, r);
    ShiftedIs(s, c, r);
  }

  lemma FirstByte(s: State, k: State, c: nat, r: nat)
    requires c < 4 && r < 4
    ensures StoreBlock(AddRoundKey(s, k))[4 * c + r] == Add(StoreBlock(s)[4 * c + r], StoreBlock(k)[4 * c + r])
  {
    hide Add, ByteAt, StoreBlock, AddRoundKey, Col;
    StoredByte(AddRoundKey(s, k), c, r);
    StoredByte(s, c, r);
    StoredByte(k, c, r);
    AddKeyByte(s, k, c, r);
  }

  /** The bytes of a block as it is loaded, key addition first, full rounds, and the last one. */
  lemma CipherRounds(keys: seq<State>, input: Block, i: nat)
    requires |keys| >= 2 && 0 < i <= |keys| - 2
    ensures StoreBlock(LoadBlock(input)) == input
    ensures Rounds(keys, LoadBlock(input), 0) == AddRoundKey(LoadBlock(input), keys[0])
    ensures Rounds(keys, LoadBlock(input), i) == Round(Rounds(keys, LoadBlock(input), i - 1), keys[i])
    ensures Cipher(keys, LoadBlock(input)) == LastRound(Rounds(keys, LoadBlock(input), |keys| - 2), keys[|keys| - 1])
  {
    hide *;
    StoreLoad(input);
    FirstRound(keys, LoadBlock(input));
    NextRound(keys, LoadBlock(input), i);
  }

  /** Round key i is the four words of the expanded key from word 4i on. */
  lemma RoundKeyByte(key: seq<byte>, i: nat, c: nat, r: nat)
    requires KeyLength(|key|) && i <= |key| / 4 + 6 && c < 4 && r < 4
    ensures |KeySchedule(key)| == |key| / 4 + 7
    ensures |KeyWords(key)| == |key| / 4
    ensures StoreBlock(KeySchedule(key)[i])[4 * c + r] == ByteAt(ExpandedWord(KeyWords(key), 4 * i + c), r)
  {
    hide ExpandedWord, KeySchedule, ByteAt, StoreBlock;
    KeyScheduleAt(key, i);
    StoredByte(KeySchedule(key)[i], c, r);
  }
}
