/**
 The AES block cipher on a state of four column words: the cipher of section 5.1 of FIPS 197, the
 equivalent inverse cipher of section 5.3.5, the key expansion of section 5.2, and the theorem that
 the second undoes the first.
 */
module AesCipher {
  import opened Bytes
  import opened GaloisField
  import opened AesColumns

  datatype State = State(w0: word, w1: word, w2: word, w3: word)

  function AddRoundKey(s: State, k: State): State {
    State(XorWord(s.w0, k.w0), XorWord(s.w1, k.w1), XorWord(s.w2, k.w2), XorWord(s.w3, k.w3))
  }

  ghost function SubBytes(s: State): State {
    State(SubWord(s.w0), SubWord(s.w1), SubWord(s.w2), SubWord(s.w3))
  }

  ghost function InvSubBytes(s: State): State {
    State(InvSubWord(s.w0), InvSubWord(s.w1), InvSubWord(s.w2), InvSubWord(s.w3))
  }

  /** Row r of the state moves r columns to the left. */
  function ShiftRows(s: State): State {
    State(Pack(B0(s.w0), B1(s.w1), B2(s.w2), B3(s.w3)), Pack(B0(s.w1), B1(s.w2), B2(s.w3), B3(s.w0)),
          Pack(B0(s.w2), B1(s.w3), B2(s.w0), B3(s.w1)), Pack(B0(s.w3), B1(s.w0), B2(s.w1), B3(s.w2)))
  }

  function InvShiftRows(s: State): State {
    State(Pack(B0(s.w0), B1(s.w3), B2(s.w2), B3(s.w1)), Pack(B0(s.w1), B1(s.w0), B2(s.w3), B3(s.w2)),
          Pack(B0(s.w2), B1(s.w1), B2(s.w0), B3(s.w3)), Pack(B0(s.w3), B1(s.w2), B2(s.w1), B3(s.w0)))
  }

  function MixColumns(s: State): State {
    State(MixColumn(s.w0), MixColumn(s.w1), MixColumn(s.w2), MixColumn(s.w3))
  }

  function InvMixColumns(s: State): State {
    State(InvMixColumn(s.w0), InvMixColumn(s.w1), InvMixColumn(s.w2), InvMixColumn(s.w3))
  }

  // ---------------------------------------------------------------- each layer is undone by its inverse

  lemma AddRoundKeyTwice(s: State, k: State)
    ensures AddRoundKey(AddRoundKey(s, k), k) == s
  {
    hide XorWord;
    XorWordTwice(s.w0, k.w0); XorWordTwice(s.w1, k.w1); XorWordTwice(s.w2, k.w2); XorWordTwice(s.w3, k.w3);
  }

  lemma XorWordTwice(w: word, v: word)
    ensures XorWord(XorWord(w, v), v) == w
  {
  }

  lemma InvSubWordInverse(w: word)
    ensures InvSubWord(SubWord(w)) == w
  {
    hide Sbox, InvSbox, Pack, B0, B1, B2, B3;
    BytesOfPack(Sbox(B0(w)), Sbox(B1(w)), Sbox(B2(w)), Sbox(B3(w)));
    SboxInverse(B0(w)); SboxInverse(B1(w)); SboxInverse(B2(w)); SboxInverse(B3(w));
    PackOfBytes(w);
  }

  lemma InvShiftRowsInverse(s: State)
    ensures InvShiftRows(ShiftRows(s)) == s
  {
    hide Pack, B0, B1, B2, B3;
    BytesOfPack(B0(s.w0), B1(s.w1), B2(s.w2), B3(s.w3));
    BytesOfPack(B0(s.w1), B1(s.w2), B2(s.w3), B3(s.w0));
    BytesOfPack(B0(s.w2), B1(s.w3), B2(s.w0), B3(s.w1));
    BytesOfPack(B0(s.w3), B1(s.w0), B2(s.w1), B3(s.w2));
    PackOfBytes(s.w0); PackOfBytes(s.w1); PackOfBytes(s.w2); PackOfBytes(s.w3);
  }

  /** Substitution acts on bytes, so it commutes with moving bytes around. */
  lemma SubstitutionCommutes(s: State)
    ensures InvShiftRows(InvSubBytes(s)) == InvSubBytes(InvShiftRows(s))
    ensures ShiftRows(SubBytes(s)) == SubBytes(ShiftRows(s))
  {
    hide Sbox, InvSbox, SubWord, InvSubWord, Pack, B0, B1, B2, B3;
    SubWordBytes(s.w0); SubWordBytes(s.w1); SubWordBytes(s.w2); SubWordBytes(s.w3);
    SubPack(B0(s.w0), B1(s.w1), B2(s.w2), B3(s.w3)); SubPack(B0(s.w1), B1(s.w2), B2(s.w3), B3(s.w0));
    SubPack(B0(s.w2), B1(s.w3), B2(s.w0), B3(s.w1)); SubPack(B0(s.w3), B1(s.w0), B2(s.w1), B3(s.w2));
    SubPack(B0(s.w0), B1(s.w3), B2(s.w2), B3(s.w1)); SubPack(B0(s.w1), B1(s.w0), B2(s.w3), B3(s.w2));
    SubPack(B0(s.w2), B1(s.w1), B2(s.w0), B3(s.w3)); SubPack(B0(s.w3), B1(s.w2), B2(s.w1), B3(s.w0));
  }

  lemma SubWordBytes(w: word)
    ensures B0(SubWord(w)) == Sbox(B0(w)) && B1(SubWord(w)) == Sbox(B1(w))
    ensures B2(SubWord(w)) == Sbox(B2(w)) && B3(SubWord(w)) == Sbox(B3(w))
    ensures B0(InvSubWord(w)) == InvSbox(B0(w)) && B1(InvSubWord(w)) == InvSbox(B1(w))
    ensures B2(InvSubWord(w)) == InvSbox(B2(w)) && B3(InvSubWord(w)) == InvSbox(B3(w))
  {
    hide Sbox, InvSbox, Pack, B0, B1, B2, B3;
    BytesOfPack(Sbox(B0(w)), Sbox(B1(w)), Sbox(B2(w)), Sbox(B3(w)));
    BytesOfPack(InvSbox(B0(w)), InvSbox(B1(w)), InvSbox(B2(w)), InvSbox(B3(w)));
  }

  lemma SubPack(a: byte, b: byte, c: byte, d: byte)
    ensures SubWord(Pack(a, b, c, d)) == Pack(Sbox(a), Sbox(b), Sbox(c), Sbox(d))
    ensures InvSubWord(Pack(a, b, c, d)) == Pack(InvSbox(a), InvSbox(b), InvSbox(c), InvSbox(d))
  {
    hide Sbox, InvSbox, Pack, B0, B1, B2, B3;
    BytesOfPack(a, b, c, d);
  }

  /** One round before key addition, in the order of the inverse cipher, undoes substitution and shift. */
  lemma InverseLayers(s: State)
    ensures InvShiftRows(InvSubBytes(ShiftRows(SubBytes(s)))) == s
  {
    hide ShiftRows, InvShiftRows, SubWord, InvSubWord;
    SubstitutionCommutes(ShiftRows(SubBytes(s)));
    InvShiftRowsInverse(SubBytes(s));
    InvSubWordInverse(s.w0); InvSubWordInverse(s.w1); InvSubWordInverse(s.w2); InvSubWordInverse(s.w3);
  }

  lemma InvMixColumnsInverse(s: State)
    ensures InvMixColumns(MixColumns(s)) == s
  {
    hide MixColumn, InvMixColumn;
    InvMixColumnInverse(s.w0); InvMixColumnInverse(s.w1); InvMixColumnInverse(s.w2); InvMixColumnInverse(s.w3);
  }

  lemma InvMixColumnsLinear(s: State, k: State)
    ensures InvMixColumns(AddRoundKey(s, k)) == AddRoundKey(InvMixColumns(s), InvMixColumns(k))
  {
    hide InvMixColumn, XorWord;
    InvMixColumnXor(s.w0, k.w0); InvMixColumnXor(s.w1, k.w1); InvMixColumnXor(s.w2, k.w2); InvMixColumnXor(s.w3, k.w3);
  }

  lemma InvMixColumnXor(w: word, v: word)
    ensures InvMixColumn(XorWord(w, v)) == XorWord(InvMixColumn(w), InvMixColumn(v))
  {
    hide InvMixColumn;
    InvMixColumnLinear(w, v);
  }

  // ---------------------------------------------------------------- the cipher and the equivalent inverse cipher

  /** A full round of the cipher. */
  ghost function Round(s: State, k: State): State {
    AddRoundKey(MixColumns(ShiftRows(SubBytes(s))), k)
  }

  ghost function LastRound(s: State, k: State): State {
    AddRoundKey(ShiftRows(SubBytes(s)), k)
  }

  ghost function InvRound(s: State, k: State): State {
    AddRoundKey(InvMixColumns(InvShiftRows(InvSubBytes(s))), k)
  }

  ghost function InvLastRound(s: State, k: State): State {
    AddRoundKey(InvShiftRows(InvSubBytes(s)), k)
  }

  /** The state after the initial key addition and i full rounds. */
  ghost function Rounds(keys: seq<State>, s: State, i: nat): State
    requires i < |keys|
  {
    if i == 0 then AddRoundKey(s, keys[0]) else Round(Rounds(keys, s, i - 1), keys[i])
  }

  ghost function InvRounds(keys: seq<State>, s: State, i: nat): State
    requires i < |keys|
  {
    if i == 0 then AddRoundKey(s, keys[0]) else InvRound(InvRounds(keys, s, i - 1), keys[i])
  }

  ghost function Cipher(keys: seq<State>, s: State): State
    requires |keys| >= 2
  {
    LastRound(Rounds(keys, s, |keys| - 2), keys[|keys| - 1])
  }

  ghost function EqInvCipher(keys: seq<State>, s: State): State
    requires |keys| >= 2
  {
    InvLastRound(InvRounds(keys, s, |keys| - 2), keys[|keys| - 1])
  }

  /** The decryption schedule: round keys reversed, the inner ones passed through InvMixColumns. */
  ghost function InverseKeys(keys: seq<State>): (dkeys: seq<State>)
    requires |keys| >= 2
    ensures |dkeys| == |keys|
  {
    seq(|keys|, i requires 0 <= i < |keys| =>
      if i == 0 || i == |keys| - 1 then keys[|keys| - 1 - i] else InvMixColumns(keys[|keys| - 1 - i]))
  }

  lemma {:induction false} InvRoundsFollow(keys: seq<State>, s: State, i: nat)
    requires |keys| >= 2 && i <= |keys| - 2
    ensures InvRounds(InverseKeys(keys), Cipher(keys, s), i)
            == ShiftRows(SubBytes(Rounds(keys, s, |keys| - 2 - i)))
  {
    var n := |keys| - 1;
    hide MixColumns, InvMixColumns, ShiftRows, InvShiftRows, SubBytes, InvSubBytes, AddRoundKey;
    if i == 0 {
      AddRoundKeyTwice(ShiftRows(SubBytes(Rounds(keys, s, n - 1))), keys[n]);
    } else {
      InvRoundsFollow(keys, s, i - 1);
      var r := Rounds(keys, s, n - i);
      InverseLayers(r);
      InvMixColumnsLinear(r, keys[n - i]);
      var m := MixColumns(ShiftRows(SubBytes(Rounds(keys, s, n - i - 1))));
      AddRoundKeyTwice(m, keys[n - i]);
      InvMixColumnsInverse(ShiftRows(SubBytes(Rounds(keys, s, n - i - 1))));
    }
  }

  /** Decryption under the transformed schedule undoes encryption, for every schedule and state. */
  lemma EqInvCipherInverse(keys: seq<State>, s: State)
    requires |keys| >= 2
    ensures EqInvCipher(InverseKeys(keys), Cipher(keys, s)) == s
  {
    hide MixColumns, InvMixColumns, ShiftRows, InvShiftRows, SubBytes, InvSubBytes, AddRoundKey;
    InvRoundsFollow(keys, s, |keys| - 2);
    InverseLayers(Rounds(keys, s, 0));
    AddRoundKeyTwice(s, keys[0]);
  }

  // ---------------------------------------------------------------- key expansion

  /** The i-th round constant: the i-th doubling of one (section 5.2 of FIPS 197). */
  function Doubling(i: nat): byte {
    if i == 0 then 1 else Xtime(Doubling(i - 1))
  }

  function RoundConstant(i: nat): word {
    Doubling(i) as word
  }

  predicate KeyLength(n: nat) {
    n == 16 || n == 24 || n == 32
  }

  /** The key as little-endian words. */
  function KeyWords(key: seq<byte>): (r: seq<word>)
    ensures |r| == |key| / 4
  {
    seq(|key| / 4, i requires 0 <= i < |key| / 4 => Pack(key[4 * i], key[4 * i + 1], key[4 * i + 2], key[4 * i + 3]))
  }

  ghost function RotSubWord(w: word): word {
    Pack(Sbox(B1(w)), Sbox(B2(w)), Sbox(B3(w)), Sbox(B0(w)))
  }

  /** Word i of the expanded key (KeyExpansion, section 5.2 of FIPS 197). */
  ghost function ExpandedWord(key: seq<word>, i: nat): word
    requires |key| == 4 || |key| == 6 || |key| == 8
  {
    var nk := |key|;
    if i < nk then
      key[i]
    else
      var t := ExpandedWord(key, i - 1);
      var u := if i % nk == 0 then XorWord(RotSubWord(t), RoundConstant(i / nk - 1))
               else if nk > 6 && i % nk == 4 then SubWord(t)
               else t;
      XorWord(ExpandedWord(key, i - nk), u)
  }

  function RoundCount(key: seq<byte>): nat {
    |key| / 4 + 6
  }

  ghost function RoundKey(key: seq<byte>, i: nat): State
    requires KeyLength(|key|)
  {
    var w := KeyWords(key);
    State(ExpandedWord(w, 4 * i), ExpandedWord(w, 4 * i + 1), ExpandedWord(w, 4 * i + 2), ExpandedWord(w, 4 * i + 3))
  }

  ghost function KeySchedule(key: seq<byte>): (keys: seq<State>)
    requires KeyLength(|key|)
    ensures |keys| == RoundCount(key) + 1
  {
    seq(RoundCount(key) + 1, i requires 0 <= i => RoundKey(key, i))
  }

  // ---------------------------------------------------------------- blocks

  function LoadBlock(b: Block): State {
    State(Pack(b[0], b[1], b[2], b[3]), Pack(b[4], b[5], b[6], b[7]),
          Pack(b[8], b[9], b[10], b[11]), Pack(b[12], b[13], b[14], b[15]))
  }

  function StoreWord(w: word): seq<byte> {
    [B0(w), B1(w), B2(w), B3(w)]
  }

  function StoreBlock(s: State): Block {
    StoreWord(s.w0) + StoreWord(s.w1) + StoreWord(s.w2) + StoreWord(s.w3)
  }

  lemma LoadStore(s: State)
    ensures LoadBlock(StoreBlock(s)) == s
  {
    hide Pack, B0, B1, B2, B3;
    PackOfBytes(s.w0); PackOfBytes(s.w1); PackOfBytes(s.w2); PackOfBytes(s.w3);
  }

  lemma StoreLoad(b: Block)
    ensures StoreBlock(LoadBlock(b)) == b
  {
    hide Pack, B0, B1, B2, B3;
    BytesOfPack(b[0], b[1], b[2], b[3]); BytesOfPack(b[4], b[5], b[6], b[7]);
    BytesOfPack(b[8], b[9], b[10], b[11]); BytesOfPack(b[12], b[13], b[14], b[15]);
  }

  /** AES encryption and decryption of one block under a 128-, 192- or 256-bit key. */
  ghost function Encrypt(key: seq<byte>, b: Block): Block
    requires KeyLength(|key|)
  {
    StoreBlock(Cipher(KeySchedule(key), LoadBlock(b)))
  }

  ghost function Decrypt(key: seq<byte>, b: Block): Block
    requires KeyLength(|key|)
  {
    StoreBlock(EqInvCipher(InverseKeys(KeySchedule(key)), LoadBlock(b)))
  }

  /** For every key and block, decryption inverts encryption. */
  lemma DecryptEncrypt(key: seq<byte>, b: Block)
    requires KeyLength(|key|)
    ensures Decrypt(key, Encrypt(key, b)) == b
  {
    hide LoadBlock, StoreBlock, Cipher, EqInvCipher, KeySchedule;
    LoadStore(Cipher(KeySchedule(key), LoadBlock(b)));
    EqInvCipherInverse(KeySchedule(key), LoadBlock(b));
    StoreLoad(b);
  }
}
