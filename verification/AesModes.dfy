/** The modes over AES itself: the inverse cipher is what their theorems ask of a block cipher. */
module AesModes {
  import opened Bytes
  import opened AesCipher
  import opened CbcMode
  import XtsMode

  type AesKey = k: seq<byte> | KeyLength(|k|) witness Zeros(16)

  ghost function Aes(key: AesKey): BlockFn {
    (b: Block) => Encrypt(key, b)
  }

  ghost function AesInverse(key: AesKey): BlockFn {
    (b: Block) => Decrypt(key, b)
  }

  /** For each key, decryption undoes encryption on every block. */
  lemma AesPair(key: AesKey)
    ensures forall x: Block :: AesInverse(key)(Aes(key)(x)) == x
    ensures forall x: Block :: Aes(key)(x) == StoreBlock(Cipher(KeySchedule(key), LoadBlock(x)))
  {
    hide Decrypt, Cipher, KeySchedule, LoadBlock, StoreBlock;
    forall x: Block ensures AesInverse(key)(Aes(key)(x)) == x {
      DecryptEncrypt(key, x);
    }
  }

  lemma AesCbcInverse(key: AesKey, iv: Block, m: seq<Block>)
    ensures CbcDecrypt(AesInverse(key), iv, CbcEncrypt(Aes(key), iv, m)) == m
  {
    hide Aes, AesInverse, CbcEncrypt, CbcDecrypt;
    AesPair(key);
    CbcRoundTrip(Aes(key), AesInverse(key), iv, m);
  }

  /** The data key and the tweak key are independent; the tweak is the encrypted data unit number. */
  lemma AesXtsInverse(key: AesKey, tweakKey: AesKey, dataUnit: Block, p: seq<byte>)
    requires |p| >= 16
    ensures var t := Aes(tweakKey)(dataUnit);
            XtsMode.XtsDecrypt(AesInverse(key), t, XtsMode.XtsEncrypt(Aes(key), t, p)) == p
  {
    hide Aes, AesInverse, XtsMode.XtsEncrypt, XtsMode.XtsDecrypt;
    AesPair(key);
    XtsMode.XtsInverse(Aes(key), AesInverse(key), Aes(tweakKey)(dataUnit), p);
  }
}
