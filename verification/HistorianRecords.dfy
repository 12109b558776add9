/** Historian records: the packed layout and its encryption at a ring position. */
module HistorianRecords {
  import opened Bytes
  import opened GaloisField
  import opened Counter
  import opened LittleEndian
  import opened CbcMode
  import opened Words
  import Ccm

  datatype Record = Record(timestamp: U64, value: Word, sequence: U32, nodeId: U16, metricId: U8, domain: U8, reserved: Word)

  type Packed = s: seq<byte> | |s| == 24 witness Zeros(24)
  /** One record on disk: ciphertext and authentication tag. */
  type Slot = s: seq<byte> | |s| == 40 witness Zeros(40)

  function Pack(r: Record): Packed {
    LeBytes(8, r.timestamp) + r.value + LeBytes(4, r.sequence) + LeBytes(2, r.nodeId)
    + LeBytes(1, r.metricId) + LeBytes(1, r.domain) + r.reserved
  }

  function Number(s: seq<byte>): (n: nat)
    ensures |s| == 8 ==> n < 0x1_0000_0000_0000_0000
    ensures |s| == 4 ==> n < 0x1_0000_0000
    ensures |s| == 2 ==> n < 0x1_0000
    ensures |s| == 1 ==> n < 0x100
  {
    LeNatBound(s);
    WidthPowers();
    LeNat(s)
  }

  function Unpack(s: Packed): Record {
    Record(Number(s[..8]), s[8..12], Number(s[12..16]), Number(s[16..18]), Number(s[18..19]), Number(s[19..20]), s[20..])
  }

  lemma UnpackPack(r: Record)
    ensures Unpack(Pack(r)) == r
  {
    hide LeBytes, LeNat, Pow256;
    WidthPowers();
    LeRoundTrip(8, r.timestamp);
    LeRoundTrip(4, r.sequence);
    LeRoundTrip(2, r.nodeId);
    LeRoundTrip(1, r.metricId);
    LeRoundTrip(1, r.domain);
    var s := Pack(r);
    assert s[..8] == LeBytes(8, r.timestamp) && s[8..12] == r.value && s[12..16] == LeBytes(4, r.sequence);
    assert s[16..18] == LeBytes(2, r.nodeId) && s[18..19] == LeBytes(1, r.metricId) && s[19..20] == LeBytes(1, r.domain);
  }

  /** The places of the packed fields, numbers low byte first. */
  lemma PackBytes(r: Record)
    ensures var s := Pack(r);
            && LeNat(s[..8]) == r.timestamp && s[8..12] == r.value && LeNat(s[12..16]) == r.sequence
            && LeNat(s[16..18]) == r.nodeId && LeNat(s[18..19]) == r.metricId && LeNat(s[19..20]) == r.domain && s[20..] == r.reserved
  {
    hide LeBytes, LeNat, Pow256;
    WidthPowers();
    LeRoundTrip(8, r.timestamp);
    LeRoundTrip(4, r.sequence);
    LeRoundTrip(2, r.nodeId);
    LeRoundTrip(1, r.metricId);
    LeRoundTrip(1, r.domain);
    var s := Pack(r);
    assert s[..8] == LeBytes(8, r.timestamp) && s[12..16] == LeBytes(4, r.sequence);
    assert s[16..18] == LeBytes(2, r.nodeId) && s[18..19] == LeBytes(1, r.metricId) && s[19..20] == LeBytes(1, r.domain);
  }

  lemma UnpackBytes(s: Packed)
    ensures var r := Unpack(s);
            && r.timestamp == LeNat(s[..8]) && r.value == s[8..12] && r.sequence == LeNat(s[12..16])
            && r.nodeId == LeNat(s[16..18]) && r.metricId == LeNat(s[18..19]) && r.domain == LeNat(s[19..20]) && r.reserved == s[20..]
  {
    hide LeNat;
  }

  /** build_nonce: index and counter from their highest bytes, five zeros. */
  function Nonce(index: U32, counter: U32): (n: seq<byte>)
    ensures |n| == 13
  {
    BeBytes(4, index) + BeBytes(4, counter) + Zeros(5)
  }

  lemma NonceInjective(index: U32, counter: U32, index': U32, counter': U32)
    ensures Nonce(index, counter) == Nonce(index', counter') <==> index == index' && counter == counter'
  {
    hide BeBytes, BeNat, Pow256;
    WidthPowers();
    BeRoundTrip(4, index); BeRoundTrip(4, index'); BeRoundTrip(4, counter); BeRoundTrip(4, counter');
    var n, n' := Nonce(index, counter), Nonce(index', counter');
    assert n[..4] == BeBytes(4, index) && n[4..8] == BeBytes(4, counter);
    assert n'[..4] == BeBytes(4, index') && n'[4..8] == BeBytes(4, counter');
  }

  /** The nonce a position is encrypted under: the callers pass the position for the counter, too. */
  function PositionNonce(position: U32): (n: seq<byte>)
    ensures |n| == 13
  {
    Nonce(position, position)
  }

  lemma PositionNonceInjective(p: U32, q: U32)
    ensures PositionNonce(p) == PositionNonce(q) <==> p == q
  {
    NonceInjective(p, p, q, q);
  }

  /** The position stands in a nonce twice, high byte first, before five zeros. */
  lemma PositionNonceBytes(position: U32)
    ensures var n := PositionNonce(position); BeNat(n[..4]) == position == BeNat(n[4..8]) && n[8..] == Zeros(5)
  {
    hide BeBytes, BeNat, Pow256;
    WidthPowers();
    BeRoundTrip(4, position);
    var n := PositionNonce(position);
    assert n[..4] == BeBytes(4, position) == n[4..8];
  }

  function Encode(E: BlockFn, position: U32, r: Record): Slot {
    var nonce := PositionNonce(position);
    Ccm.CtrCrypt(E, nonce, 1, Pack(r)) + Ccm.Tag(E, nonce, [], Pack(r), 16)
  }

  function Decode(E: BlockFn, position: U32, slot: Slot): Option<Record> {
    var nonce := PositionNonce(position);
    var p := Ccm.CtrCrypt(E, nonce, 1, slot[..24]);
    if slot[24..] == Ccm.Tag(E, nonce, [], p, 16) then Some(Unpack(p)) else None
  }

  /** A record reads back from the position it was written at. */
  lemma DecodeEncode(E: BlockFn, position: U32, r: Record)
    ensures Decode(E, position, Encode(E, position, r)) == Some(r)
  {
    hide PositionNonce, Pack, Unpack, Ccm.CtrCrypt, Ccm.Tag;
    var nonce := PositionNonce(position);
    Ccm.CtrCryptTwice(E, nonce, 1, Pack(r));
    UnpackPack(r);
    assert Encode(E, position, r)[..24] == Ccm.CtrCrypt(E, nonce, 1, Pack(r));
    assert Encode(E, position, r)[24..] == Ccm.Tag(E, nonce, [], Pack(r), 16);
  }

  /** Two records encrypted at one position are under one key stream: the ciphertexts differ as the records do. */
  lemma SamePositionLeaks(E: BlockFn, position: U32, r: Record, r': Record)
    ensures Xor(Encode(E, position, r)[..24], Encode(E, position, r')[..24]) == Xor(Pack(r), Pack(r'))
  {
    hide PositionNonce, Pack, Ccm.CtrCrypt, Ccm.Tag, Xor;
    var nonce := PositionNonce(position);
    assert Encode(E, position, r)[..24] == Ccm.CtrCrypt(E, nonce, 1, Pack(r));
    assert Encode(E, position, r')[..24] == Ccm.CtrCrypt(E, nonce, 1, Pack(r'));
    Ccm.CtrCryptDifference(E, nonce, 1, Pack(r), Pack(r'));
  }

  /** A slot holds the packed record encrypted under the nonce of its position, and its tag. */
  lemma EncodeIs(E: BlockFn, position: U32, r: Record)
    ensures var nonce := PositionNonce(position);
            Encode(E, position, r) == Ccm.CtrCrypt(E, nonce, 1, Pack(r)) + Ccm.Tag(E, nonce, [], Pack(r), 16)
  {
    hide PositionNonce, Pack, Ccm.CtrCrypt, Ccm.Tag;
  }

  /** A slot reads back exactly when its tag is that of what its ciphertext decrypts to at this position. */
  lemma DecodeIs(E: BlockFn, position: U32, slot: Slot)
    ensures var nonce := PositionNonce(position);
            var p := Ccm.CtrCrypt(E, nonce, 1, slot[..24]);
            Decode(E, position, slot) == if slot[24..] == Ccm.Tag(E, nonce, [], p, 16) then Some(Unpack(p)) else None
  {
    hide PositionNonce, Unpack, Ccm.CtrCrypt, Ccm.Tag;
  }

  lemma RecordFits(n: nat)
    requires n == 24
    ensures Ccm.Accepts(13, 0, n, 16)
  {
    assert Pow256(1) == 256 && Pow256(2) == 0x1_0000;
  }

  /** encrypt_record */
  method EncryptRecord(E: BlockFn, keySet: bool, position: U32, r: Record) returns (ok: bool, slot: Slot)
    ensures ok == keySet && (ok ==> slot == Encode(E, position, r))
  {
    hide Pack, Ccm.CtrCrypt, Ccm.Tag, PositionNonce;
    slot := Zeros(40);
    if !keySet {
      return false, slot;
    }
    RecordFits(24);
    var encBuf := new byte[24];
    var ret, tag := Ccm.EncryptAndTag(E, false, PositionNonce(position), [], Pack(r), encBuf, 16);
    assert encBuf[..] == Ccm.CtrCrypt(E, PositionNonce(position), 1, Pack(r));
    slot := encBuf[..] + tag;
    return true, slot;
  }

  /** decrypt_record */
  method DecryptRecord(E: BlockFn, keySet: bool, position: U32, slot: Slot) returns (r: Option<Record>)
    ensures r == if keySet then Decode(E, position, slot) else None
  {
    hide Unpack, Ccm.CtrCrypt, Ccm.Tag, PositionNonce;
    if !keySet {
      return None;
    }
    RecordFits(24);
    var plain := new byte[24];
    var ret := Ccm.AuthDecrypt(E, false, PositionNonce(position), [], slot[..24], plain, slot[24..]);
    if ret != 0 {
      return None;
    }
    assert plain[..] == Ccm.CtrCrypt(E, PositionNonce(position), 1, slot[..24]);
    return Some(Unpack(plain[..]));
  }
}
