/**
 The four padding schemes of the cipher layer.  Each removal loop accumulates masks over every byte
 of the block; it is proved to accept exactly the well-padded blocks and to find their data length.
 */
module Padding {
  import opened Bytes
  import opened GaloisField
  import opened Words

  const INVALID_PADDING := -0x6200


  // ---------------------------------------------------------------- helpers of the source, by meaning

  function MaskGe(x: nat, y: nat): byte {
    if x >= y then 0xFF else 0x00
  }

  function BoolEq(x: nat, y: nat): byte {
    if x == y then 1 else 0
  }

  function UintIf(bad: byte, then_: int, else_: int): int {
    if bad != 0 then then_ else else_
  }

  // ---------------------------------------------------------------- PKCS7

  function Fill(n: nat, b: byte): (s: seq<byte>)
    ensures |s| == n && forall i :: 0 <= i < n ==> s[i] == b
  {
    seq(n, i => b)
  }

  /** The padding of section 6.3 of RFC 5652: p bytes of value p. */
  function PkcsPadding(p: nat): seq<byte>
    requires p < 256
  {
    Fill(p, ToByte(p))
  }

  /** The block ends in p bytes of value p, with p at least one. */
  ghost predicate PkcsPadded(block: seq<byte>, p: nat) {
    1 <= p <= |block| && p < 256 && block[|block| - p..] == PkcsPadding(p)
  }

  method AddPkcs(output: array<byte>, outputLen: nat, dataLen: nat)
    requires dataLen <= outputLen <= output.Length && outputLen - dataLen < 256
    modifies output
    ensures output[..] == old(output[..dataLen]) + PkcsPadding(outputLen - dataLen) + old(output[outputLen..])
  {
    var p := outputLen - dataLen;
    hide ToByte;
    for i := 0 to p
      invariant output[..dataLen] == old(output[..dataLen]) && output[outputLen..] == old(output[outputLen..])
      invariant output[dataLen..dataLen + i] == Fill(i, ToByte(p))
    {
      output[dataLen + i] := ToByte(p);
    }
    assert output[..] == output[..dataLen] + output[dataLen..outputLen] + output[outputLen..];
  }

  method GetPkcs(input: seq<byte>) returns (ret: int, dataLen: nat)
    requires 0 < |input| < U64_MODULUS
    ensures ret == 0 || ret == INVALID_PADDING
    ensures ret == 0 <==> exists p :: PkcsPadded(input, p)
    ensures ret == 0 ==> dataLen < |input| && PkcsPadded(input, |input| - dataLen)
  {
    hide ToByte, Index;
    var last := input[|input| - 1];
    var p := Index(last);
    dataLen := Sub64(|input|, p);
    var bad: byte := 0;
    bad := bad | !MaskGe(|input|, p);
    bad := bad | BoolEq(p, 0);
    var padIdx := Sub64(|input|, p);
    assert bad == 0 <==> 1 <= p <= |input|;
    for i := 0 to |input|
      invariant bad == 0 <==> 1 <= p <= |input| && forall k :: padIdx <= k < i ==> input[k] == last
    {
      ghost var was := bad;
      bad := bad | ((input[i] ^ last) & MaskGe(i, padIdx));
      OrMasked(was, input[i], last, i, padIdx);
    }
    ret := UintIf(bad, INVALID_PADDING, 0);
    PkcsMeaning(input, p);
  }

  lemma OrMasked(bad: byte, a: byte, b: byte, i: nat, padIdx: nat)
    ensures bad | ((a ^ b) & MaskGe(i, padIdx)) == 0 <==> bad == 0 && (i >= padIdx ==> a == b)
  {
  }

  /** Only the value of the last byte can be the padding length. */
  lemma PkcsMeaning(input: seq<byte>, p: nat)
    requires 0 < |input| && p == Index(input[|input| - 1])
    ensures (exists q :: PkcsPadded(input, q)) <==> PkcsPadded(input, p)
    ensures PkcsPadded(input, p) <==> 1 <= p <= |input| && forall k :: |input| - p <= k < |input| ==> input[k] == input[|input| - 1]
  {
    hide ToByte, Index;
    var last := input[|input| - 1];
    IndexRoundTrip(last);
    forall q: nat | PkcsPadded(input, q) ensures q == p {
      assert input[|input| - q..][q - 1] == ToByte(q);
      ByteRoundTrip(q);
    }
    if PkcsPadded(input, p) {
      forall k | |input| - p <= k < |input| ensures input[k] == last {
        assert input[|input| - p..][k - (|input| - p)] == last;
      }
    }
  }

  /** Removing PKCS7 padding recovers the data length, and no other length is admissible. */
  lemma PkcsRoundTrip(data: seq<byte>, n: nat)
    requires |data| < n && n - |data| < 256
    ensures var block := data + PkcsPadding(n - |data|);
            forall p: nat :: PkcsPadded(block, p) <==> p == n - |data|
  {
    hide ToByte, Index;
    var p := n - |data|;
    var block := data + PkcsPadding(p);
    assert block[|block| - p..] == PkcsPadding(p);
    ByteRoundTrip(p);
    PkcsMeaning(block, p);
    forall q: nat | PkcsPadded(block, q) ensures q == p {
      assert block[|block| - q..][q - 1] == ToByte(q);
      ByteRoundTrip(q);
    }
  }

  // ---------------------------------------------------------------- one and zeros

  function OneAndZeros(p: nat): seq<byte>
    requires p > 0
  {
    [0x80] + Zeros(p - 1)
  }

  /** From index d on the block is 0x80 followed by zeros. */
  ghost predicate OneAndZerosPadded(block: seq<byte>, d: nat) {
    d < |block| && block[d] == 0x80 && forall k :: d < k < |block| ==> block[k] == 0
  }

  method AddOneAndZeros(output: array<byte>, outputLen: nat, dataLen: nat)
    requires dataLen < outputLen <= output.Length && outputLen - dataLen < 256
    modifies output
    ensures output[..] == old(output[..dataLen]) + OneAndZeros(outputLen - dataLen) + old(output[outputLen..])
  {
    var p := outputLen - dataLen;
    output[dataLen] := 0x80;
    for i := 1 to p
      invariant output[..dataLen] == old(output[..dataLen]) && output[outputLen..] == old(output[outputLen..])
      invariant output[dataLen..dataLen + i] == OneAndZeros(i)
    {
      output[dataLen + i] := 0x00;
      assert output[dataLen..dataLen + i + 1] == output[dataLen..dataLen + i] + [0];
    }
    assert output[..] == output[..dataLen] + output[dataLen..outputLen] + output[outputLen..];
  }

  method GetOneAndZeros(input: seq<byte>) returns (ret: int, dataLen: nat)
    ensures ret == 0 || ret == INVALID_PADDING
    ensures ret == 0 <==> exists d: nat :: OneAndZerosPadded(input, d)
    ensures ret == 0 ==> OneAndZerosPadded(input, dataLen)
  {
    var bad: byte := 1;
    dataLen := 0;
    var inPadding := true;
    for i := |input| downto 0
      invariant inPadding ==> bad == 1 && forall k :: i <= k < |input| ==> input[k] == 0
      invariant !inPadding ==> i <= dataLen < |input| && input[dataLen] != 0
                               && (forall k :: dataLen < k < |input| ==> input[k] == 0)
                               && (bad == 0 <==> input[dataLen] == 0x80)
    {
      var isNonzero := input[i] != 0;
      var hit := isNonzero && inPadding;
      dataLen := if hit then i else dataLen;
      bad := if hit then (if input[i] == 0x80 then 0 else 1) else bad;
      inPadding := inPadding && !isNonzero;
    }
    ret := UintIf(bad, INVALID_PADDING, 0);
    assert forall d: nat :: OneAndZerosPadded(input, d) ==> !inPadding && d == dataLen;
    assert bad == 0 ==> OneAndZerosPadded(input, dataLen);
  }

  lemma OneAndZerosRoundTrip(data: seq<byte>, n: nat)
    requires |data| < n
    ensures var block := data + OneAndZeros(n - |data|);
            forall d: nat :: OneAndZerosPadded(block, d) <==> d == |data|
  {
    var block := data + OneAndZeros(n - |data|);
    assert block[|data|] == 0x80;
  }

  // ---------------------------------------------------------------- zeros and length

  function ZerosAndLen(p: nat): seq<byte>
    requires 0 < p < 256
  {
    Zeros(p - 1) + [ToByte(p)]
  }

  /** The last byte is p and the p - 1 bytes before it are zero. */
  ghost predicate ZerosAndLenPadded(block: seq<byte>, p: nat) {
    1 <= p <= |block| && p < 256 && block[|block| - p..] == ZerosAndLen(p)
  }

  method AddZerosAndLen(output: array<byte>, outputLen: nat, dataLen: nat)
    requires dataLen < outputLen <= output.Length && outputLen - dataLen < 256
    modifies output
    ensures output[..] == old(output[..dataLen]) + ZerosAndLen(outputLen - dataLen) + old(output[outputLen..])
  {
    hide ToByte;
    var p := outputLen - dataLen;
    for i := 1 to p
      invariant output[..dataLen] == old(output[..dataLen]) && output[outputLen..] == old(output[outputLen..])
      invariant output[dataLen..dataLen + i - 1] == Zeros(i - 1)
    {
      output[dataLen + i - 1] := 0x00;
      assert output[dataLen..dataLen + i] == output[dataLen..dataLen + i - 1] + [0];
    }
    output[outputLen - 1] := ToByte(p);
    assert output[..] == output[..dataLen] + output[dataLen..outputLen] + output[outputLen..];
  }

  method GetZerosAndLen(input: seq<byte>) returns (ret: int, dataLen: nat)
    requires 0 < |input| < U64_MODULUS
    ensures ret == 0 || ret == INVALID_PADDING
    ensures ret == 0 <==> exists p :: ZerosAndLenPadded(input, p)
    ensures ret == 0 ==> dataLen < |input| && ZerosAndLenPadded(input, |input| - dataLen)
  {
    hide ToByte, Index;
    var p := Index(input[|input| - 1]);
    dataLen := Sub64(|input|, p);
    var bad: byte := 0;
    bad := bad | MaskGe(p, |input| + 1);
    bad := bad | BoolEq(p, 0);
    var padIdx := Sub64(|input|, p);
    assert bad == 0 <==> 1 <= p <= |input|;
    for i := 0 to |input| - 1
      invariant bad == 0 <==> 1 <= p <= |input| && forall k :: padIdx <= k < i ==> input[k] == 0
    {
      ghost var was := bad;
      bad := bad | (input[i] & MaskGe(i, padIdx));
      OrMasked(was, input[i], 0, i, padIdx);
    }
    ret := UintIf(bad, INVALID_PADDING, 0);
    ZerosAndLenMeaning(input, p);
  }

  lemma ZerosAndLenMeaning(input: seq<byte>, p: nat)
    requires 0 < |input| && p == Index(input[|input| - 1])
    ensures (exists q :: ZerosAndLenPadded(input, q)) <==> ZerosAndLenPadded(input, p)
    ensures ZerosAndLenPadded(input, p) <==> 1 <= p <= |input| && forall k :: |input| - p <= k < |input| - 1 ==> input[k] == 0
  {
    hide ToByte, Index;
    IndexRoundTrip(input[|input| - 1]);
    forall q: nat | ZerosAndLenPadded(input, q) ensures q == p {
      assert input[|input| - q..][q - 1] == ToByte(q);
      ByteRoundTrip(q);
    }
    if ZerosAndLenPadded(input, p) {
      forall k | |input| - p <= k < |input| - 1 ensures input[k] == 0 {
        assert input[|input| - p..][k - (|input| - p)] == 0;
      }
    }
  }

  lemma ZerosAndLenRoundTrip(data: seq<byte>, n: nat)
    requires |data| < n && n - |data| < 256
    ensures var block := data + ZerosAndLen(n - |data|);
            forall p: nat :: ZerosAndLenPadded(block, p) <==> p == n - |data|
  {
    hide ToByte, Index;
    var p := n - |data|;
    var block := data + ZerosAndLen(p);
    assert block[|block| - p..] == ZerosAndLen(p);
    forall q: nat | ZerosAndLenPadded(block, q) ensures q == p {
      assert block[|block| - q..][q - 1] == ToByte(q);
      ByteRoundTrip(p);
      ByteRoundTrip(q);
    }
  }

  // ---------------------------------------------------------------- zeros

  /** One more than the index of the last non-zero byte. */
  ghost predicate ZerosEnd(block: seq<byte>, d: nat) {
    d <= |block| && (d > 0 ==> block[d - 1] != 0) && forall k :: d <= k < |block| ==> block[k] == 0
  }

  method AddZeros(output: array<byte>, outputLen: nat, dataLen: nat)
    requires dataLen <= outputLen <= output.Length
    modifies output
    ensures output[..] == old(output[..dataLen]) + Zeros(outputLen - dataLen) + old(output[outputLen..])
  {
    for i := dataLen to outputLen
      invariant output[..dataLen] == old(output[..dataLen]) && output[outputLen..] == old(output[outputLen..])
      invariant output[dataLen..i] == Zeros(i - dataLen)
    {
      output[i] := 0x00;
    }
    assert output[..] == output[..dataLen] + output[dataLen..outputLen] + output[outputLen..];
  }

  method GetZeros(input: seq<byte>) returns (ret: int, dataLen: nat)
    ensures ret == 0 && ZerosEnd(input, dataLen)
  {
    var done := false;
    dataLen := 0;
    for i := |input| downto 0
      invariant !done ==> dataLen == 0 && forall k :: i <= k < |input| ==> input[k] == 0
      invariant done ==> i < dataLen && ZerosEnd(input, dataLen)
    {
      var prevDone := done;
      done := done || input[i] != 0;
      dataLen := if done != prevDone then i + 1 else dataLen;
    }
    ret := 0;
  }

  /**
   Zero padding is not reversible in general: the data length comes back exactly when the data is
   empty or does not itself end in a zero byte.
   */
  lemma ZerosRoundTrip(data: seq<byte>, n: nat, d: nat)
    requires |data| <= n && ZerosEnd(data + Zeros(n - |data|), d)
    ensures d == |data| <==> data == [] || data[|data| - 1] != 0
  {
    var block := data + Zeros(n - |data|);
    if data != [] && data[|data| - 1] != 0 {
      assert block[|data| - 1] != 0;
    }
  }

  /** A message ending in a zero byte loses it. */
  lemma ZerosCounterexample()
    ensures ZerosEnd([1, 0] + Zeros(14), 1)
  {
    var block := [1, 0] + Zeros(14);
    assert block[0] == 1;
  }
}
