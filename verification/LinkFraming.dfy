/** Frames on the field links: RS-485 towards the sensors and LoRa towards the Hub. */
module LinkFraming {
  import opened Bytes
  import opened GaloisField
  import opened Crc16
  import opened LittleEndian
  import opened Words

  const START_BYTE: byte := 0xAA
  const MAX_PAYLOAD := 128
  const LORA_OVERHEAD := 10

  // ---------------------------------------------------------------- the check on the wire

  function HighByte(c: Register): byte {
    ((c >> 8) & 0xFF) as byte
  }

  function LowByte(c: Register): byte {
    (c & 0xFF) as byte
  }

  function Join(high: byte, low: byte): Register {
    ((high as bv16) << 8) | (low as bv16)
  }

  lemma JoinBytes(c: Register)
    ensures Join(HighByte(c), LowByte(c)) == c
  {
  }

  lemma BytesOfJoin(high: byte, low: byte)
    ensures HighByte(Join(high, low)) == high && LowByte(Join(high, low)) == low
  {
  }

  /** The two bytes of a register, and the register of two bytes. */
  lemma ByteValues(c: Register, high: byte, low: byte)
    ensures HighByte(c) as bv16 == c >> 8 && LowByte(c) as bv16 == c & 0xFF
    ensures Join(high, low) >> 8 == high as bv16 && Join(high, low) & 0xFF == low as bv16
  {
  }

  // ---------------------------------------------------------------- RS-485

  datatype Rs485Frame = Rs485Frame(dest: byte, src: byte, payload: seq<byte>)

  datatype Rs485Result = Ok(frame: Rs485Frame) | BadCrc | TooShort | TooLong | BadStart

  /** What the check covers: addresses, length and payload. */
  function Rs485Body(f: Rs485Frame): (s: seq<byte>)
    requires |f.payload| < 256
    ensures |s| == 3 + |f.payload|
  {
    [f.dest, f.src, ToByte(|f.payload|)] + f.payload
  }

  function Rs485Bytes(f: Rs485Frame): (s: seq<byte>)
    requires |f.payload| < 256
    ensures |s| == 6 + |f.payload|
  {
    var crc := Crc(Modbus, Rs485Body(f));
    [START_BYTE] + Rs485Body(f) + [HighByte(crc), LowByte(crc)]
  }

  /** rs485_parse; bytes after the frame are ignored. */
  function Rs485Parse(wire: seq<byte>): Rs485Result {
    if |wire| < 6 then TooShort
    else if wire[0] != START_BYTE then BadStart
    else
      var len := Index(wire[3]);
      if |wire| < 6 + len then TooShort
      else if len > MAX_PAYLOAD then TooLong
      else if Join(wire[4 + len], wire[5 + len]) != Crc(Modbus, wire[1..4 + len]) then BadCrc
      else Ok(Rs485Frame(wire[1], wire[2], wire[4..4 + len]))
  }

  lemma Rs485Parts(f: Rs485Frame, rest: seq<byte>)
    requires |f.payload| < 256
    ensures var wire, n, crc := Rs485Bytes(f) + rest, |f.payload|, Crc(Modbus, Rs485Body(f));
            && wire[0] == START_BYTE && wire[1] == f.dest && wire[2] == f.src && Index(wire[3]) == n
            && wire[1..4 + n] == Rs485Body(f) && wire[4..4 + n] == f.payload
            && wire[4 + n] == HighByte(crc) && wire[5 + n] == LowByte(crc)
  {
    hide Crc, HighByte, LowByte, Index, ToByte;
    ByteRoundTrip(|f.payload|);
  }

  /** Parsing what was encoded, with anything after it, gives the frame back. */
  lemma Rs485RoundTrip(f: Rs485Frame, rest: seq<byte>)
    requires |f.payload| <= MAX_PAYLOAD
    ensures Rs485Parse(Rs485Bytes(f) + rest) == Ok(f)
  {
    hide Crc, HighByte, LowByte, Join, Index, Rs485Bytes;
    Rs485Parts(f, rest);
    JoinBytes(Crc(Modbus, Rs485Body(f)));
  }

  /** A frame is accepted only if its encoding is what was received. */
  lemma Rs485ParseSound(wire: seq<byte>)
    requires Rs485Parse(wire).Ok?
    ensures var f := Rs485Parse(wire).frame; |f.payload| <= MAX_PAYLOAD && Rs485Bytes(f) <= wire
  {
    hide Crc, HighByte, LowByte, Join, Index, ToByte;
    var f, n := Rs485Parse(wire).frame, Index(wire[3]);
    IndexRoundTrip(wire[3]);
    assert wire[1..4 + n] == Rs485Body(f);
    BytesOfJoin(wire[4 + n], wire[5 + n]);
    assert wire[..6 + n] == [wire[0]] + wire[1..4 + n] + [wire[4 + n], wire[5 + n]];
  }

  /** Any change confined to two neighbouring bytes under the check, the length left alone, is rejected. */
  lemma Rs485BurstRejected(f: Rs485Frame, wire: seq<byte>, i: nat)
    requires |f.payload| <= MAX_PAYLOAD && wire != Rs485Bytes(f)
    requires 1 <= i && i + 2 <= 4 + |f.payload| && BurstAt(Rs485Bytes(f), wire, i)
    requires wire[3] == Rs485Bytes(f)[3]
    ensures Rs485Parse(wire) == BadCrc
  {
    hide Crc, HighByte, LowByte, Join, Index, Rs485Bytes, BurstAt;
    var good, n := Rs485Bytes(f), |f.payload|;
    assert good + [] == good;
    Rs485Parts(f, []);
    BurstInside(good, wire, 1, 4 + n, i);
    BurstDetected(Modbus, good[1..4 + n], wire[1..4 + n], i - 1);
    JoinBytes(Crc(Modbus, Rs485Body(f)));
    CheckFails(wire, n);
  }

  lemma CheckFails(wire: seq<byte>, n: nat)
    requires |wire| == 6 + n && wire[0] == START_BYTE && Index(wire[3]) == n <= MAX_PAYLOAD
    requires Join(wire[4 + n], wire[5 + n]) != Crc(Modbus, wire[1..4 + n])
    ensures Rs485Parse(wire) == BadCrc
  {
    hide Crc, Join, Index;
  }

  /** A burst inside a window leaves everything outside alone and is a burst of the window. */
  lemma BurstInside(s: seq<byte>, t: seq<byte>, lo: nat, hi: nat, i: nat)
    requires BurstAt(s, t, i) && lo <= i && i + 2 <= hi <= |s| && s != t
    ensures |t| == |s| && s[..lo] == t[..lo] && s[hi..] == t[hi..]
    ensures forall k :: 0 <= k < lo || hi <= k < |s| ==> s[k] == t[k]
    ensures BurstAt(s[lo..hi], t[lo..hi], i - lo) && s[lo..hi] != t[lo..hi]
  {
    hide BurstAt;
    Outside(s, t, i);
    assert s == s[..lo] + s[lo..hi] + s[hi..];
    assert t == t[..lo] + t[lo..hi] + t[hi..];
    forall k | 0 <= k < hi - lo && !(i - lo <= k < i - lo + 2) ensures s[lo..hi][k] == t[lo..hi][k] {
      assert s[lo + k] == t[lo + k];
    }
    Outside(s[lo..hi], t[lo..hi], i - lo);
  }

  /** A burst, byte by byte. */
  lemma Outside(s: seq<byte>, t: seq<byte>, i: nat)
    ensures BurstAt(s, t, i)
            <==> |s| == |t| && i + 2 <= |s| && forall k :: 0 <= k < i || i + 2 <= k < |s| ==> s[k] == t[k]
  {
    if BurstAt(s, t, i) {
      forall k | 0 <= k < i || i + 2 <= k < |s| ensures s[k] == t[k] {
        if k < i {
          assert s[..i][k] == t[..i][k];
        } else {
          assert s[i + 2..][k - (i + 2)] == t[i + 2..][k - (i + 2)];
        }
      }
    }
  }

  /** rs485_encode */
  method Rs485Encode(f: Rs485Frame, out: array<byte>) returns (ok: bool, len: nat)
    requires |f.payload| < 256
    modifies out
    ensures ok <==> 6 + |f.payload| <= out.Length && |f.payload| <= MAX_PAYLOAD
    ensures !ok ==> unchanged(out)
    ensures ok ==> len == 6 + |f.payload| && out[..len] == Rs485Bytes(f) && out[len..] == old(out[len..])
  {
    hide Crc, HighByte, LowByte, Splice, ToByte;
    len := 0;
    if 6 + |f.payload| > out.Length || |f.payload| > MAX_PAYLOAD {
      return false, len;
    }
    ghost var out0 := out[..];
    var pos := Write(out, 0, [START_BYTE], [], out0);
    pos := Write(out, pos, [f.dest, f.src, ToByte(|f.payload|)], [START_BYTE], out0);
    pos := Write(out, pos, f.payload, [START_BYTE] + [f.dest, f.src, ToByte(|f.payload|)], out0);
    assert [START_BYTE] + [f.dest, f.src, ToByte(|f.payload|)] + f.payload == [START_BYTE] + Rs485Body(f);
    assert out[1..4 + |f.payload|] == out[..pos][1..] == Rs485Body(f);
    var crc := ModbusCrc(out[1..4 + |f.payload|]);
    pos := Write(out, pos, [HighByte(crc), LowByte(crc)], [START_BYTE] + Rs485Body(f), out0);
    return true, pos;
  }

  /** Appends bytes to the part of the buffer already written. */
  method Write(out: array<byte>, pos: nat, v: seq<byte>, ghost front: seq<byte>, ghost out0: seq<byte>) returns (next: nat)
    requires pos + |v| <= out.Length == |out0| && out[..pos] == front && out[pos..] == out0[pos..]
    modifies out
    ensures next == pos + |v| && out[..next] == front + v && out[next..] == out0[next..]
  {
    hide Splice;
    ghost var was := out[..];
    CopyInto(out, pos, v);
    SpliceParts(was, pos, v, out[..]);
    next := pos + |v|;
    assert out[..next] == out[..][..next] && out[next..] == out[..][next..];
    assert out0[pos..][|v|..] == out0[next..] == was[pos..][|v|..];
  }

  /** rs485_parse */
  method Rs485ParseFrame(wire: seq<byte>) returns (r: Rs485Result)
    ensures r == Rs485Parse(wire)
    ensures r == BadStart <==> |wire| >= 6 && wire[0] != 0xAA
    ensures r == TooShort <==> |wire| < 6 || (wire[0] == 0xAA && |wire| < 6 + Index(wire[3]))
    ensures r == TooLong <==> |wire| >= 6 && wire[0] == 0xAA && |wire| >= 6 + Index(wire[3]) && Index(wire[3]) > 128
  {
    hide Crc, Join, Index;
    if |wire| < 6 {
      return TooShort;
    }
    if wire[0] != START_BYTE {
      return BadStart;
    }
    var len := Index(wire[3]);
    if |wire| < 6 + len {
      return TooShort;
    }
    if len > MAX_PAYLOAD {
      return TooLong;
    }
    var received := Join(wire[4 + len], wire[4 + len + 1]);
    var computed := ModbusCrc(wire[1..4 + len]);
    if received != computed {
      return BadCrc;
    }
    return Ok(Rs485Frame(wire[1], wire[2], wire[4..4 + len]));
  }

  // ---------------------------------------------------------------- LoRa

  datatype Packet = Packet(dest: U16, src: U16, seqNum: byte, msgType: byte, flags: byte, payload: seq<byte>)

  datatype LoraResult = LoraOk(packet: Packet) | CrcFail

  /** The eight bytes before the payload, announcing n bytes of it. */
  function LoraHeader(p: Packet, n: U8): (s: seq<byte>)
    ensures |s| == 8
  {
    [ByteOf(p.dest, 0), ByteOf(p.dest, 1), ByteOf(p.src, 0), ByteOf(p.src, 1), p.seqNum, p.msgType, ToByte(n), p.flags]
  }

  function LoraBody(p: Packet): (s: seq<byte>)
    requires |p.payload| < 256
    ensures |s| == 8 + |p.payload|
  {
    LoraHeader(p, |p.payload|) + p.payload
  }

  function LoraBytes(p: Packet): (s: seq<byte>)
    requires |p.payload| < 256
    ensures |s| == LORA_OVERHEAD + |p.payload|
  {
    var crc := Crc(Ccitt, LoraBody(p));
    LoraBody(p) + [LowByte(crc), HighByte(crc)]
  }

  /** lora_parse_packet: the check comes first, then the length must fit exactly. */
  function LoraParse(wire: seq<byte>): LoraResult {
    if |wire| < LORA_OVERHEAD then CrcFail
    else
      var n := |wire| - 2;
      if Join(wire[n + 1], wire[n]) != Crc(Ccitt, wire[..n]) then CrcFail
      else if |wire| != LORA_OVERHEAD + Index(wire[6]) then CrcFail
      else LoraOk(Packet(Read2(wire, 0), Read2(wire, 2), wire[4], wire[5], wire[7], wire[8..n]))
  }

  lemma ReadByteOf(v: U16, s: seq<byte>, at: nat)
    requires at + 2 <= |s| && s[at] == ByteOf(v, 0) && s[at + 1] == ByteOf(v, 1)
    ensures Read2(s, at) == v
  {
    hide Index, ToByte;
    ByteRoundTrip(v % 256);
    ByteRoundTrip(v / 256 % 256);
  }

  lemma LoraParts(p: Packet)
    requires |p.payload| < 256
    ensures var wire, n, crc := LoraBytes(p), 8 + |p.payload|, Crc(Ccitt, LoraBody(p));
            && wire[0] == ByteOf(p.dest, 0) && wire[1] == ByteOf(p.dest, 1)
            && wire[2] == ByteOf(p.src, 0) && wire[3] == ByteOf(p.src, 1)
            && wire[4] == p.seqNum && wire[5] == p.msgType && Index(wire[6]) == |p.payload| && wire[7] == p.flags
            && wire[8..n] == p.payload && wire[..n] == LoraBody(p)
            && wire[n] == LowByte(crc) && wire[n + 1] == HighByte(crc)
  {
    hide Crc, HighByte, LowByte, Index, ToByte, ByteOf;
    ByteRoundTrip(|p.payload|);
  }

  lemma LoraRoundTrip(p: Packet)
    requires |p.payload| < 256
    ensures LoraParse(LoraBytes(p)) == LoraOk(p)
  {
    hide Crc, HighByte, LowByte, Join, Index, ToByte, ByteOf, LoraBytes, Read2;
    LoraParts(p);
    JoinBytes(Crc(Ccitt, LoraBody(p)));
    ReadByteOf(p.dest, LoraBytes(p), 0);
    ReadByteOf(p.src, LoraBytes(p), 2);
  }

  lemma ByteOfRead(s: seq<byte>, at: nat)
    requires at + 2 <= |s|
    ensures ByteOf(Read2(s, at), 0) == s[at] && ByteOf(Read2(s, at), 1) == s[at + 1]
  {
    hide Index, ToByte;
    IndexRoundTrip(s[at]);
    IndexRoundTrip(s[at + 1]);
  }

  /** A packet is accepted only if its encoding is exactly what was received. */
  lemma LoraParseSound(wire: seq<byte>)
    requires LoraParse(wire).LoraOk?
    ensures var p := LoraParse(wire).packet; |p.payload| < 256 && LoraBytes(p) == wire
  {
    hide Crc, HighByte, LowByte, Join, Index, ToByte, ByteOf, Read2;
    var p, n := LoraParse(wire).packet, |wire| - 2;
    IndexRoundTrip(wire[6]);
    ByteOfRead(wire, 0);
    ByteOfRead(wire, 2);
    assert wire[..n] == LoraBody(p);
    BytesOfJoin(wire[n + 1], wire[n]);
    assert wire == wire[..n] + [wire[n], wire[n + 1]];
  }

  /** Any change confined to two neighbouring bytes under the check is rejected, in the length field too. */
  lemma LoraBurstRejected(p: Packet, wire: seq<byte>, i: nat)
    requires |p.payload| < 256 && wire != LoraBytes(p)
    requires i + 2 <= 8 + |p.payload| && BurstAt(LoraBytes(p), wire, i)
    ensures LoraParse(wire) == CrcFail
  {
    hide Crc, HighByte, LowByte, Join, Index, Read2, LoraBytes;
    var good, n := LoraBytes(p), 8 + |p.payload|;
    LoraParts(p);
    BurstInside(good, wire, 0, n, i);
    assert good[0..n] == good[..n] && wire[0..n] == wire[..n];
    BurstDetected(Ccitt, good[..n], wire[..n], i);
    JoinBytes(Crc(Ccitt, LoraBody(p)));
  }

  /** What is put on the air for a header that announces n bytes of payload and these bytes after it. */
  function LoraWire(p: Packet, n: U8): (s: seq<byte>)
    ensures |s| == LORA_OVERHEAD + |p.payload|
  {
    var body := LoraHeader(p, n) + p.payload;
    var crc := Crc(Ccitt, body);
    body + [LowByte(crc), HighByte(crc)]
  }

  /** It is accepted exactly when as many bytes follow as announced. */
  lemma LoraWireAccepted(p: Packet, n: U8)
    ensures LoraParse(LoraWire(p, n)).LoraOk? <==> |p.payload| == n
  {
    hide Crc, HighByte, LowByte, Join, Index, ToByte, ByteOf, Read2;
    var wire, m := LoraWire(p, n), 8 + |p.payload|;
    ByteRoundTrip(n);
    assert wire[..m] == LoraHeader(p, n) + p.payload && Index(wire[6]) == n;
    JoinBytes(Crc(Ccitt, wire[..m]));
  }

  lemma LoraBytesIsWire(p: Packet)
    requires |p.payload| < 256
    ensures LoraBytes(p) == LoraWire(p, |p.payload|)
  {
  }

  /** lora_build_packet; flags are zero.  Without a payload the announced length still goes into the header. */
  method LoraBuild(out: array<byte>, dest: U16, src: U16, seqNum: byte, msgType: byte, payload: Option<seq<byte>>, n: U8)
    returns (len: nat)
    requires payload.Some? ==> |payload.value| == n
    requires LORA_OVERHEAD + n <= out.Length
    modifies out
    ensures var p := Packet(dest, src, seqNum, msgType, 0, payload.GetOr([]));
            && len == LORA_OVERHEAD + |p.payload| && out[len..] == old(out[len..])
            && out[..len] == LoraWire(p, n)
            && (LoraParse(out[..len]) == LoraOk(p) <==> payload.Some? || n == 0)
  {
    hide Crc, HighByte, LowByte, Splice, ToByte, ByteOf, LoraParse;
    ghost var out0, p := out[..], Packet(dest, src, seqNum, msgType, 0, payload.GetOr([]));
    var header := [ByteOf(dest, 0), ByteOf(dest, 1), ByteOf(src, 0), ByteOf(src, 1), seqNum, msgType, ToByte(n), 0];
    var pos := Write(out, 0, header, [], out0);
    assert [] + header == header;
    if payload.Some? && n > 0 {
      pos := Write(out, pos, payload.value, header, out0);
    } else {
      assert header + p.payload == header;
    }
    var crc := CcittCrc(out[..pos]);
    pos := Write(out, pos, [LowByte(crc), HighByte(crc)], header + p.payload, out0);
    LoraWireAccepted(p, n);
    if |p.payload| == n {
      LoraBytesIsWire(p);
      LoraRoundTrip(p);
    }
    return pos;
  }

  /** lora_parse_packet; counted says whether the error counter goes up, which a wrong length does not cause. */
  method LoraParsePacket(wire: seq<byte>) returns (r: LoraResult, counted: bool)
    ensures r == LoraParse(wire)
    ensures counted <==> |wire| >= LORA_OVERHEAD && Join(wire[|wire| - 1], wire[|wire| - 2]) != Crc(Ccitt, wire[..|wire| - 2])
  {
    hide Crc, Join, Index, Read2;
    counted := false;
    if |wire| < LORA_OVERHEAD {
      return CrcFail, counted;
    }
    var n := |wire| - 2;
    var received := Join(wire[n + 1], wire[n]);
    var computed := CcittCrc(wire[..n]);
    if received != computed {
      return CrcFail, true;
    }
    if |wire| != LORA_OVERHEAD + Index(wire[6]) {
      return CrcFail, counted;
    }
    return LoraOk(Packet(Read2(wire, 0), Read2(wire, 2), wire[4], wire[5], wire[7], wire[8..n])), counted;
  }
}
