/** The batch frame between Gateway and Hub: header, entries and authentication tag on the wire. */
module BatchCodec {
  import opened Arith
  import opened Bytes
  import opened GaloisField
  import opened Counter
  import opened LittleEndian
  import opened Words

  const MAGIC := 0xB7
  const HEADER_SIZE := 8
  const ENTRY_SIZE := 7
  const HMAC_SIZE := 32
  const MAX_ENTRIES := 22
  const MAX_FRAME := HEADER_SIZE + MAX_ENTRIES * ENTRY_SIZE + HMAC_SIZE

  datatype Header = Header(magic: U8, version: U8, entryCount: U8, flags: U8, sequence: U32)

  datatype Entry = Entry(nodeId: U16, metricId: U8, value: Word)

  datatype Frame = Frame(header: Header, entries: seq<Entry>)

  // ---------------------------------------------------------------- the format

  function EncodeHeader(h: Header): (s: seq<byte>)
    ensures |s| == HEADER_SIZE
  {
    [ToByte(h.magic), ToByte(h.version), ToByte(h.entryCount), ToByte(h.flags)] + LeBytes(4, h.sequence)
  }

  function EncodeEntry(e: Entry): (s: seq<byte>)
    ensures |s| == ENTRY_SIZE
  {
    LeBytes(2, e.nodeId) + [ToByte(e.metricId)] + e.value
  }

  function EncodeEntries(es: seq<Entry>): (s: seq<byte>)
    ensures |s| == ENTRY_SIZE * |es|
  {
    if es == [] then [] else EncodeEntries(es[..|es| - 1]) + EncodeEntry(es[|es| - 1])
  }

  /** Everything up to the authentication tag. */
  function EncodeBody(h: Header, es: seq<Entry>): (s: seq<byte>)
    ensures |s| == HEADER_SIZE + ENTRY_SIZE * |es|
  {
    EncodeHeader(h) + EncodeEntries(es)
  }

  function DecodeEntry(s: seq<byte>): Entry
    requires |s| == ENTRY_SIZE
  {
    Entry(Number2(s[..2]), Index(s[2]), s[3..])
  }

  /** The first n entries of the bytes from offset at. */
  function DecodeEntries(wire: seq<byte>, at: nat, n: nat): (es: seq<Entry>)
    requires at + ENTRY_SIZE * n <= |wire|
    ensures |es| == n
  {
    seq(n, i requires 0 <= i < n => DecodeEntry(wire[at + ENTRY_SIZE * i..at + ENTRY_SIZE * i + ENTRY_SIZE]))
  }

  /** What batch_decode_frame_untrusted makes of a byte sequence. */
  function Decode(wire: seq<byte>, maxEntries: U8): Option<Frame> {
    if |wire| < 4 || Index(wire[0]) != MAGIC then None
    else
      var count := Index(wire[2]);
      if Index(wire[1]) == 1 then
        if |wire| < 4 + ENTRY_SIZE * count then None
        else Some(Frame(Header(MAGIC, 1, count, Index(wire[3]), 0), DecodeEntries(wire, 4, Min(count, maxEntries))))
      else if Index(wire[1]) != 2 || |wire| < HEADER_SIZE + HMAC_SIZE + ENTRY_SIZE * count then None
      else
        Some(Frame(Header(MAGIC, 2, count, Index(wire[3]), Number4(wire[4..8])),
                   DecodeEntries(wire, HEADER_SIZE, Min(count, maxEntries))))
  }

  // ---------------------------------------------------------------- decode after encode

  lemma EntryRoundTrip(e: Entry)
    ensures DecodeEntry(EncodeEntry(e)) == e
  {
    hide LeBytes, LeNat, ToByte, Index, Pow256;
    WidthPowers();
    LeRoundTrip(2, e.nodeId);
    ByteRoundTrip(e.metricId);
    var s := EncodeEntry(e);
    assert s[..2] == LeBytes(2, e.nodeId) && s[2] == ToByte(e.metricId) && s[3..] == e.value;
  }

  lemma SliceLeft(a: seq<byte>, b: seq<byte>, lo: nat, hi: nat)
    requires lo <= hi <= |a|
    ensures (a + b)[lo..hi] == a[lo..hi]
  {
  }

  lemma SliceRight(a: seq<byte>, b: seq<byte>, lo: nat, hi: nat)
    requires lo <= hi <= |b|
    ensures (a + b)[|a| + lo..|a| + hi] == b[lo..hi]
  {
  }

  lemma {:induction false} EntryAt(es: seq<Entry>, i: nat)
    requires i < |es|
    ensures EncodeEntries(es)[ENTRY_SIZE * i..ENTRY_SIZE * i + ENTRY_SIZE] == EncodeEntry(es[i])
    decreases |es|
  {
    hide EncodeEntry;
    var n := |es| - 1;
    var a, b := EncodeEntries(es[..n]), EncodeEntry(es[n]);
    if i < n {
      EntryAt(es[..n], i);
      SliceLeft(a, b, ENTRY_SIZE * i, ENTRY_SIZE * i + ENTRY_SIZE);
    } else {
      SliceRight(a, b, 0, ENTRY_SIZE);
      assert b[0..ENTRY_SIZE] == b;
    }
  }

  lemma EntryInFrame(front: seq<byte>, es: seq<Entry>, back: seq<byte>, i: nat)
    requires i < |es|
    ensures var wire, at := front + EncodeEntries(es) + back, |front| + ENTRY_SIZE * i;
            DecodeEntry(wire[at..at + ENTRY_SIZE]) == es[i]
  {
    hide EncodeEntry, DecodeEntry, EncodeEntries;
    EntryAt(es, i);
    EntryRoundTrip(es[i]);
    SliceRight(front, EncodeEntries(es), ENTRY_SIZE * i, ENTRY_SIZE * i + ENTRY_SIZE);
    SliceLeft(front + EncodeEntries(es), back, |front| + ENTRY_SIZE * i, |front| + ENTRY_SIZE * i + ENTRY_SIZE);
  }

  lemma EntriesRoundTrip(front: seq<byte>, es: seq<Entry>, back: seq<byte>, n: nat)
    requires n <= |es|
    ensures DecodeEntries(front + EncodeEntries(es) + back, |front|, n) == es[..n]
  {
    hide EncodeEntry, DecodeEntry, EncodeEntries;
    forall i | 0 <= i < n ensures DecodeEntries(front + EncodeEntries(es) + back, |front|, n)[i] == es[i] {
      EntryInFrame(front, es, back, i);
    }
  }

  /** A version 2 frame decodes to its header and its entries, whatever the tag. */
  lemma FrameRoundTrip(h: Header, es: seq<Entry>, tag: seq<byte>, maxEntries: U8)
    requires h.magic == MAGIC && h.version == 2 && h.entryCount == |es| && |tag| == HMAC_SIZE
    ensures Decode(EncodeBody(h, es) + tag, maxEntries) == Some(Frame(h, es[..Min(|es|, maxEntries)]))
  {
    hide LeBytes, LeNat, ToByte, Index, Pow256, EncodeEntries, DecodeEntries;
    WidthPowers();
    LeRoundTrip(4, h.sequence);
    ByteRoundTrip(h.magic); ByteRoundTrip(h.version); ByteRoundTrip(h.entryCount); ByteRoundTrip(h.flags);
    var wire := EncodeBody(h, es) + tag;
    assert wire[4..8] == LeBytes(4, h.sequence);
    assert wire[0] == ToByte(h.magic) && wire[1] == ToByte(h.version) && wire[2] == ToByte(h.entryCount) && wire[3] == ToByte(h.flags);
    EntriesRoundTrip(EncodeHeader(h), es, tag, Min(|es|, maxEntries));
  }

  // ---------------------------------------------------------------- encode after decode

  lemma EntryOfBytes(s: seq<byte>)
    requires |s| == ENTRY_SIZE
    ensures EncodeEntry(DecodeEntry(s)) == s
  {
    hide LeBytes, LeNat, ToByte, Index;
    LeBytesOfNat(s[..2]);
    IndexRoundTrip(s[2]);
    assert s == s[..2] + [s[2]] + s[3..];
  }

  /** What was decoded, encoded again, is what stood on the wire. */
  lemma {:induction false} EntriesOnWire(wire: seq<byte>, at: nat, n: nat)
    requires at + ENTRY_SIZE * n <= |wire|
    ensures EncodeEntries(DecodeEntries(wire, at, n)) == wire[at..at + ENTRY_SIZE * n]
  {
    hide EncodeEntry, DecodeEntry;
    if n > 0 {
      EntriesOnWire(wire, at, n - 1);
      var es, mid := DecodeEntries(wire, at, n), at + ENTRY_SIZE * (n - 1);
      assert es[..n - 1] == DecodeEntries(wire, at, n - 1);
      EntryOfBytes(wire[mid..mid + ENTRY_SIZE]);
      assert wire[at..at + ENTRY_SIZE * n] == wire[at..mid] + wire[mid..mid + ENTRY_SIZE];
    }
  }

  /** The entries decoded are these exactly when their encoding is what stands on the wire. */
  lemma DecodesExactly(wire: seq<byte>, at: nat, es: seq<Entry>)
    requires at + ENTRY_SIZE * |es| <= |wire|
    ensures DecodeEntries(wire, at, |es|) == es <==> wire[at..at + ENTRY_SIZE * |es|] == EncodeEntries(es)
  {
    hide EncodeEntries, DecodeEntries;
    var end := at + ENTRY_SIZE * |es|;
    EntriesOnWire(wire, at, |es|);
    if wire[at..end] == EncodeEntries(es) {
      assert wire == wire[..at] + EncodeEntries(es) + wire[end..];
      EntriesRoundTrip(wire[..at], es, wire[end..], |es|);
      assert es[..|es|] == es;
    }
  }

  /** The part of the header that a version puts before its entries. */
  function HeaderOnWire(h: Header): seq<byte> {
    if h.version == 1 then EncodeHeader(h)[..4] else EncodeHeader(h)
  }

  /** A frame is accepted only if its header and its entries are what the wire starts with. */
  lemma DecodeSound(wire: seq<byte>, maxEntries: U8)
    requires Decode(wire, maxEntries).Some?
    ensures var f := Decode(wire, maxEntries).value;
            && |f.entries| == Min(f.header.entryCount, maxEntries)
            && HeaderOnWire(f.header) + EncodeEntries(f.entries) <= wire
            && (f.header.version == 2 ==> EncodeBody(f.header, f.entries) <= wire)
  {
    hide LeBytes, LeNat, ToByte, Index, EncodeEntries, DecodeEntries;
    var f := Decode(wire, maxEntries).value;
    var h, n := f.header, |f.entries|;
    IndexRoundTrip(wire[0]); IndexRoundTrip(wire[1]); IndexRoundTrip(wire[2]); IndexRoundTrip(wire[3]);
    var front := if h.version == 1 then 4 else HEADER_SIZE;
    if h.version == 2 {
      LeBytesOfNat(wire[4..8]);
      assert wire[..8] == wire[..4] + wire[4..8];
    }
    assert wire[..4] == [wire[0], wire[1], wire[2], wire[3]];
    assert HeaderOnWire(h) == wire[..front];
    EntriesOnWire(wire, front, n);
    assert wire[..front] + wire[front..front + ENTRY_SIZE * n] == wire[..front + ENTRY_SIZE * n];
  }

  // ---------------------------------------------------------------- version 1

  /** Byte k of the entries is byte k mod 4 of the sequence number. */
  ghost predicate RepeatsSequence(sequence: U32, s: seq<byte>, n: nat)
    requires n <= |s|
  {
    forall k: nat :: k < n ==> s[k] == LeBytes(4, sequence)[k % 4]
  }

  /** Shifting by four bytes leaves a sequence as it is exactly when it repeats those four bytes. */
  lemma {:induction false} ShiftedByFour(sequence: U32, s: seq<byte>, n: nat)
    requires n <= |s|
    ensures (LeBytes(4, sequence) + s)[..n] == s[..n] <==> RepeatsSequence(sequence, s, n)
  {
    hide LeBytes;
    var four := LeBytes(4, sequence);
    if (four + s)[..n] == s[..n] {
      for k := 0 to n
        invariant forall i: nat :: i < k ==> s[i] == four[i % 4]
      {
        assert s[..n][k] == (four + s)[..n][k] == (four + s)[k];
        if k >= 4 {
          assert (four + s)[k] == s[k - 4] && (k - 4) % 4 == k % 4;
        }
      }
    }
    if RepeatsSequence(sequence, s, n) {
      forall k | 0 <= k < n ensures (four + s)[k] == s[k] {
        if k >= 4 {
          assert (k - 4) % 4 == k % 4;
        }
      }
      assert (four + s)[..n] == s[..n];
    }
  }

  lemma {:induction false} EntriesPrefix(es: seq<Entry>, m: nat)
    requires m <= |es|
    ensures EncodeEntries(es[..m]) == EncodeEntries(es)[..ENTRY_SIZE * m]
    decreases |es| - m
  {
    hide EncodeEntry;
    if m == |es| {
      assert es[..m] == es;
    } else {
      EntriesPrefix(es, m + 1);
      assert es[..m + 1][..m] == es[..m];
    }
  }

  /**
   A version 1 frame is encoded with an eight-byte header and decoded with a four-byte one.  It is
   accepted, but its entries come back exactly when they repeat the bytes of the sequence number.
   */
  lemma VersionOneExactly(h: Header, es: seq<Entry>, maxEntries: U8)
    requires h.magic == MAGIC && h.version == 1 && h.entryCount == |es|
    ensures var d, m, s := Decode(EncodeBody(h, es), maxEntries), Min(|es|, maxEntries), EncodeEntries(es);
            && d.Some? && d.value.header == h.(sequence := 0) && |d.value.entries| == m
            && (d.value.entries == es[..m] <==> EncodeEntries(es[..m]) == (LeBytes(4, h.sequence) + s)[..ENTRY_SIZE * m])
            && (d.value.entries == es[..m] <==> RepeatsSequence(h.sequence, s, ENTRY_SIZE * m))
  {
    hide LeBytes, LeNat, ToByte, Index, Pow256, EncodeEntries, DecodeEntries, RepeatsSequence;
    ByteRoundTrip(h.magic); ByteRoundTrip(h.version); ByteRoundTrip(h.entryCount); ByteRoundTrip(h.flags);
    var wire, m := EncodeBody(h, es), Min(|es|, maxEntries);
    assert wire[0] == ToByte(h.magic) && wire[1] == ToByte(h.version) && wire[2] == ToByte(h.entryCount) && wire[3] == ToByte(h.flags);
    var shifted := LeBytes(4, h.sequence) + EncodeEntries(es);
    assert wire[4..] == shifted;
    assert wire[4..4 + ENTRY_SIZE * m] == shifted[..ENTRY_SIZE * m];
    DecodesExactly(wire, 4, es[..m]);
    EntriesPrefix(es, m);
    ShiftedByFour(h.sequence, EncodeEntries(es), ENTRY_SIZE * m);
  }

  /** With its sequence number, a version 1 frame comes back exactly when the number and every entry byte are zero. */
  lemma VersionOneWhole(h: Header, es: seq<Entry>, maxEntries: U8)
    requires h.magic == MAGIC && h.version == 1 && h.entryCount == |es| <= maxEntries
    ensures Decode(EncodeBody(h, es), maxEntries) == Some(Frame(h, es))
            <==> h.sequence == 0 && EncodeEntries(es) == Zeros(ENTRY_SIZE * |es|)
  {
    hide LeBytes, EncodeEntries, Decode, EncodeBody;
    VersionOneExactly(h, es, maxEntries);
    assert es[..|es|] == es;
    if h.sequence == 0 {
      ZeroSequence();
      assert RepeatsSequence(0, EncodeEntries(es), ENTRY_SIZE * |es|) <==> EncodeEntries(es) == Zeros(ENTRY_SIZE * |es|);
    }
  }

  lemma ZeroSequence()
    ensures LeBytes(4, 0) == [0, 0, 0, 0]
  {
    assert LeBytes(4, 0) == [ToByte(0)] + LeBytes(3, 0);
    assert LeBytes(3, 0) == [ToByte(0)] + LeBytes(2, 0);
    assert LeBytes(2, 0) == [ToByte(0)] + LeBytes(1, 0);
    assert LeBytes(1, 0) == [ToByte(0)] + LeBytes(0, 0);
  }

  /** A frame that does not come back: one entry, all of it zero but the metric. */
  lemma VersionOneMisread()
    ensures var es := [Entry(0, 5, Zeros(4))]; Decode(EncodeBody(Header(MAGIC, 1, 1, 0, 0), es), 1).value.entries != es
  {
    hide LeBytes, EncodeEntries, Decode, EncodeBody, ToByte, RepeatsSequence;
    var e := Entry(0, 5, Zeros(4));
    VersionOneExactly(Header(MAGIC, 1, 1, 0, 0), [e], 1);
    FifthByte(e);
  }

  lemma FifthByte(e: Entry)
    requires e.metricId == 5
    ensures |EncodeEntries([e])| == ENTRY_SIZE && !RepeatsSequence(0, EncodeEntries([e]), ENTRY_SIZE)
  {
    ZeroSequence();
    assert [e][..0] == [] && EncodeEntries([]) == [];
    assert EncodeEntries([e])[2] == EncodeEntry(e)[2] == ToByte(5) != 0;
  }

  // ---------------------------------------------------------------- the loops

  /** The length of an encoded frame: version 2 has a place for the tag behind the entries. */
  function FrameLength(version: U8, n: nat): nat {
    HEADER_SIZE + ENTRY_SIZE * n + if version == 2 then HMAC_SIZE else 0
  }

  /**
   batch_encode_frame.  The size test leaves out the tag, so a version 2 frame that fits without it is
   written past the end: the buffer then holds the front of the frame.
   */
  method EncodeFrame(h: Header, es: seq<Entry>, out: array<byte>) returns (ok: bool, len: nat)
    requires |es| < 256
    modifies out
    ensures ok <==> HEADER_SIZE + ENTRY_SIZE * |es| <= out.Length
    ensures !ok ==> unchanged(out)
    ensures ok ==>
      var wire, fits := EncodeBody(h, es) + (if h.version == 2 then Zeros(HMAC_SIZE) else []), Min(len, out.Length);
      && len == FrameLength(h.version, |es|) == |wire|
      && out[..fits] == wire[..fits] && out[fits..] == old(out[fits..])
    ensures ok && len > out.Length <==>
      h.version == 2 && HEADER_SIZE + ENTRY_SIZE * |es| <= out.Length < HEADER_SIZE + ENTRY_SIZE * |es| + HMAC_SIZE
  {
    hide EncodeHeader, EncodeEntry, Splice;
    len := 0;
    if out.Length < HEADER_SIZE + ENTRY_SIZE * |es| {
      return false, len;
    }
    ghost var out0 := out[..];
    PutHeader(h, out);
    assert EncodeEntries([]) == [] && es[..0] == [];
    var pos := HEADER_SIZE;
    for i := 0 to |es|
      invariant pos == HEADER_SIZE + ENTRY_SIZE * i
      invariant out[..pos] == EncodeHeader(h) + EncodeEntries(es[..i]) && out[pos..] == out0[pos..]
    {
      assert es[..i + 1][..i] == es[..i];
      PutEntry(es[i], out, pos, EncodeHeader(h) + EncodeEntries(es[..i]), out0);
      pos := pos + ENTRY_SIZE;
    }
    assert es[..|es|] == es;
    if h.version == 2 {
      PutTag(out, pos, EncodeBody(h, es), out0);
      pos := pos + HMAC_SIZE;
    }
    return true, pos;
  }

  /** memset of the tag's place, as far as it lies within the buffer. */
  method PutTag(out: array<byte>, pos: nat, ghost body: seq<byte>, ghost out0: seq<byte>)
    requires pos == |body| <= out.Length == |out0| && out[..pos] == body && out[pos..] == out0[pos..]
    modifies out
    ensures var fits := Min(pos + HMAC_SIZE, out.Length);
            out[..fits] == (body + Zeros(HMAC_SIZE))[..fits] && out[fits..] == out0[fits..]
  {
    hide Splice;
    var room := Min(HMAC_SIZE, out.Length - pos);
    ghost var was := out[..];
    CopyInto(out, pos, Zeros(room));
    SpliceParts(was, pos, Zeros(room), out[..]);
    assert out[..pos + room] == out[..][..pos + room] == body + Zeros(room);
    assert out[pos + room..] == out[..][pos + room..] == out0[pos..][room..];
    assert (body + Zeros(HMAC_SIZE))[..pos + room] == body + Zeros(room);
  }

  method PutHeader(h: Header, out: array<byte>)
    requires HEADER_SIZE <= out.Length
    modifies out
    ensures out[..HEADER_SIZE] == EncodeHeader(h) && out[HEADER_SIZE..] == old(out[HEADER_SIZE..])
  {
    hide ToByte, ByteOf, LeBytes;
    LittleEndianBytes(h.sequence);
    ghost var out0 := out[..];
    PutFour(out, 0, ToByte(h.magic), ToByte(h.version), ToByte(h.entryCount), ToByte(h.flags));
    PutFour(out, 4, ByteOf(h.sequence, 0), ByteOf(h.sequence, 1), ByteOf(h.sequence, 2), ByteOf(h.sequence, 3));
    assert out[..] == EncodeHeader(h) + out0[8..];
    assert out[..8] == out[..][..8] && out[8..] == out[..][8..];
  }

  method PutFour(out: array<byte>, at: nat, a: byte, b: byte, c: byte, d: byte)
    requires at + 4 <= out.Length
    modifies out
    ensures out[..] == old(out[..at]) + [a, b, c, d] + old(out[at + 4..])
  {
    out[at] := a;
    out[at + 1] := b;
    out[at + 2] := c;
    out[at + 3] := d;
  }

  method PutEntry(e: Entry, out: array<byte>, pos: nat, ghost front: seq<byte>, ghost out0: seq<byte>)
    requires pos + ENTRY_SIZE <= out.Length == |out0| && out[..pos] == front && out[pos..] == out0[pos..]
    modifies out
    ensures out[..pos + ENTRY_SIZE] == front + EncodeEntry(e) && out[pos + ENTRY_SIZE..] == out0[pos + ENTRY_SIZE..]
  {
    hide ToByte, ByteOf, LeBytes, Splice;
    LittleEndianBytes(e.nodeId);
    ghost var was := out[..];
    CopyInto(out, pos, [ByteOf(e.nodeId, 0), ByteOf(e.nodeId, 1), ToByte(e.metricId)] + e.value);
    SpliceParts(was, pos, EncodeEntry(e), out[..]);
    assert out[..pos + ENTRY_SIZE] == out[..][..pos + ENTRY_SIZE] && out[pos + ENTRY_SIZE..] == out[..][pos + ENTRY_SIZE..];
    assert out0[pos..][ENTRY_SIZE..] == out0[pos + ENTRY_SIZE..] == was[pos..][ENTRY_SIZE..];
  }

  /** The bytes of an encoded frame: header, then seven bytes an entry, numbers low byte first. */
  lemma BodyBytes(h: Header, es: seq<Entry>, i: nat)
    requires i < |es|
    ensures var s, at := EncodeBody(h, es), 8 + 7 * i;
            && s[..4] == [ToByte(h.magic), ToByte(h.version), ToByte(h.entryCount), ToByte(h.flags)]
            && s[4..8] == [ToByte(h.sequence % 256), ToByte(h.sequence / 256 % 256),
                           ToByte(h.sequence / 0x1_0000 % 256), ToByte(h.sequence / 0x100_0000 % 256)]
            && s[at..at + 7] == [ToByte(es[i].nodeId % 256), ToByte(es[i].nodeId / 256 % 256), ToByte(es[i].metricId)] + es[i].value
  {
    hide ToByte, LeBytes, EncodeEntries;
    LittleEndianBytes(h.sequence);
    LittleEndianBytes(es[i].nodeId);
    EntryAt(es, i);
    SliceRight(EncodeHeader(h), EncodeEntries(es), 7 * i, 7 * i + 7);
    assert EncodeBody(h, es)[..8] == EncodeHeader(h);
    assert EncodeBody(h, es)[..4] == EncodeHeader(h)[..4] && EncodeBody(h, es)[4..8] == EncodeHeader(h)[4..8];
  }

  /** What is accepted, and what the header then says, from the bytes of the wire. */
  lemma DecodeHeader(wire: seq<byte>, maxEntries: U8)
    ensures var d := Decode(wire, maxEntries);
            && (d.Some? <==> |wire| >= 4 && Index(wire[0]) == 0xB7
                             && (if Index(wire[1]) == 1 then |wire| >= 4 + 7 * Index(wire[2])
                                 else Index(wire[1]) == 2 && |wire| >= 40 + 7 * Index(wire[2])))
            && (d.Some? ==>
                  && d.value.header == Header(0xB7, Index(wire[1]), Index(wire[2]), Index(wire[3]),
                                              if Index(wire[1]) == 1 then 0
                                              else Index(wire[4]) + 256 * Index(wire[5]) + 0x1_0000 * Index(wire[6]) + 0x100_0000 * Index(wire[7]))
                  && |d.value.entries| == if Index(wire[2]) > maxEntries then maxEntries else Index(wire[2]))
  {
    hide Index, LeNat, DecodeEntries;
    if |wire| >= 40 {
      ReadDigits(wire[4..8]);
    }
  }

  /** Entry i of an accepted frame, from its seven bytes. */
  lemma DecodedEntry(wire: seq<byte>, maxEntries: U8, i: nat)
    requires Decode(wire, maxEntries).Some? && i < |Decode(wire, maxEntries).value.entries|
    ensures var e, at := Decode(wire, maxEntries).value.entries[i], (if Index(wire[1]) == 1 then 4 else 8) + 7 * i;
            && at + 7 <= |wire|
            && e.nodeId == Index(wire[at]) + 256 * Index(wire[at + 1]) && e.metricId == Index(wire[at + 2]) && e.value == wire[at + 3..at + 7]
  {
    hide Index, LeNat;
    var at := (if Index(wire[1]) == 1 then 4 else 8) + 7 * i;
    var piece := wire[at..at + 7];
    ReadDigits(piece[..2]);
  }

  /** batch_decode_frame_untrusted; maxEntries is the room in the caller's array. */
  method DecodeFrame(wire: seq<byte>, out: array<Entry>, maxEntries: U8) returns (ok: bool, h: Header, count: nat)
    requires maxEntries <= out.Length
    modifies out
    ensures ok <==> Decode(wire, maxEntries).Some?
    ensures ok ==> count <= out.Length && Decode(wire, maxEntries) == Some(Frame(h, out[..count]))
  {
    hide DecodeEntries, Index, Number4;
    h, count := Header(0, 0, 0, 0, 0), 0;
    if |wire| < 4 {
      return false, h, count;
    }
    h := Header(Index(wire[0]), Index(wire[1]), Index(wire[2]), Index(wire[3]), 0);
    if h.magic != MAGIC {
      return false, h, count;
    }
    if h.version == 1 {
      if |wire| < 4 + h.entryCount * ENTRY_SIZE {
        return false, h, count;
      }
      count := if h.entryCount > maxEntries then maxEntries else h.entryCount;
      ParseEntries(wire, 4, out, count);
      return true, h, count;
    }
    if h.version != 2 {
      return false, h, count;
    }
    if |wire| < HEADER_SIZE {
      return false, h, count;
    }
    h := h.(sequence := Read4(wire, 4));
    var entriesAndHmac := |wire| - HEADER_SIZE;
    if entriesAndHmac < HMAC_SIZE {
      return false, h, count;
    }
    if entriesAndHmac - HMAC_SIZE < h.entryCount * ENTRY_SIZE {
      return false, h, count;
    }
    count := if h.entryCount > maxEntries then maxEntries else h.entryCount;
    ParseEntries(wire, HEADER_SIZE, out, count);
    return true, h, count;
  }

  /** The loop over the entries. */
  method ParseEntries(wire: seq<byte>, at: nat, out: array<Entry>, count: nat)
    requires at + ENTRY_SIZE * count <= |wire| && count <= out.Length
    modifies out
    ensures out[..count] == DecodeEntries(wire, at, count)
  {
    hide Index, LeNat, Number2;
    var pos := at;
    for i := 0 to count
      invariant pos == at + ENTRY_SIZE * i
      invariant forall k :: 0 <= k < i ==> out[k] == DecodeEntry(wire[at + ENTRY_SIZE * k..at + ENTRY_SIZE * k + ENTRY_SIZE])
    {
      ghost var piece := wire[pos..pos + ENTRY_SIZE];
      assert piece[..2] == wire[pos..pos + 2] && piece[2] == wire[pos + 2] && piece[3..] == wire[pos + 3..pos + 7];
      out[i] := Entry(Read2(wire, pos), Index(wire[pos + 2]), wire[pos + 3..pos + 7]);
      pos := pos + ENTRY_SIZE;
    }
  }
}
