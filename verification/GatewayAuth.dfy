/** Frame authentication between Gateway and Hub, sequence tracking, and the Hub's trust in edge nodes. */
module GatewayAuth {
  import opened Bytes
  import opened GaloisField
  import opened BatchCodec
  import opened Transport
  import opened Words

  const TRACKER_MAX := 32
  const DEFAULT_EXPIRY_MS := 24 * 60 * 60 * 1000

  type SessionKey = Digest

  datatype AuthState = Uninit | Idle | Authenticated | Failed

  datatype FrameResult = FrameOk | HmacMismatch | NotAuthenticated | FrameParamNull

  // ---------------------------------------------------------------- the Gateway's side

  class AuthContext {
    const sessionKey: SessionKey
    var txSequence: U32
    var state: AuthState

    /** gateway_auth_init */
    constructor (key: SessionKey)
      ensures sessionKey == key && txSequence == 0 && state == Idle
    {
      sessionKey, txSequence, state := key, 0, Idle;
    }

    /** gateway_sign_frame */
    method Sign(hmac: Hmac, frame: seq<byte>) returns (ok: bool, tag: Digest)
      ensures ok <==> state == Authenticated && frame != []
      ensures ok ==> tag == hmac(sessionKey, frame)
    {
      tag := Zeros(32);
      if state != Authenticated || frame == [] {
        return false, tag;
      }
      return true, hmac(sessionKey, frame);
    }

    /** gateway_advance_sequence */
    method AdvanceSequence()
      modifies this`txSequence
      ensures txSequence == Successor(old(txSequence))
    {
      txSequence := (txSequence + 1) % U32_MODULUS;
    }

    /** gateway_set_state */
    method SetState(s: AuthState)
      modifies this`state
      ensures state == s
    {
      state := s;
    }
  }

  // ---------------------------------------------------------------- the Hub's trust in edge nodes

  datatype TrustEntry = TrustEntry(nodeId: U8, attested: bool, attestedAt: U64, active: bool)

  /** The first active entry of a node decides; a time of zero leaves the expiry out. */
  predicate TrustedIn(es: seq<TrustEntry>, expiry: U64, node: U8, now: U64) {
    if es == [] then false
    else if es[0].active && es[0].nodeId == node then
      es[0].attested && (now == 0 || expiry == 0 || Sub64(now, es[0].attestedAt) <= expiry)
    else TrustedIn(es[1..], expiry, node, now)
  }

  lemma {:induction false} TrustedSkip(es: seq<TrustEntry>, expiry: U64, node: U8, now: U64, i: nat)
    requires i <= |es| && forall j :: 0 <= j < i ==> !(es[j].active && es[j].nodeId == node)
    ensures TrustedIn(es, expiry, node, now) == TrustedIn(es[i..], expiry, node, now)
  {
    if i > 0 {
      TrustedSkip(es[1..], expiry, node, now, i - 1);
      assert es[1..][i - 1..] == es[i..];
    } else {
      assert es[0..] == es;
    }
  }

  lemma {:induction false} TrustedUpdate(es: seq<TrustEntry>, i: nat, e: TrustEntry, expiry: U64, node: U8, now: U64)
    requires i < |es| && e.active && es[i].active && e.nodeId == es[i].nodeId != node
    ensures TrustedIn(es[i := e], expiry, node, now) == TrustedIn(es, expiry, node, now)
    decreases |es|
  {
    if i > 0 {
      TrustedUpdate(es[1..], i - 1, e, expiry, node, now);
      assert es[i := e][1..] == es[1..][i - 1 := e];
    } else {
      assert es[i := e][1..] == es[1..];
    }
  }

  lemma {:induction false} TrustedAppend(es: seq<TrustEntry>, e: TrustEntry, expiry: U64, node: U8, now: U64)
    requires e.nodeId != node
    ensures TrustedIn(es + [e], expiry, node, now) == TrustedIn(es, expiry, node, now)
    decreases |es|
  {
    if es == [] {
      assert (es + [e])[1..] == [];
    } else {
      TrustedAppend(es[1..], e, expiry, node, now);
      assert (es + [e])[1..] == es[1..] + [e];
    }
  }

  class EdgeTracker {
    const entries: array<TrustEntry>
    var count: nat
    const expiryMs: U64

    predicate Valid()
      reads this, entries
    {
      entries.Length == TRACKER_MAX && count <= TRACKER_MAX
    }

    ghost function Entries(): seq<TrustEntry>
      requires Valid()
      reads this, entries
    {
      entries[..count]
    }

    /** Whether the Hub takes data from a node; ingestion asks with a time of zero. */
    ghost predicate Trusts(node: U8, now: U64)
      requires Valid()
      reads this, entries
    {
      TrustedIn(Entries(), expiryMs, node, now)
    }

    ghost predicate Listed(node: U8)
      requires Valid()
      reads this, entries
    {
      exists i :: 0 <= i < count && entries[i].active && entries[i].nodeId == node
    }

    /** edge_tracker_init */
    constructor (expiry: U64)
      ensures Valid() && count == 0 && expiryMs == (if expiry > 0 then expiry else DEFAULT_EXPIRY_MS) && fresh(entries)
    {
      entries := new TrustEntry[TRACKER_MAX](_ => TrustEntry(0, false, 0, false));
      count, expiryMs := 0, if expiry > 0 then expiry else DEFAULT_EXPIRY_MS;
    }

    /** edge_tracker_attest; verified is the outcome of attestation_verify for the responding node. */
    method Attest(verified: bool, node: U8, now: U64) returns (ok: bool)
      requires Valid()
      modifies this`count, entries
      ensures Valid()
      ensures ok ==> verified && forall t: U64 :: Trusts(node, t) <==> t == 0 || expiryMs == 0 || Sub64(t, now) <= expiryMs
      ensures !verified ==> !ok
      ensures verified ==> (ok <==> old(Listed(node)) || old(count) < TRACKER_MAX)
      ensures !ok ==> Entries() == old(Entries())
      ensures forall m: U8, t: U64 :: m != node ==> Trusts(m, t) == old(Trusts(m, t))
    {
      hide TrustedIn, Sub64;
      if !verified {
        return false;
      }
      ghost var es := Entries();
      for i := 0 to count
        invariant Entries() == es && count == |es|
        invariant forall j :: 0 <= j < i ==> !(es[j].active && es[j].nodeId == node)
      {
        if entries[i].active && entries[i].nodeId == node {
          ghost var e := es[i].(attested := true, attestedAt := now);
          entries[i] := entries[i].(attested := true, attestedAt := now);
          assert Entries() == es[i := e];
          TrustedSince(es[i := e], expiryMs, node, now, i);
          forall m: U8, t: U64 | m != node ensures TrustedIn(es[i := e], expiryMs, m, t) == TrustedIn(es, expiryMs, m, t) {
            TrustedUpdate(es, i, e, expiryMs, m, t);
          }
          return true;
        }
      }
      if count >= TRACKER_MAX {
        return false;
      }
      ghost var e := TrustEntry(node, true, now, true);
      entries[count] := TrustEntry(node, true, now, true);
      count := count + 1;
      assert Entries() == es + [e];
      TrustedSince(es + [e], expiryMs, node, now, |es|);
      forall m: U8, t: U64 | m != node ensures TrustedIn(es + [e], expiryMs, m, t) == TrustedIn(es, expiryMs, m, t) {
        TrustedAppend(es, e, expiryMs, m, t);
      }
      return true;
    }

    /** edge_tracker_is_trusted */
    method IsTrusted(node: U8, now: U64) returns (trusted: bool)
      requires Valid()
      ensures trusted == Trusts(node, now)
      ensures trusted <==>
        exists i :: 0 <= i < count && entries[i].active && entries[i].nodeId == node
          && (forall j :: 0 <= j < i ==> !(entries[j].active && entries[j].nodeId == node))
          && entries[i].attested && (now == 0 || expiryMs == 0 || Sub64(now, entries[i].attestedAt) <= expiryMs)
    {
      hide TrustedIn;
      for i := 0 to count
        invariant forall j :: 0 <= j < i ==> !(Entries()[j].active && Entries()[j].nodeId == node)
      {
        if entries[i].active && entries[i].nodeId == node {
          TrustedSkip(Entries(), expiryMs, node, now, i);
          TrustedFirst(Entries()[i..], expiryMs, node, now);
          assert Entries()[i..][0] == entries[i];
          if !entries[i].attested {
            return false;
          }
          if now > 0 && expiryMs > 0 {
            if Sub64(now, entries[i].attestedAt) > expiryMs {
              return false;
            }
          }
          return true;
        }
      }
      TrustedSkip(Entries(), expiryMs, node, now, count);
      TrustedNone(expiryMs, node, now);
      assert Entries()[count..] == [];
      return false;
    }
  }

  lemma TrustedFirst(es: seq<TrustEntry>, expiry: U64, node: U8, now: U64)
    requires es != [] && es[0].active && es[0].nodeId == node
    ensures TrustedIn(es, expiry, node, now)
            == (es[0].attested && (now == 0 || expiry == 0 || Sub64(now, es[0].attestedAt) <= expiry))
  {
  }

  /** An attested node is trusted until its trust expires, counted from the attestation. */
  lemma TrustedSince(es: seq<TrustEntry>, expiry: U64, node: U8, now: U64, i: nat)
    requires i < |es| && forall j :: 0 <= j < i ==> !(es[j].active && es[j].nodeId == node)
    requires es[i] == TrustEntry(node, true, now, true)
    ensures forall t: U64 :: TrustedIn(es, expiry, node, t) <==> t == 0 || expiry == 0 || Sub64(t, now) <= expiry
  {
    hide TrustedIn, Sub64;
    forall t: U64 ensures TrustedIn(es, expiry, node, t) <==> t == 0 || expiry == 0 || Sub64(t, now) <= expiry {
      TrustedSkip(es, expiry, node, t, i);
      TrustedFirst(es[i..], expiry, node, t);
    }
  }

  lemma TrustedNone(expiry: U64, node: U8, now: U64)
    ensures !TrustedIn([], expiry, node, now)
  {
  }

  // ---------------------------------------------------------------- the Hub's side

  /** What gateway_verify_frame answers. */
  function Verified(hmac: Hmac, key: SessionKey, authenticated: bool, frame: seq<byte>): FrameResult {
    if !authenticated then NotAuthenticated
    else if |frame| < 4 then FrameParamNull
    else if Index(frame[1]) != 2 then HmacMismatch
    else if |frame| < HEADER_SIZE + HMAC_SIZE then FrameParamNull
    else if frame[|frame| - HMAC_SIZE..] == hmac(key, frame[..|frame| - HMAC_SIZE]) then FrameOk
    else HmacMismatch
  }

  /** Accepted is exactly a version 2 frame of at least 40 bytes that ends in the HMAC of what precedes it. */
  lemma VerifiedIs(hmac: Hmac, key: SessionKey, authenticated: bool, frame: seq<byte>)
    ensures var r := Verified(hmac, key, authenticated, frame);
            && (r == NotAuthenticated <==> !authenticated)
            && (r == FrameParamNull <==> authenticated && (|frame| < 4 || (frame[1] == 2 && |frame| < 40)))
            && (r == FrameOk <==> authenticated && |frame| >= 40 && frame[1] == 2 && frame[|frame| - 32..] == hmac(key, frame[..|frame| - 32]))
  {
    IsTwo();
    if |frame| >= 4 {
      IndexRoundTrip(frame[1]);
    }
  }

  lemma IsTwo()
    ensures Index(2) == 2 && ToByte(2) == 2
  {
  }

  /** The entries of a decoded frame the Hub hands on: those of trusted nodes, by the low byte of the id. */
  function Trusted(es: seq<Entry>, trusts: U8 -> bool): (r: seq<Entry>)
    ensures |r| <= |es|
  {
    if es == [] then []
    else
      var r, e := Trusted(es[..|es| - 1], trusts), es[|es| - 1];
      if trusts(e.nodeId % 256) then r + [e] else r
  }

  lemma TrustedNext(es: seq<Entry>, trusts: U8 -> bool, i: nat)
    requires i < |es|
    ensures Trusted(es[..i + 1], trusts)
            == if trusts(es[i].nodeId % 256) then Trusted(es[..i], trusts) + [es[i]] else Trusted(es[..i], trusts)
  {
    assert es[..i + 1][..i] == es[..i];
  }

  class GatewayTracker {
    const sessionKey: SessionKey
    var lastSequence: U32
    var sequenceInitialised: bool
    var authenticated: bool

    /** gateway_tracker_init */
    constructor (key: SessionKey)
      ensures sessionKey == key && !sequenceInitialised && !authenticated && lastSequence == 0
    {
      sessionKey, lastSequence, sequenceInitialised, authenticated := key, 0, false, false;
    }

    /** gateway_verify_frame: the tag is compared without stopping at the first difference. */
    method Verify(hmac: Hmac, frame: seq<byte>) returns (result: FrameResult)
      ensures result == Verified(hmac, sessionKey, authenticated, frame)
      ensures result == FrameOk <==>
        authenticated && |frame| >= 40 && frame[1] == 2 && frame[|frame| - 32..] == hmac(sessionKey, frame[..|frame| - 32])
      ensures result == NotAuthenticated <==> !authenticated
      ensures result == FrameParamNull <==> authenticated && (|frame| < 4 || (frame[1] == 2 && |frame| < 40))
    {
      VerifiedIs(hmac, sessionKey, authenticated, frame);
      if !authenticated {
        return NotAuthenticated;
      }
      if |frame| < 4 {
        return FrameParamNull;
      }
      if Index(frame[1]) != 2 {
        return HmacMismatch;
      }
      if |frame| < 4 + 4 + 32 {
        return FrameParamNull;
      }
      var received := frame[|frame| - HMAC_SIZE..];
      var expected := hmac(sessionKey, frame[..|frame| - HMAC_SIZE]);
      var diff: byte := 0;
      for i := 0 to HMAC_SIZE
        invariant diff == 0 <==> received[..i] == expected[..i]
      {
        DifferenceStep(diff, received[i], expected[i]);
        diff := diff | (received[i] ^ expected[i]);
        assert received[..i + 1] == received[..i] + [received[i]] && expected[..i + 1] == expected[..i] + [expected[i]];
      }
      assert received[..HMAC_SIZE] == received && expected[..HMAC_SIZE] == expected;
      if diff != 0 {
        return HmacMismatch;
      }
      return FrameOk;
    }

    /** gateway_tracker_update_sequence */
    method UpdateSequence(sequence: U32)
      modifies this`lastSequence, this`sequenceInitialised
      ensures lastSequence == sequence && sequenceInitialised
    {
      lastSequence, sequenceInitialised := sequence, true;
    }
  }

  lemma DifferenceStep(diff: byte, a: byte, b: byte)
    ensures diff | (a ^ b) == 0 <==> diff == 0 && a == b
  {
  }

  /**
   gateway_ingest_frame: verify, decode, note the sequence number, then hand on the entries of trusted
   nodes as far as they fit.  Without a tracker the frame is refused, unless checking is disabled.
   */
  method Ingest(hmac: Hmac, tracker: GatewayTracker, edge: EdgeTracker?, checkDisabled: bool, frame: seq<byte>,
                out: array<Entry>, maxEntries: U8, ghost trusts: U8 -> bool)
    returns (result: FrameResult, header: Header, count: nat)
    requires maxEntries <= out.Length
    requires edge != null && !checkDisabled ==> edge.Valid()
    requires forall n: U8 :: trusts(n) == (checkDisabled || (edge != null && edge.Valid() && edge.Trusts(n, 0)))
    modifies tracker`lastSequence, tracker`sequenceInitialised, out
    ensures var v, d := Verified(hmac, tracker.sessionKey, tracker.authenticated, frame), Decode(frame, MAX_ENTRIES);
            && (v != FrameOk ==> result == v)
            && (v == FrameOk && d == None ==> result == HmacMismatch)
            && (v == FrameOk && d.Some? ==> tracker.lastSequence == d.value.header.sequence && tracker.sequenceInitialised)
            && (v == FrameOk && d.Some? && edge == null && !checkDisabled ==> result == FrameParamNull)
            && (v == FrameOk && d.Some? && (edge != null || checkDisabled) ==>
                  var accepted := Trusted(d.value.entries, trusts);
                  && result == FrameOk && header == d.value.header
                  && count == Min(maxEntries, |accepted|) && out[..count] == accepted[..count])
            && (v != FrameOk || d == None ==>
                  tracker.lastSequence == old(tracker.lastSequence) && tracker.sequenceInitialised == old(tracker.sequenceInitialised))
    ensures result != FrameOk ==> count == 0 && unchanged(out)
    ensures !(tracker.authenticated && |frame| >= 40 && frame[1] == 2
              && frame[|frame| - 32..] == hmac(tracker.sessionKey, frame[..|frame| - 32]))
            ==> result != FrameOk && unchanged(tracker)
  {
    hide Verified, Decode, Trusted, TrustedIn;
    header, count := Header(0, 0, 0, 0, 0), 0;
    result := tracker.Verify(hmac, frame);
    if result != FrameOk {
      return;
    }
    var decoded := new Entry[MAX_ENTRIES](_ => Entry(0, 0, Zeros(4)));
    var ok, h, n := DecodeFrame(frame, decoded, MAX_ENTRIES);
    if !ok {
      return HmacMismatch, header, count;
    }
    tracker.UpdateSequence(h.sequence);
    if edge == null && !checkDisabled {
      return FrameParamNull, header, count;
    }
    count := FilterTrusted(edge, checkDisabled, decoded[..n], out, maxEntries, trusts);
    header := h;
  }

  /** The trust filter's loop. */
  method FilterTrusted(edge: EdgeTracker?, checkDisabled: bool, decoded: seq<Entry>, out: array<Entry>, maxEntries: U8,
                       ghost trusts: U8 -> bool)
    returns (count: nat)
    requires maxEntries <= out.Length && (edge != null || checkDisabled)
    requires edge != null && !checkDisabled ==> edge.Valid()
    requires forall n: U8 :: trusts(n) == (checkDisabled || (edge != null && edge.Valid() && edge.Trusts(n, 0)))
    modifies out
    ensures var accepted := Trusted(decoded, trusts);
            count == Min(maxEntries, |accepted|) && out[..count] == accepted[..count]
  {
    hide Trusted, TrustedIn;
    count := 0;
    var i := 0;
    TrustedStart(decoded, trusts, out[..0]);
    while i < |decoded| && count < maxEntries
      invariant i <= |decoded| && count <= maxEntries
      invariant out[..count] == Trusted(decoded[..i], trusts)
    {
      TrustedNext(decoded, trusts, i);
      var nodeId: U8 := decoded[i].nodeId % 256;
      var pass := true;
      if !checkDisabled {
        pass := edge.IsTrusted(nodeId, 0);
      }
      if pass {
        out[count] := decoded[i];
        count := count + 1;
        assert out[..count] == out[..count - 1] + [decoded[i]];
      }
      i := i + 1;
    }
    TrustedPrefix(decoded, trusts, i);
    assert decoded[..|decoded|] == decoded;
  }

  lemma TrustedStart(es: seq<Entry>, trusts: U8 -> bool, none: seq<Entry>)
    requires none == []
    ensures none == Trusted(es[..0], trusts)
  {
  }

  lemma {:induction false} TrustedPrefix(es: seq<Entry>, trusts: U8 -> bool, i: nat)
    requires i <= |es|
    ensures Trusted(es[..i], trusts) <= Trusted(es, trusts)
    decreases |es| - i
  {
    if i == |es| {
      assert es[..i] == es;
    } else {
      TrustedNext(es, trusts, i);
      TrustedPrefix(es, trusts, i + 1);
    }
  }
}
