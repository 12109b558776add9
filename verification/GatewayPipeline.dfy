/**
 From the Gateway's cache to the Hub: batches of dirty entries are framed, signed, sent, verified,
 decoded and filtered.  Whatever is lost on the way, what the cache holds as clean is what the Hub has.
 */
module GatewayPipeline {
  import opened Bytes
  import opened GaloisField
  import opened BatchCodec
  import opened GatewayCache
  import opened GatewayAuth
  import opened Words
  import Transport

  // ---------------------------------------------------------------- batches

  function WireEntry(e: CacheEntry): Entry {
    Entry(e.nodeId, e.metricId, e.value)
  }

  function WireEntries(ds: seq<CacheEntry>): (es: seq<Entry>)
    ensures |es| == |ds| && forall i :: 0 <= i < |ds| ==> es[i] == WireEntry(ds[i])
  {
    seq(|ds|, i requires 0 <= i < |ds| => WireEntry(ds[i]))
  }

  /** What one flush sends: the first dirty entries, at most a frame full. */
  function Batch(es: seq<CacheEntry>): (ds: seq<CacheEntry>)
    ensures |ds| <= MAX_ENTRIES
  {
    Dirty(es)[..Min(MAX_ENTRIES, |Dirty(es)|)]
  }

  /** The cache after a flush that was reported sent. */
  function Flushed(es: seq<CacheEntry>): seq<CacheEntry> {
    CleanKeys(es, Keys(Batch(es)))
  }

  /** The Hub's values after taking in entries one by one. */
  function Apply(values: map<Key, Word>, es: seq<Entry>): map<Key, Word> {
    if es == [] then values
    else
      var e := es[|es| - 1];
      Apply(values, es[..|es| - 1])[(e.nodeId, e.metricId) := e.value]
  }

  lemma ApplyNext(values: map<Key, Word>, es: seq<Entry>, i: nat)
    requires i < |es|
    ensures Apply(values, es[..i + 1]) == Apply(values, es[..i])[(es[i].nodeId, es[i].metricId) := es[i].value]
  {
    assert es[..i + 1][..i] == es[..i];
  }

  // ---------------------------------------------------------------- draining

  function FlushTimes(es: seq<CacheEntry>, k: nat): (r: seq<CacheEntry>)
  {
    if k == 0 then es else Flushed(FlushTimes(es, k - 1))
  }

  function Left(d: nat, k: nat): nat {
    if d <= MAX_ENTRIES * k then 0 else d - MAX_ENTRIES * k
  }

  /** With no writes in between, k reported flushes leave all but the first 22 k dirty entries dirty. */
  lemma {:induction false} Drain(es: seq<CacheEntry>, k: nat)
    requires DistinctKeys(es)
    ensures DistinctKeys(FlushTimes(es, k)) && |FlushTimes(es, k)| == |es|
    ensures |Dirty(FlushTimes(es, k))| == Left(|Dirty(es)|, k)
    ensures Dirty(FlushTimes(es, k)) == Dirty(es)[|Dirty(es)| - Left(|Dirty(es)|, k)..]
    ensures |Dirty(FlushTimes(es, k))| == if |Dirty(es)| <= 22 * k then 0 else |Dirty(es)| - 22 * k
  {
    hide Dirty, CleanKeys, Keys, DistinctKeys;
    if k > 0 {
      Drain(es, k - 1);
      var before := FlushTimes(es, k - 1);
      CleanKeepsKeys(before, Keys(Batch(before)));
      DirtyAfterSent(before, Min(MAX_ENTRIES, |Dirty(before)|));
    }
  }

  // ---------------------------------------------------------------- convergence

  /**
   Every clean entry of a trusted node is what the Hub last took in for it, and the Hub has taken in
   nothing from nodes it does not trust.
   */
  ghost predicate Converged(es: seq<CacheEntry>, values: map<Key, Word>, trusts: U8 -> bool) {
    && (forall i :: 0 <= i < |es| && !es[i].dirty && trusts(es[i].nodeId % 256) ==>
          KeyOf(es[i]) in values && values[KeyOf(es[i])] == es[i].value)
    && (forall k :: k in values ==> trusts(k.0 % 256))
  }

  lemma ConvergedWrite(es: seq<CacheEntry>, values: map<Key, Word>, trusts: U8 -> bool, k: Key, v: Word, same: Same)
    requires Converged(es, values, trusts)
    ensures Converged(Written(es, k, v, same), values, trusts)
  {
    hide IndexOf;
  }

  /** Taking in entries changes the values of their keys and of no others. */
  lemma {:induction false} ApplyOthers(values: map<Key, Word>, es: seq<Entry>, k: Key)
    requires forall i :: 0 <= i < |es| ==> (es[i].nodeId, es[i].metricId) != k
    ensures (k in Apply(values, es) <==> k in values) && (k in values ==> Apply(values, es)[k] == values[k])
    decreases |es|
  {
    if es != [] {
      ApplyOthers(values, es[..|es| - 1], k);
    }
  }

  ghost predicate DistinctWire(es: seq<Entry>) {
    forall i, j :: 0 <= i < j < |es| ==> (es[i].nodeId, es[i].metricId) != (es[j].nodeId, es[j].metricId)
  }

  lemma {:induction false} ApplyLast(values: map<Key, Word>, es: seq<Entry>, i: nat)
    requires i < |es| && DistinctWire(es)
    ensures var k := (es[i].nodeId, es[i].metricId); k in Apply(values, es) && Apply(values, es)[k] == es[i].value
    decreases |es|
  {
    var n := |es| - 1;
    if i < n {
      ApplyLast(values, es[..n], i);
    }
  }

  lemma {:induction false} ApplyDomain(values: map<Key, Word>, es: seq<Entry>, k: Key)
    requires k in Apply(values, es)
    ensures k in values || exists i :: 0 <= i < |es| && (es[i].nodeId, es[i].metricId) == k
    decreases |es|
  {
    if es != [] {
      var n := |es| - 1;
      if k != (es[n].nodeId, es[n].metricId) {
        ApplyDomain(values, es[..n], k);
        if k !in values {
          var i :| 0 <= i < n && (es[..n][i].nodeId, es[..n][i].metricId) == k;
          assert (es[i].nodeId, es[i].metricId) == k;
        }
      }
    }
  }

  /** The trusted entries are among all, keep their order, and contain every trusted one. */
  lemma {:induction false} TrustedMembers(es: seq<Entry>, trusts: U8 -> bool)
    ensures forall e :: e in Trusted(es, trusts) <==> e in es && trusts(e.nodeId % 256)
    ensures DistinctWire(es) ==> DistinctWire(Trusted(es, trusts))
    decreases |es|
  {
    if es != [] {
      var n := |es| - 1;
      TrustedMembers(es[..n], trusts);
      assert es == es[..n] + [es[n]];
      if DistinctWire(es) {
        DistinctGrows(es, Trusted(es[..n], trusts));
      }
    }
  }

  /** The filter looks at the low byte of the id: nodes 256 apart are trusted together or not at all. */
  lemma SharedTrust(es: seq<Entry>, trusts: U8 -> bool, i: nat, j: nat)
    requires i < |es| && j < |es| && es[i].nodeId % 256 == es[j].nodeId % 256
    ensures es[i] in Trusted(es, trusts) <==> es[j] in Trusted(es, trusts)
  {
    TrustedMembers(es, trusts);
  }

  lemma DistinctGrows(es: seq<Entry>, r: seq<Entry>)
    requires es != [] && DistinctWire(es) && DistinctWire(r)
    requires forall e :: e in r ==> e in es[..|es| - 1]
    ensures DistinctWire(r + [es[|es| - 1]])
  {
    var n := |es| - 1;
    forall i | 0 <= i < |r| ensures (r[i].nodeId, r[i].metricId) != (es[n].nodeId, es[n].metricId) {
      assert r[i] in r;
      var j :| 0 <= j < n && es[..n][j] == r[i];
      assert es[j] == r[i];
    }
  }

  lemma BatchFacts(es: seq<CacheEntry>)
    requires DistinctKeys(es)
    ensures DistinctKeys(Batch(es)) && DistinctWire(WireEntries(Batch(es)))
    ensures forall d :: d in Batch(es) ==> d in es && d.dirty
  {
    hide Dirty;
    DirtyMembers(es);
    var ds, b := Dirty(es), Batch(es);
    forall i, j | 0 <= i < j < |b| ensures KeyOf(b[i]) != KeyOf(b[j]) {
      assert b[i] == ds[i] && b[j] == ds[j];
    }
    forall d | d in b ensures d in ds {
    }
    forall i, j | 0 <= i < j < |b|
      ensures (WireEntries(b)[i].nodeId, WireEntries(b)[i].metricId) != (WireEntries(b)[j].nodeId, WireEntries(b)[j].metricId)
    {
      assert KeyOf(b[i]) != KeyOf(b[j]);
    }
  }

  /** Taking in a batch keeps convergence: it only concerns dirty entries. */
  lemma ConvergedDelivered(es: seq<CacheEntry>, values: map<Key, Word>, trusts: U8 -> bool)
    requires DistinctKeys(es) && Converged(es, values, trusts)
    ensures Converged(es, Apply(values, Trusted(WireEntries(Batch(es)), trusts)), trusts)
  {
    hide Apply, Trusted, Batch;
    var wire := WireEntries(Batch(es));
    var taken := Trusted(wire, trusts);
    var values' := Apply(values, taken);
    BatchFacts(es);
    TrustedMembers(wire, trusts);
    forall i | 0 <= i < |es| && !es[i].dirty && trusts(es[i].nodeId % 256)
      ensures KeyOf(es[i]) in values' && values'[KeyOf(es[i])] == es[i].value
    {
      forall j | 0 <= j < |taken| ensures (taken[j].nodeId, taken[j].metricId) != KeyOf(es[i]) {
        SentIsDirty(es, wire, taken[j], i);
      }
      ApplyOthers(values, taken, KeyOf(es[i]));
    }
    forall k | k in values' ensures trusts(k.0 % 256) {
      ApplyDomain(values, taken, k);
      if k !in values {
        var j :| 0 <= j < |taken| && (taken[j].nodeId, taken[j].metricId) == k;
        assert taken[j] in taken;
      }
    }
  }

  lemma SameKey(es: seq<CacheEntry>, i: nat, j: nat)
    requires DistinctKeys(es) && i < |es| && j < |es|
    ensures KeyOf(es[i]) == KeyOf(es[j]) ==> i == j
  {
  }

  lemma SentIsDirty(es: seq<CacheEntry>, wire: seq<Entry>, e: Entry, i: nat)
    requires DistinctKeys(es) && i < |es| && !es[i].dirty && wire == WireEntries(Batch(es)) && e in wire
    ensures (e.nodeId, e.metricId) != KeyOf(es[i])
  {
    hide Batch;
    BatchFacts(es);
    var j :| 0 <= j < |wire| && wire[j] == e;
    var d := Batch(es)[j];
    assert d in Batch(es);
    var m :| 0 <= m < |es| && es[m] == d;
    SameKey(es, i, m);
  }

  /** Once taken in, the batch may be marked clean. */
  lemma ConvergedAcknowledged(es: seq<CacheEntry>, values: map<Key, Word>, trusts: U8 -> bool)
    requires DistinctKeys(es) && Converged(es, values, trusts)
    ensures Converged(Flushed(es), Apply(values, Trusted(WireEntries(Batch(es)), trusts)), trusts)
  {
    hide Apply, Trusted, Batch;
    ConvergedDelivered(es, values, trusts);
    var wire := WireEntries(Batch(es));
    var taken := Trusted(wire, trusts);
    var values', es' := Apply(values, taken), Flushed(es);
    BatchFacts(es);
    TrustedMembers(wire, trusts);
    forall i | 0 <= i < |es'| && !es'[i].dirty && trusts(es'[i].nodeId % 256)
      ensures KeyOf(es'[i]) in values' && values'[KeyOf(es'[i])] == es'[i].value
    {
      if es[i].dirty {
        assert KeyOf(es[i]) in Keys(Batch(es));
        SentValue(es, values, trusts, i);
      }
    }
  }

  lemma SentValue(es: seq<CacheEntry>, values: map<Key, Word>, trusts: U8 -> bool, i: nat)
    requires DistinctKeys(es) && i < |es| && KeyOf(es[i]) in Keys(Batch(es)) && trusts(es[i].nodeId % 256)
    ensures var values' := Apply(values, Trusted(WireEntries(Batch(es)), trusts));
            KeyOf(es[i]) in values' && values'[KeyOf(es[i])] == es[i].value
  {
    hide Apply, Trusted, Batch;
    var b := Batch(es);
    var wire := WireEntries(b);
    var taken := Trusted(wire, trusts);
    BatchFacts(es);
    TrustedMembers(wire, trusts);
    var j :| 0 <= j < |b| && KeyOf(b[j]) == KeyOf(es[i]);
    assert b[j] in b;
    var m :| 0 <= m < |es| && es[m] == b[j];
    SameKey(es, i, m);
    assert wire[j] in wire;
    var n :| 0 <= n < |taken| && taken[n] == wire[j];
    ApplyLast(values, taken, n);
  }

  // ---------------------------------------------------------------- repeated frames

  /** What the frame says of clean entries of trusted nodes is what the cache holds for them. */
  ghost predicate UpToDate(es: seq<CacheEntry>, wire: seq<Entry>, trusts: U8 -> bool) {
    forall i, j :: 0 <= i < |es| && 0 <= j < |wire|
      && !es[i].dirty && trusts(es[i].nodeId % 256) && (wire[j].nodeId, wire[j].metricId) == KeyOf(es[i])
      ==> wire[j].value == es[i].value
  }

  /**
   The Hub takes an authentic frame at any time and as often as it comes.  What it has then agrees with
   the cache exactly when the frame is not out of date for any clean entry.
   */
  lemma ConvergedAgain(es: seq<CacheEntry>, values: map<Key, Word>, trusts: U8 -> bool, wire: seq<Entry>)
    requires Converged(es, values, trusts) && DistinctWire(wire)
    ensures Converged(es, Apply(values, Trusted(wire, trusts)), trusts) <==> UpToDate(es, wire, trusts)
  {
    hide Apply, Trusted, UpToDate;
    var taken := Trusted(wire, trusts);
    var values' := Apply(values, taken);
    TrustedMembers(wire, trusts);
    forall i | 0 <= i < |es| && !es[i].dirty && trusts(es[i].nodeId % 256)
      ensures KeyOf(es[i]) in values' && (values'[KeyOf(es[i])] == es[i].value <==> AgreesWith(wire, es[i]))
    {
      OneKeyAgain(es[i], values, trusts, wire);
    }
    forall k | k in values' ensures trusts(k.0 % 256) {
      ApplyDomain(values, taken, k);
      if k !in values {
        var j :| 0 <= j < |taken| && (taken[j].nodeId, taken[j].metricId) == k;
        assert taken[j] in taken;
      }
    }
    UpToDateEach(es, wire, trusts);
  }

  ghost predicate AgreesWith(wire: seq<Entry>, e: CacheEntry) {
    forall j :: 0 <= j < |wire| && (wire[j].nodeId, wire[j].metricId) == KeyOf(e) ==> wire[j].value == e.value
  }

  lemma UpToDateEach(es: seq<CacheEntry>, wire: seq<Entry>, trusts: U8 -> bool)
    ensures UpToDate(es, wire, trusts)
            <==> forall i :: 0 <= i < |es| && !es[i].dirty && trusts(es[i].nodeId % 256) ==> AgreesWith(wire, es[i])
  {
  }

  lemma OneKeyAgain(e: CacheEntry, values: map<Key, Word>, trusts: U8 -> bool, wire: seq<Entry>)
    requires trusts(e.nodeId % 256) && DistinctWire(wire) && KeyOf(e) in values && values[KeyOf(e)] == e.value
    ensures var values' := Apply(values, Trusted(wire, trusts));
            KeyOf(e) in values' && (values'[KeyOf(e)] == e.value <==> AgreesWith(wire, e))
  {
    hide Apply, Trusted;
    var taken := Trusted(wire, trusts);
    TrustedMembers(wire, trusts);
    if j :| 0 <= j < |wire| && (wire[j].nodeId, wire[j].metricId) == KeyOf(e) {
      assert wire[j] in wire;
      var n :| 0 <= n < |taken| && taken[n] == wire[j];
      ApplyLast(values, taken, n);
    } else {
      forall n | 0 <= n < |taken| ensures (taken[n].nodeId, taken[n].metricId) != KeyOf(e) {
        assert taken[n] in taken;
      }
      ApplyOthers(values, taken, KeyOf(e));
    }
  }

  // ---------------------------------------------------------------- the Hub's end

  class Hub {
    const tracker: GatewayTracker
    const edge: EdgeTracker
    const maxEntries: U8
    /** The last value taken in for each node and metric. */
    var values: map<Key, Word>
    /** The sequence numbers of the frames taken in. */
    ghost var sequences: seq<U32>

    ghost predicate Valid(trusts: U8 -> bool)
      reads this, edge, edge.entries
    {
      && edge.Valid() && maxEntries >= MAX_ENTRIES
      && forall n: U8 :: trusts(n) == edge.Trusts(n, 0)
    }

    constructor (tracker: GatewayTracker, edge: EdgeTracker, maxEntries: U8)
      ensures this.tracker == tracker && this.edge == edge && this.maxEntries == maxEntries
      ensures values == map[] && sequences == []
    {
      this.tracker, this.edge, this.maxEntries := tracker, edge, maxEntries;
      values, sequences := map[], [];
    }

    /** Takes in a frame if it is authentic, entry by entry. */
    method Receive(hmac: Transport.Hmac, wire: seq<byte>, ghost trusts: U8 -> bool) returns (result: FrameResult)
      requires Valid(trusts)
      modifies this`values, this`sequences, tracker`lastSequence, tracker`sequenceInitialised
      ensures Valid(trusts)
      ensures var v, d := Verified(hmac, tracker.sessionKey, tracker.authenticated, wire), Decode(wire, MAX_ENTRIES);
              if v == FrameOk && d.Some? then
                && result == FrameOk
                && values == Apply(old(values), Trusted(d.value.entries, trusts))
                && tracker.lastSequence == d.value.header.sequence && tracker.sequenceInitialised
                && sequences == old(sequences) + [d.value.header.sequence]
              else
                result != FrameOk && values == old(values) && sequences == old(sequences)
                && tracker.lastSequence == old(tracker.lastSequence)
                && tracker.sequenceInitialised == old(tracker.sequenceInitialised)
      ensures !(tracker.authenticated && |wire| >= 40 && wire[1] == 2
                && wire[|wire| - 32..] == hmac(tracker.sessionKey, wire[..|wire| - 32]))
              ==> result != FrameOk && values == old(values) && sequences == old(sequences) && unchanged(tracker)
    {
      hide Verified, Decode, Trusted, TrustedIn, Apply;
      var out := new Entry[maxEntries](_ => Entry(0, 0, Zeros(4)));
      var header, count;
      result, header, count := Ingest(hmac, tracker, edge, false, wire, out, maxEntries, trusts);
      DecodedFits(wire);
      if result == FrameOk {
        ghost var accepted := Trusted(Decode(wire, MAX_ENTRIES).value.entries, trusts);
        assert accepted[..count] == accepted;
        TakeIn(out[..count]);
        sequences := sequences + [header.sequence];
      }
    }

    method TakeIn(accepted: seq<Entry>)
      modifies this`values
      ensures values == Apply(old(values), accepted)
    {
      hide Apply;
      ghost var values0 := values;
      AppliedNothing(values, accepted);
      for i := 0 to |accepted|
        invariant values == Apply(values0, accepted[..i])
      {
        ApplyNext(values0, accepted, i);
        values := values[(accepted[i].nodeId, accepted[i].metricId) := accepted[i].value];
      }
      assert accepted[..|accepted|] == accepted;
    }
  }

  lemma AppliedNothing(values: map<Key, Word>, es: seq<Entry>)
    ensures Apply(values, es[..0]) == values
  {
  }

  lemma DecodedFits(wire: seq<byte>)
    ensures Decode(wire, MAX_ENTRIES).Some? ==> |Decode(wire, MAX_ENTRIES).value.entries| <= MAX_ENTRIES
  {
  }

  // ---------------------------------------------------------------- the Gateway's end

  /** What becomes of a frame: taken and reported so, taken but reported failed, or lost. */
  datatype Outcome = Acknowledged | Unacknowledged | Lost

  datatype ForwardStats = ForwardStats(batches: nat, entriesSent: nat, sendOk: nat, sendFail: nat)

  class Forwarder {
    const cache: Cache
    const auth: AuthContext
    const hub: Hub
    var stats: ForwardStats

    constructor (cache: Cache, auth: AuthContext, hub: Hub)
      ensures this.cache == cache && this.auth == auth && this.hub == hub && stats == ForwardStats(0, 0, 0, 0)
    {
      this.cache, this.auth, this.hub, stats := cache, auth, hub, ForwardStats(0, 0, 0, 0);
    }

    /** The Gateway is authenticated and the Hub has its key. */
    predicate Paired()
      reads this, auth, hub, hub.tracker
    {
      auth.state == Authenticated && hub.tracker.authenticated && hub.tracker.sessionKey == auth.sessionKey
    }

    /** The frame of a batch, signed. */
    method BuildFrame(hmac: Transport.Hmac, dirty: seq<CacheEntry>) returns (wire: seq<byte>)
      requires auth.state == Authenticated && 0 < |dirty| <= MAX_ENTRIES
      ensures var body := EncodeBody(Header(MAGIC, 2, |dirty|, 0, auth.txSequence), WireEntries(dirty));
              wire == body + hmac(auth.sessionKey, body)
    {
      hide EncodeBody, EncodeEntries, Splice;
      var header := Header(MAGIC, 2, |dirty|, 0, auth.txSequence);
      var entries := PackEntries(dirty);
      var buf := new byte[MAX_FRAME];
      var ok, len := EncodeFrame(header, entries, buf);
      var offset := len - HMAC_SIZE;
      ghost var body := EncodeBody(header, entries);
      assert buf[..offset] == buf[..len][..offset] == body;
      var signed, tag := auth.Sign(hmac, buf[..offset]);
      ghost var was := buf[..];
      if signed {
        CopyInto(buf, offset, tag);
      }
      SpliceParts(was, offset, tag, buf[..]);
      wire := buf[..len];
      assert wire == buf[..][..len] && was[..offset] == body;
    }

    method PackEntries(dirty: seq<CacheEntry>) returns (entries: seq<Entry>)
      ensures entries == WireEntries(dirty)
    {
      entries := [];
      for i := 0 to |dirty|
        invariant |entries| == i && forall k :: 0 <= k < i ==> entries[k] == WireEntry(dirty[k])
      {
        entries := entries + [Entry(dirty[i].nodeId, dirty[i].metricId, dirty[i].value)];
      }
    }

    /** Frames, signs and sends a batch; unless it is lost, the Hub takes it in. */
    method Send(hmac: Transport.Hmac, dirty: seq<CacheEntry>, outcome: Outcome, ghost trusts: U8 -> bool)
      requires hub.Valid(trusts) && Paired() && 0 < |dirty| <= MAX_ENTRIES
      modifies hub`values, hub`sequences, hub.tracker`lastSequence, hub.tracker`sequenceInitialised
      ensures hub.Valid(trusts)
      ensures outcome == Lost ==> unchanged(hub) && unchanged(hub.tracker)
      ensures outcome != Lost ==>
        && hub.values == Apply(old(hub.values), Trusted(WireEntries(dirty), trusts))
        && hub.sequences == old(hub.sequences) + [auth.txSequence]
        && hub.tracker.lastSequence == auth.txSequence && hub.tracker.sequenceInitialised
    {
      hide Apply, Trusted, TrustedIn, Decode, Verified, EncodeBody;
      var wire := BuildFrame(hmac, dirty);
      if outcome != Lost {
        FrameAccepted(hmac, auth.sessionKey, Header(MAGIC, 2, |dirty|, 0, auth.txSequence), WireEntries(dirty));
        var result := hub.Receive(hmac, wire, trusts);
      }
    }

    /**
     batch_forwarder_flush.  A frame that reaches the Hub brings it the batch; only a reported success
     marks the batch clean and moves the sequence number on.
     */
    method Flush(hmac: Transport.Hmac, outcome: Outcome, ghost trusts: U8 -> bool) returns (n: nat)
      requires cache.Valid() && hub.Valid(trusts) && (auth.state == Authenticated ==> Paired())
      modifies this`stats, cache.entries, auth`txSequence, hub`values, hub`sequences, hub.tracker`lastSequence, hub.tracker`sequenceInitialised
      ensures cache.Valid() && hub.Valid(trusts)
      ensures n == if auth.state == Authenticated then |Batch(old(cache.Entries()))| else 0
      ensures auth.state == Authenticated ==> n == Min(22, |Dirty(old(cache.Entries()))|)
      ensures n == 0 ==> cache.Entries() == old(cache.Entries()) && auth.txSequence == old(auth.txSequence) && stats == old(stats)
      ensures n == 0 || outcome == Lost ==>
        && hub.values == old(hub.values) && hub.sequences == old(hub.sequences)
        && hub.tracker.lastSequence == old(hub.tracker.lastSequence)
        && hub.tracker.sequenceInitialised == old(hub.tracker.sequenceInitialised)
      ensures n > 0 && outcome != Lost ==>
        && hub.values == Apply(old(hub.values), Trusted(WireEntries(Batch(old(cache.Entries()))), trusts))
        && hub.sequences == old(hub.sequences) + [old(auth.txSequence)]
        && hub.tracker.lastSequence == old(auth.txSequence) && hub.tracker.sequenceInitialised
      ensures n > 0 && outcome == Acknowledged ==>
        && cache.Entries() == Flushed(old(cache.Entries()))
        && auth.txSequence == Successor(old(auth.txSequence))
        && stats == ForwardStats(old(stats).batches + 1, old(stats).entriesSent + n, old(stats).sendOk + 1, old(stats).sendFail)
      ensures n > 0 && outcome != Acknowledged ==>
        && cache.Entries() == old(cache.Entries()) && auth.txSequence == old(auth.txSequence)
        && stats == ForwardStats(old(stats).batches + 1, old(stats).entriesSent, old(stats).sendOk, old(stats).sendFail + 1)
    {
      hide Dirty, Apply, Trusted, TrustedIn, Decode, Verified, EncodeBody, CleanKeys, Keys;
      n := 0;
      if auth.state != Authenticated {
        return;
      }
      var out := new CacheEntry[MAX_ENTRIES](_ => CacheEntry(0, 0, Zeros(4), false));
      n := cache.GetDirty(out, MAX_ENTRIES);
      if n == 0 {
        return;
      }
      stats := stats.(batches := stats.batches + 1);
      var dirty := out[..n];
      Send(hmac, dirty, outcome, trusts);
      if outcome == Acknowledged {
        cache.ClearAll(dirty);
        auth.AdvanceSequence();
        stats := stats.(sendOk := stats.sendOk + 1, entriesSent := stats.entriesSent + n);
      } else {
        stats := stats.(sendFail := stats.sendFail + 1);
      }
    }
  }

  /** A signed frame passes verification under the same key and decodes to what was put in. */
  lemma FrameAccepted(hmac: Transport.Hmac, key: SessionKey, h: Header, es: seq<Entry>)
    requires h.magic == MAGIC && h.version == 2 && h.entryCount == |es| <= MAX_ENTRIES
    ensures var body := EncodeBody(h, es);
            && Verified(hmac, key, true, body + hmac(key, body)) == FrameOk
            && Decode(body + hmac(key, body), MAX_ENTRIES) == Some(Frame(h, es))
  {
    hide Decode, EncodeEntries;
    var body := EncodeBody(h, es);
    var wire := body + hmac(key, body);
    FrameRoundTrip(h, es, hmac(key, body), MAX_ENTRIES);
    assert es[..Min(|es|, MAX_ENTRIES)] == es;
    VersionByte(h, es, hmac(key, body));
    assert wire[..|wire| - HMAC_SIZE] == body && wire[|wire| - HMAC_SIZE..] == hmac(key, body);
  }

  lemma VersionByte(h: Header, es: seq<Entry>, tag: seq<byte>)
    ensures Index((EncodeBody(h, es) + tag)[1]) == h.version
  {
    ByteRoundTrip(h.version);
  }

  /** A frame of an earlier batch comes once more: the Hub takes it, and its last sequence number goes back with it. */
  method TakeAgain(f: Forwarder, hmac: Transport.Hmac, h: Header, batch: seq<Entry>, ghost trusts: U8 -> bool) returns (result: FrameResult)
    requires f.cache.Valid() && f.hub.Valid(trusts) && f.Paired() && Converged(f.cache.Entries(), f.hub.values, trusts)
    requires h.magic == MAGIC && h.version == 2 && h.entryCount == |batch| <= MAX_ENTRIES && DistinctWire(batch)
    modifies f.hub`values, f.hub`sequences, f.hub.tracker`lastSequence, f.hub.tracker`sequenceInitialised
    ensures result == FrameOk && f.hub.tracker.lastSequence == h.sequence
    ensures f.cache.Valid() && (Converged(f.cache.Entries(), f.hub.values, trusts) <==> UpToDate(f.cache.Entries(), batch, trusts))
  {
    hide Converged, UpToDate, Apply, Trusted, TrustedIn, Decode, Verified, EncodeBody, Hub.Valid, Cache.Valid;
    var body := EncodeBody(h, batch);
    FrameAccepted(hmac, f.auth.sessionKey, h, batch);
    ConvergedAgain(f.cache.Entries(), f.hub.values, trusts, batch);
    result := f.hub.Receive(hmac, body + hmac(f.auth.sessionKey, body), trusts);
  }

  // ---------------------------------------------------------------- whole runs

  datatype Event = WriteValue(key: Key, value: Word) | FlushNow(outcome: Outcome)

  /** The cache after a run of events. */
  function CacheAfter(events: seq<Event>, same: Same): seq<CacheEntry> {
    if events == [] then []
    else
      var es := CacheAfter(events[..|events| - 1], same);
      match events[|events| - 1] {
        case WriteValue(k, v) => Written(es, k, v, same)
        case FlushNow(outcome) => if outcome == Acknowledged && Batch(es) != [] then Flushed(es) else es
      }
  }

  /** The frames that reached the Hub, and what was reported of each. */
  function TakenBy(events: seq<Event>, same: Same): seq<Outcome> {
    if events == [] then []
    else
      var init, last := events[..|events| - 1], events[|events| - 1];
      if last.FlushNow? && last.outcome != Lost && Batch(CacheAfter(init, same)) != [] then TakenBy(init, same) + [last.outcome]
      else TakenBy(init, same)
  }

  lemma EventNext(events: seq<Event>, same: Same, n: nat)
    requires n < |events|
    ensures var es := CacheAfter(events[..n], same);
            && CacheAfter(events[..n + 1], same)
               == (match events[n]
                   case WriteValue(k, v) => Written(es, k, v, same)
                   case FlushNow(outcome) => if outcome == Acknowledged && Batch(es) != [] then Flushed(es) else es)
            && TakenBy(events[..n + 1], same)
               == if events[n].FlushNow? && events[n].outcome != Lost && Batch(es) != []
                  then TakenBy(events[..n], same) + [events[n].outcome] else TakenBy(events[..n], same)
  {
    hide Written, Flushed, Batch;
    assert events[..n + 1][..n] == events[..n];
  }

  function Cached(k: Key, v: Word, dirty: bool): seq<CacheEntry> {
    [CacheEntry(k.0, k.1, v, dirty)]
  }

  lemma WriteThenFlush(es: seq<CacheEntry>, k: Key, v: Word, same: Same)
    requires es == [] || (exists u :: es == Cached(k, u, false) && !same(u, v))
    ensures Written(es, k, v, same) == Cached(k, v, true)
    ensures Batch(Cached(k, v, true)) == Cached(k, v, true) && Flushed(Cached(k, v, true)) == Cached(k, v, false)
  {
    var ds := Cached(k, v, true);
    assert ds[..0] == [] && Dirty([]) == [] && Dirty(ds) == ds;
    assert ds[..1] == ds;
    assert KeyOf(ds[0]) in Keys(Batch(ds)) by {
      assert Batch(ds)[0] == ds[0];
    }
  }

  /** Two values of one metric, both delivered: the frame of the first, taken again, is out of date. */
  lemma RollsBack(k: Key, v: Word, w: Word, same: Same, trusts: U8 -> bool)
    requires trusts(k.0 % 256) && !same(v, w) && v != w
    ensures var first := [WriteValue(k, v)];
            var all := first + [FlushNow(Acknowledged), WriteValue(k, w), FlushNow(Acknowledged)];
            !UpToDate(CacheAfter(all, same), WireEntries(Batch(CacheAfter(first, same))), trusts)
  {
    hide Written, Flushed, Batch, CacheAfter, TakenBy, UpToDate;
    var first := [WriteValue(k, v)];
    var all := first + [FlushNow(Acknowledged), WriteValue(k, w), FlushNow(Acknowledged)];
    assert all[..0] == [] && all[..1] == first && all[..4] == all;
    StartRun(all, same, 0);
    EventNext(all, same, 0); EventNext(all, same, 1); EventNext(all, same, 2); EventNext(all, same, 3);
    WriteThenFlush([], k, v, same);
    WriteThenFlush(Cached(k, v, false), k, w, same);
    OutOfDate(k, v, w, trusts);
  }

  lemma OutOfDate(k: Key, v: Word, w: Word, trusts: U8 -> bool)
    requires trusts(k.0 % 256) && v != w
    ensures !UpToDate(Cached(k, w, false), WireEntries(Cached(k, v, true)), trusts)
  {
    var sent, kept := WireEntries(Cached(k, v, true)), Cached(k, w, false);
    assert !kept[0].dirty && (sent[0].nodeId, sent[0].metricId) == KeyOf(kept[0]) && sent[0].value != kept[0].value;
  }

  /** Each number after the first is one more than the one before, modulo 2^32. */
  ghost predicate Consecutive(ns: seq<U32>) {
    forall i :: 0 < i < |ns| ==> ns[i] == Successor(ns[i - 1])
  }

  /** The number after one whose frame was reported like this. */
  function NumberAfter(n: U32, outcome: Outcome): U32 {
    if outcome == Acknowledged then Successor(n) else n
  }

  /** Each number follows from the one before and what was reported of its frame; so will the next. */
  ghost predicate Follows(ns: seq<U32>, taken: seq<Outcome>, next: U32) {
    && |ns| == |taken|
    && (forall i :: 0 < i < |ns| ==> ns[i] == NumberAfter(ns[i - 1], taken[i - 1]))
    && (ns != [] ==> next == NumberAfter(ns[|ns| - 1], taken[|ns| - 1]))
  }

  /** Every frame taken was reported so, except perhaps the last. */
  ghost predicate ReportedButLast(taken: seq<Outcome>) {
    forall i :: 0 <= i < |taken| - 1 ==> taken[i] == Acknowledged
  }

  lemma ConsecutiveExactly(ns: seq<U32>, taken: seq<Outcome>, next: U32)
    requires Follows(ns, taken, next)
    ensures Consecutive(ns) <==> ReportedButLast(taken)
  {
    if Consecutive(ns) {
      forall i | 0 <= i < |taken| - 1 ensures taken[i] == Acknowledged {
        assert ns[i + 1] == Successor(ns[i]) != ns[i];
      }
    }
  }

  lemma FollowsNext(ns: seq<U32>, taken: seq<Outcome>, next: U32, outcome: Outcome)
    requires Follows(ns, taken, next)
    ensures Follows(ns + [next], taken + [outcome], NumberAfter(next, outcome))
  {
  }

  lemma {:induction false} NoneUnreported(events: seq<Event>, same: Same)
    requires forall i :: 0 <= i < |events| ==> events[i] != FlushNow(Unacknowledged)
    ensures forall i :: 0 <= i < |TakenBy(events, same)| ==> TakenBy(events, same)[i] == Acknowledged
    decreases |events|
  {
    hide CacheAfter, Batch;
    if events != [] {
      NoneUnreported(events[..|events| - 1], same);
    }
  }

  /**
   Runs the events.  At any moment the Hub and the clean part of the cache agree; and the Hub sees
   consecutive sequence numbers exactly when no frame that it took but that was reported failed is
   followed by another that it took.
   */
  method Run(f: Forwarder, hmac: Transport.Hmac, same: Same, events: seq<Event>, ghost trusts: U8 -> bool)
    requires f.cache.Valid() && f.cache.Entries() == [] && f.hub.Valid(trusts) && f.Paired()
    requires f.hub.values == map[] && f.hub.sequences == []
    modifies f, f.cache, f.cache.entries, f.auth, f.hub, f.hub.tracker
    ensures f.cache.Valid() && f.cache.Entries() == CacheAfter(events, same)
    ensures Converged(f.cache.Entries(), f.hub.values, trusts)
    ensures forall e :: e in CacheAfter(events, same) && !e.dirty && trusts(e.nodeId % 256) ==>
      (e.nodeId, e.metricId) in f.hub.values && f.hub.values[(e.nodeId, e.metricId)] == e.value
    ensures |f.hub.sequences| == |TakenBy(events, same)|
    ensures Consecutive(f.hub.sequences) <==> ReportedButLast(TakenBy(events, same))
    ensures (forall i :: 0 <= i < |events| ==> events[i] != FlushNow(Unacknowledged)) ==> Consecutive(f.hub.sequences)
  {
    hide Converged, Dirty, Apply, Trusted, TrustedIn, Flushed, Batch, Written, CacheAfter, TakenBy, Follows, Consecutive, ReportedButLast,
         Hub.Valid, Cache.Valid;
    StartRun(events, same, f.auth.txSequence);
    ConvergedStart(trusts);
    for n := 0 to |events|
      invariant f.cache.Valid() && f.hub.Valid(trusts) && f.Paired()
      invariant f.cache.Entries() == CacheAfter(events[..n], same)
      invariant Converged(f.cache.Entries(), f.hub.values, trusts)
      invariant Follows(f.hub.sequences, TakenBy(events[..n], same), f.auth.txSequence)
    {
      EventNext(events, same, n);
      RunOne(f, hmac, same, events[n], TakenBy(events[..n], same), trusts);
    }
    EndRun(f.hub.sequences, events, same, f.auth.txSequence);
    ConvergedMeans(f.cache.Entries(), f.hub.values, trusts);
  }

  lemma StartRun(events: seq<Event>, same: Same, next: U32)
    ensures CacheAfter(events[..0], same) == [] && Follows([], TakenBy(events[..0], same), next)
  {
  }

  lemma EndRun(ns: seq<U32>, events: seq<Event>, same: Same, next: U32)
    requires Follows(ns, TakenBy(events[..|events|], same), next)
    ensures events[..|events|] == events && |ns| == |TakenBy(events, same)|
    ensures Consecutive(ns) <==> ReportedButLast(TakenBy(events, same))
    ensures (forall i :: 0 <= i < |events| ==> events[i] != FlushNow(Unacknowledged)) ==> Consecutive(ns)
  {
    hide TakenBy, CacheAfter;
    assert events[..|events|] == events;
    ConsecutiveExactly(ns, TakenBy(events, same), next);
    if forall i :: 0 <= i < |events| ==> events[i] != FlushNow(Unacknowledged) {
      NoneUnreported(events, same);
    }
  }

  /** One event. */
  method RunOne(f: Forwarder, hmac: Transport.Hmac, same: Same, event: Event, ghost taken: seq<Outcome>, ghost trusts: U8 -> bool)
    requires f.cache.Valid() && f.hub.Valid(trusts) && f.Paired()
    requires Converged(f.cache.Entries(), f.hub.values, trusts) && Follows(f.hub.sequences, taken, f.auth.txSequence)
    modifies f, f.cache, f.cache.entries, f.auth`txSequence, f.hub`values, f.hub`sequences, f.hub.tracker`lastSequence, f.hub.tracker`sequenceInitialised
    ensures f.cache.Valid() && f.hub.Valid(trusts) && f.Paired() && Converged(f.cache.Entries(), f.hub.values, trusts)
    ensures var es := old(f.cache.Entries());
            && f.cache.Entries() == (match event
                 case WriteValue(k, v) => Written(es, k, v, same)
                 case FlushNow(outcome) => if outcome == Acknowledged && Batch(es) != [] then Flushed(es) else es)
            && Follows(f.hub.sequences,
                       if event.FlushNow? && event.outcome != Lost && Batch(es) != [] then taken + [event.outcome] else taken,
                       f.auth.txSequence)
  {
    hide Converged, Dirty, Apply, Trusted, TrustedIn, Flushed, Batch, Written, Follows, Hub.Valid, Cache.Valid;
    ghost var es, values := f.cache.Entries(), f.hub.values;
    match event {
      case WriteValue(k, v) =>
        ConvergedWrite(es, values, trusts, k, v, same);
        var ok := f.cache.Write(k, v, same);
      case FlushNow(outcome) =>
        EntriesDistinct(f.cache);
        ConvergedDelivered(es, values, trusts);
        ConvergedAcknowledged(es, values, trusts);
        FollowsNext(f.hub.sequences, taken, f.auth.txSequence, outcome);
        var sent := f.Flush(hmac, outcome, trusts);
    }
  }

  lemma ConvergedMeans(es: seq<CacheEntry>, values: map<Key, Word>, trusts: U8 -> bool)
    requires Converged(es, values, trusts)
    ensures forall e :: e in es && !e.dirty && trusts(e.nodeId % 256) ==>
      (e.nodeId, e.metricId) in values && values[(e.nodeId, e.metricId)] == e.value
  {
    forall e | e in es && !e.dirty && trusts(e.nodeId % 256)
      ensures (e.nodeId, e.metricId) in values && values[(e.nodeId, e.metricId)] == e.value
    {
      var i :| 0 <= i < |es| && es[i] == e;
      assert KeyOf(es[i]) == (e.nodeId, e.metricId);
    }
  }

  lemma ConvergedStart(trusts: U8 -> bool)
    ensures Converged([], map[], trusts)
  {
  }

  lemma EntriesDistinct(c: Cache)
    requires c.Valid()
    ensures DistinctKeys(c.Entries())
  {
  }
}
