/**
 The historian's ring of encrypted records as a sequence, oldest first; its eviction rule and query;
 and what its storage holds relative to it.
 */
module HistorianRing {
  import opened Arith
  import opened Bytes
  import opened CbcMode
  import opened HistorianRecords
  import opened Words

  const THIRTY_DAYS_MS := 30 * 24 * 60 * 60 * 1000
  const FLUSH_INTERVAL_MS := 60 * 1000
  const PENDING_MAX := 64

  type Entry = Option<Record>

  // ---------------------------------------------------------------- positions

  /** The ring position of the j-th of c records when the next write goes to w. */
  function Position(cap: nat, w: nat, c: nat, j: nat): (p: nat)
    requires w < cap && j < c <= cap
    ensures p < cap
  {
    if w + j >= c then w + j - c else w + j + cap - c
  }

  function Next(cap: nat, w: nat): (p: nat)
    requires w < cap
    ensures p < cap
  {
    if w + 1 == cap then 0 else w + 1
  }

  lemma NextByMod(cap: nat, w: nat)
    requires w < cap
    ensures (w + 1) % cap == Next(cap, w)
  {
    if w + 1 == cap { DivModUnique(w + 1, cap, 1, 0); } else { DivModUnique(w + 1, cap, 0, w + 1); }
  }

  /** (write_index - count + CAPACITY) % CAPACITY, then (oldest + j) % CAPACITY */
  lemma PositionByMod(cap: nat, w: nat, c: nat, j: nat)
    requires w < cap && j < c <= cap
    ensures ((w - c + cap) % cap + j) % cap == Position(cap, w, c, j)
  {
    var start := if w >= c then w - c else w + cap - c;
    if w >= c { DivModUnique(w - c + cap, cap, 1, w - c); } else { DivModUnique(w - c + cap, cap, 0, start); }
    if start + j >= cap { DivModUnique(start + j, cap, 1, start + j - cap); } else { DivModUnique(start + j, cap, 0, start + j); }
  }

  // ---------------------------------------------------------------- the sequence in the ring

  function ReadSlot(E: BlockFn, keySet: bool, position: nat, slot: Slot): Entry
    requires position < U32_MODULUS
  {
    if keySet then Decode(E, position, slot) else None
  }

  predicate RingShape(ring: seq<Slot>, w: nat, c: nat) {
    w < |ring| < U32_MODULUS && c <= |ring|
  }

  /** The records held, oldest first; None where a slot cannot be decrypted. */
  function View(E: BlockFn, keySet: bool, ring: seq<Slot>, w: nat, c: nat): (es: seq<Entry>)
    requires RingShape(ring, w, c)
    ensures |es| == c
    ensures forall j :: 0 <= j < c ==>
      es[j] == ReadSlot(E, keySet, Position(|ring|, w, c, j), ring[Position(|ring|, w, c, j)])
  {
    seq(c, j requires 0 <= j < c => ReadSlot(E, keySet, Position(|ring|, w, c, j), ring[Position(|ring|, w, c, j)]))
  }

  lemma PositionShift(cap: nat, w: nat, c: nat, j: nat)
    requires w < cap && j + 1 < c <= cap
    ensures Position(cap, w, c - 1, j) == Position(cap, w, c, j + 1)
  {
  }

  lemma PositionNext(cap: nat, w: nat, c: nat, j: nat)
    requires w < cap && j < c < cap
    ensures Position(cap, Next(cap, w), c + 1, j) == Position(cap, w, c, j) != w
  {
  }

  lemma PositionLast(cap: nat, w: nat, c: nat)
    requires w < cap && c < cap
    ensures Position(cap, Next(cap, w), c + 1, c) == w
  {
  }

  lemma ViewDrop(E: BlockFn, keySet: bool, ring: seq<Slot>, w: nat, c: nat)
    requires RingShape(ring, w, c) && c > 0
    ensures View(E, keySet, ring, w, c - 1) == View(E, keySet, ring, w, c)[1..]
  {
    hide ReadSlot, Position;
    forall j | 0 <= j < c - 1 ensures View(E, keySet, ring, w, c - 1)[j] == View(E, keySet, ring, w, c)[1..][j] {
      PositionShift(|ring|, w, c, j);
    }
  }

  lemma ViewWrite(E: BlockFn, ring: seq<Slot>, w: nat, c: nat, r: Record)
    requires RingShape(ring, w, c) && c < |ring|
    ensures RingShape(ring[w := Encode(E, w, r)], Next(|ring|, w), c + 1)
    ensures View(E, true, ring[w := Encode(E, w, r)], Next(|ring|, w), c + 1) == View(E, true, ring, w, c) + [Some(r)]
  {
    hide Position, Encode, Decode, Next;
    var ring', cap := ring[w := Encode(E, w, r)], |ring|;
    DecodeEncode(E, w, r);
    PositionLast(cap, w, c);
    forall j | 0 <= j < c ensures View(E, true, ring', Next(cap, w), c + 1)[j] == View(E, true, ring, w, c)[j] {
      PositionNext(cap, w, c, j);
    }
  }

  // ---------------------------------------------------------------- eviction and queries

  predicate TooOld(now: U64, timestamp: U64) {
    now > 0 && timestamp > 0 && Sub64(now, timestamp) > THIRTY_DAYS_MS
  }

  predicate Stale(e: Entry, now: U64) {
    e == None || TooOld(now, e.value.timestamp)
  }

  /** What is left when the longest prefix of stale records is dropped. */
  function Evicted(es: seq<Entry>, now: U64): seq<Entry> {
    if es != [] && Stale(es[0], now) then Evicted(es[1..], now) else es
  }

  /** An error counter n after that: the unreadable records among those dropped are counted. */
  function EvictionErrors(n: U32, es: seq<Entry>, now: U64): U32
    decreases |es|
  {
    if es != [] && Stale(es[0], now) then EvictionErrors(if es[0] == None then Successor(n) else n, es[1..], now) else n
  }

  /** What a write keeps: at most one record less than the capacity. */
  function Kept(es: seq<Entry>, now: U64, cap: nat): (r: seq<Entry>)
    requires cap > 0
    ensures |r| < cap && |r| <= |es|
  {
    EvictedShorter(es, now);
    var e := Evicted(es, now);
    if |e| >= cap then e[|e| - cap + 1..] else e
  }

  lemma {:induction false} EvictedShorter(es: seq<Entry>, now: U64)
    ensures |Evicted(es, now)| <= |es| && Evicted(es, now) == es[|es| - |Evicted(es, now)|..]
    decreases |es|
  {
    if es != [] && Stale(es[0], now) {
      EvictedShorter(es[1..], now);
    }
  }

  /** Exactly the stale records before the first that is not are dropped. */
  lemma {:induction false} EvictedIsLongestPrefix(es: seq<Entry>, now: U64)
    ensures var k := |es| - |Evicted(es, now)|;
            && 0 <= k <= |es|
            && (forall j :: 0 <= j < k ==> Stale(es[j], now))
            && (k < |es| ==> !Stale(es[k], now))
    decreases |es|
  {
    hide Stale;
    EvictedShorter(es, now);
    if es != [] && Stale(es[0], now) {
      EvictedIsLongestPrefix(es[1..], now);
    }
  }

  /** Timestamps that never decrease, start above zero and end at now at the latest. */
  ghost predicate Ordered(es: seq<Entry>, now: U64) {
    && (forall j :: 0 <= j < |es| ==> es[j].Some? && 0 < es[j].value.timestamp <= now)
    && (forall i, j :: 0 <= i < j < |es| ==> es[i].value.timestamp <= es[j].value.timestamp)
  }

  lemma OrderedSuffix(es: seq<Entry>, now: U64, k: nat)
    requires k <= |es| && Ordered(es, now)
    ensures Ordered(es[k..], now)
  {
  }

  lemma FirstIsOldest(es: seq<Entry>, now: U64)
    requires Ordered(es, now) && (es != [] ==> !Stale(es[0], now))
    ensures forall j :: 0 <= j < |es| ==> now - es[j].value.timestamp <= THIRTY_DAYS_MS
  {
  }

  /** With an orderly clock, everything a write keeps is at most thirty days old. */
  lemma KeptIsRecent(es: seq<Entry>, now: U64, cap: nat)
    requires cap > 0 && Ordered(es, now)
    ensures var r := Kept(es, now, cap);
            Ordered(r, now) && forall j :: 0 <= j < |r| ==> now - r[j].value.timestamp <= THIRTY_DAYS_MS
  {
    hide Evicted, Stale, Ordered, Kept;
    EvictedShorter(es, now);
    EvictedIsLongestPrefix(es, now);
    var e := Evicted(es, now);
    OrderedSuffix(es, now, |es| - |e|);
    FirstIsOldest(e, now);
    KeptSuffix(es, now, cap);
    var r := Kept(es, now, cap);
    OrderedSuffix(e, now, |e| - |r|);
    forall j | 0 <= j < |r| ensures r[j].Some? && now - r[j].value.timestamp <= THIRTY_DAYS_MS {
      OrderedAt(e, now, |e| - |r| + j);
    }
  }

  lemma OrderedAt(es: seq<Entry>, now: U64, j: nat)
    requires j < |es| && Ordered(es, now)
    ensures es[j].Some?
  {
  }

  lemma KeptSuffix(es: seq<Entry>, now: U64, cap: nat)
    requires cap > 0
    ensures var e, r := Evicted(es, now), Kept(es, now, cap); |r| <= |e| && r == e[|e| - |r|..]
  {
    hide Evicted;
  }

  /**
   What the wrapped difference makes of every pair of times: a record is too old when it is more than
   thirty days old, or when the clock has gone back, by anything less than 2^64 ms short of thirty days.
   */
  lemma TooOldExactly(now: U64, timestamp: U64)
    ensures TooOld(now, timestamp) <==>
      now != 0 && timestamp != 0
      && if timestamp <= now then now - timestamp > THIRTY_DAYS_MS else timestamp - now < U64_MODULUS - THIRTY_DAYS_MS
  {
  }

  lemma StaleIs(e: Entry, now: U64)
    ensures Stale(e, now) <==>
      e == None
      || (now != 0 && e.value.timestamp != 0
          && if e.value.timestamp <= now then now - e.value.timestamp > 2592000000
             else e.value.timestamp - now < 0x1_0000_0000_0000_0000 - 2592000000)
  {
    if e.Some? {
      TooOldExactly(now, e.value.timestamp);
    }
  }

  /** Of what is not stale, a write keeps the latest, one less than the capacity. */
  lemma KeptExactly(es: seq<Entry>, now: U64, cap: nat)
    requires cap > 0
    ensures var e, r := Evicted(es, now), Kept(es, now, cap); |r| == Min(|e|, cap - 1) && r == e[|e| - |r|..]
  {
    hide Evicted;
  }

  /** So a write stamped before every record held throws all of them away. */
  lemma {:induction false} ClockBackwardsEmpties(es: seq<Entry>, now: U64)
    requires now > 0
    requires forall j :: 0 <= j < |es| ==>
      es[j].Some? && now < es[j].value.timestamp && es[j].value.timestamp - now < U64_MODULUS - THIRTY_DAYS_MS
    ensures Evicted(es, now) == []
    decreases |es|
  {
    hide TooOld;
    if es != [] {
      TooOldExactly(now, es[0].value.timestamp);
      ClockBackwardsEmpties(es[1..], now);
    }
  }

  datatype Query = Query(timeStart: U64, timeEnd: U64, nodeId: U16, metricId: U8)

  /** Zero in a field of the query matches everything. */
  predicate Matches(q: Option<Query>, r: Record) {
    q.Some? ==>
      && (q.value.timeStart == 0 || q.value.timeStart <= r.timestamp)
      && (q.value.timeEnd == 0 || r.timestamp <= q.value.timeEnd)
      && (q.value.nodeId == 0 || r.nodeId == q.value.nodeId)
      && (q.value.metricId == 0 || r.metricId == q.value.metricId)
  }

  /** The matching records, oldest first. */
  function Matching(es: seq<Entry>, q: Option<Query>): (rs: seq<Record>)
    ensures |rs| <= |es|
  {
    if es == [] then []
    else
      var rs, e := Matching(es[..|es| - 1], q), es[|es| - 1];
      if e.Some? && Matches(q, e.value) then rs + [e.value] else rs
  }

  /** An error counter after passing over these records: the unreadable ones are counted. */
  function Counted(n: U32, es: seq<Entry>): U32 {
    if es == [] then n
    else
      var m := Counted(n, es[..|es| - 1]);
      if es[|es| - 1] == None then Successor(m) else m
  }

  /** Which records match, by their fields alone: those held, in the time window and of the node and metric asked for. */
  lemma {:induction false} MatchingIs(es: seq<Entry>, q: Query, r: Record)
    ensures r in Matching(es, Some(q)) <==>
      && Some(r) in es
      && (q.timeStart != 0 ==> q.timeStart <= r.timestamp) && (q.timeEnd != 0 ==> r.timestamp <= q.timeEnd)
      && (q.nodeId != 0 ==> q.nodeId == r.nodeId) && (q.metricId != 0 ==> q.metricId == r.metricId)
    decreases |es|
  {
    if es != [] {
      MatchingIs(es[..|es| - 1], q, r);
      assert es == es[..|es| - 1] + [es[|es| - 1]];
    }
  }

  lemma {:induction false} MatchingAll(es: seq<Entry>, r: Record)
    ensures r in Matching(es, None) <==> Some(r) in es
    decreases |es|
  {
    if es != [] {
      MatchingAll(es[..|es| - 1], r);
      assert es == es[..|es| - 1] + [es[|es| - 1]];
    }
  }

  /** They come in the order held, each as often as it is held. */
  lemma MatchingSteps(es: seq<Entry>, e: Entry, q: Option<Query>)
    ensures Matching([], q) == []
    ensures Matching(es + [e], q) == Matching(es, q) + if e.Some? && e.value in Matching([e], q) then [e.value] else []
  {
    hide Matches;
    assert (es + [e])[..|es|] == es && [e][..0] == [];
  }

  /** Each unreadable record counts one, modulo 2^32. */
  lemma CountedSteps(n: U32, es: seq<Entry>, e: Entry)
    ensures Counted(n, []) == n
    ensures Counted(n, es + [e]) == if e == None then (Counted(n, es) + 1) % 0x1_0000_0000 else Counted(n, es)
  {
    assert (es + [e])[..|es|] == es;
  }

  lemma {:induction false} CountedFront(n: U32, e: Entry, es: seq<Entry>)
    ensures Counted(n, [e] + es) == Counted(if e == None then Successor(n) else n, es)
    decreases |es|
  {
    var all := [e] + es;
    if es == [] {
      assert all[..0] == [];
    } else {
      assert all[..|all| - 1] == [e] + es[..|es| - 1];
      CountedFront(n, e, es[..|es| - 1]);
    }
  }

  /** Eviction by age counts the unreadable records among those it drops. */
  lemma {:induction false} EvictionErrorsIs(n: U32, es: seq<Entry>, now: U64)
    ensures |Evicted(es, now)| <= |es|
    ensures EvictionErrors(n, es, now) == Counted(n, es[..|es| - |Evicted(es, now)|])
    decreases |es|
  {
    hide Stale, Counted;
    EvictedShorter(es, now);
    if es != [] && Stale(es[0], now) {
      var n' := if es[0] == None then Successor(n) else n;
      EvictionErrorsIs(n', es[1..], now);
      var k := |es| - |Evicted(es, now)|;
      assert es[..k] == [es[0]] + es[1..][..k - 1];
      CountedFront(n, es[0], es[1..][..k - 1]);
    } else {
      NothingCounted(n, es);
    }
  }

  lemma NothingCounted(n: U32, es: seq<Entry>)
    ensures Counted(n, es[..0]) == n
  {
  }

  /** A search for max matches has come to j, with the error counter now at m. */
  ghost predicate SearchedTo(es: seq<Entry>, q: Option<Query>, max: nat, n: U32, j: nat, m: U32) {
    && j <= |es| && m == Counted(n, es[..j])
    && (j > 0 ==> |Matching(es[..j - 1], q)| < max)
  }

  /** The error counter after a search that ends with max matches or with the last record, and not before. */
  ghost predicate SearchErrors(es: seq<Entry>, q: Option<Query>, max: nat, n: U32, m: U32) {
    exists j: nat :: SearchedTo(es, q, max, n, j, m) && (j == |es| || |Matching(es[..j], q)| == max)
  }

  /** The counter takes in what was passed up to the place where the search ended: with max matches, or with the last record. */
  lemma SearchErrorsIs(es: seq<Entry>, q: Option<Query>, max: nat, n: U32, m: U32) returns (j: nat)
    requires SearchErrors(es, q, max, n, m)
    ensures j <= |es| && m == Counted(n, es[..j])
    ensures j == |es| || |Matching(es[..j], q)| == max
    ensures j > 0 ==> |Matching(es[..j - 1], q)| < max
  {
    j :| SearchedTo(es, q, max, n, j, m) && (j == |es| || |Matching(es[..j], q)| == max);
  }

  lemma SearchStarts(es: seq<Entry>, q: Option<Query>, max: nat, n: U32)
    ensures SearchedTo(es, q, max, n, 0, n)
  {
  }

  lemma SearchNext(es: seq<Entry>, q: Option<Query>, max: nat, n: U32, j: nat, m: U32)
    requires SearchedTo(es, q, max, n, j, m) && j < |es| && |Matching(es[..j], q)| < max
    ensures SearchedTo(es, q, max, n, j + 1, if es[j] == None then Successor(m) else m)
  {
    hide Matching;
    assert es[..j + 1][..j] == es[..j];
  }

  lemma SearchEnds(es: seq<Entry>, q: Option<Query>, max: nat, n: U32, j: nat, m: U32)
    requires SearchedTo(es, q, max, n, j, m) && (j == |es| || |Matching(es[..j], q)| == max)
    ensures SearchErrors(es, q, max, n, m)
  {
  }

  lemma SearchForNothing(es: seq<Entry>, q: Option<Query>, n: U32)
    ensures SearchErrors(es, q, 0, n, n)
  {
    SearchStarts(es, q, 0, n);
    assert Matching(es[..0], q) == [];
  }

  // ---------------------------------------------------------------- what storage holds

  function Somes(rs: seq<Record>): (es: seq<Entry>)
    ensures |es| == |rs| && forall j :: 0 <= j < |rs| ==> es[j] == Some(rs[j])
  {
    seq(|rs|, j requires 0 <= j < |rs| => Some(rs[j]))
  }

  /** The last c elements. */
  function Latest(es: seq<Entry>, c: nat): seq<Entry>
    requires c <= |es|
  {
    es[|es| - c..]
  }

  /** What loading this storage restores. */
  function Stored(E: BlockFn, keySet: bool, slots: seq<Slot>, count: nat, w: nat): seq<Entry>
    requires 0 < |slots| < U32_MODULUS
  {
    if count <= |slots| then
      DivisionTheorem(w, |slots|);
      View(E, keySet, slots, w % |slots|, count)
    else []
  }

  /** The write index that loading this storage restores. */
  function StoredIndex(cap: nat, count: nat, w: nat): (p: nat)
    requires cap > 0
    ensures p < cap
  {
    if count <= cap then w % cap else 0
  }

  /** The write index is as many positions past the stored one as there are pending records. */
  predicate AheadBy(cap: nat, stored: nat, pending: nat, w: nat) {
    cap > 0 && w == Mod(stored + pending, cap)
  }

  lemma AheadByNone(cap: nat, w: nat)
    requires w < cap
    ensures AheadBy(cap, w, 0, w)
  {
    ModSmall(w, cap);
  }

  lemma AheadByOneMore(cap: nat, stored: nat, pending: nat, w: nat)
    requires w < cap && AheadBy(cap, stored, pending, w)
    ensures AheadBy(cap, stored, pending + 1, Next(cap, w))
  {
    ModSuccessor(stored + pending, cap);
    if w + 1 < cap {
      ModSmall(w + 1, cap);
    } else {
      DivModUnique(cap, cap, 1, 0);
    }
  }

  /** The position of the oldest of n pending records. */
  function PendingAt(cap: nat, w: nat, n: nat): nat
    requires w < cap && 0 < n <= cap
  {
    Position(cap, w, n, 0)
  }

  /** The j-th record is stored where it is in the ring. */
  predicate InStorage(ring: seq<Slot>, slots: seq<Slot>, w: nat, c: nat, j: nat)
    requires RingShape(ring, w, c) && |slots| == |ring| && j < c
  {
    slots[Position(|ring|, w, c, j)] == ring[Position(|ring|, w, c, j)]
  }

  /**
   Storage against memory: all but the pending records are stored where they are in the ring, and
   memory is the latest part of what was last flushed followed by what was written since.
   */
  ghost predicate Backed(E: BlockFn, keySet: bool, ring: seq<Slot>, w: nat, c: nat, slots: seq<Slot>,
                         pendingStart: nat, pendingCount: nat, flushed: seq<Entry>, since: seq<Record>)
    requires RingShape(ring, w, c) && |slots| == |ring|
  {
    && pendingCount == |since| <= |ring|
    && (pendingCount > 0 ==> pendingStart == PendingAt(|ring|, w, pendingCount))
    && (forall j: nat :: j + pendingCount < c ==> InStorage(ring, slots, w, c, j))
    && c <= |flushed| + |since|
    && View(E, keySet, ring, w, c) == Latest(flushed + Somes(since), c)
  }

  lemma BackedEvict(E: BlockFn, keySet: bool, ring: seq<Slot>, w: nat, c: nat, slots: seq<Slot>,
                    pendingStart: nat, pendingCount: nat, flushed: seq<Entry>, since: seq<Record>)
    requires RingShape(ring, w, c) && |slots| == |ring| && c > 0
    requires Backed(E, keySet, ring, w, c, slots, pendingStart, pendingCount, flushed, since)
    ensures Backed(E, keySet, ring, w, c - 1, slots, pendingStart, pendingCount, flushed, since)
  {
    hide View, Position;
    ViewDrop(E, keySet, ring, w, c);
    var c' := c - 1;
    forall j: nat | j + pendingCount < c' ensures InStorage(ring, slots, w, c', j) {
      PositionShift(|ring|, w, c, j);
      assert InStorage(ring, slots, w, c, j + 1);
    }
  }

  lemma BackedWrite(E: BlockFn, ring: seq<Slot>, w: nat, c: nat, slots: seq<Slot>,
                    pendingStart: nat, pendingCount: nat, flushed: seq<Entry>, since: seq<Record>, r: Record)
    requires RingShape(ring, w, c) && |slots| == |ring| && c < |ring| && pendingCount < |ring|
    requires Backed(E, true, ring, w, c, slots, pendingStart, pendingCount, flushed, since)
    ensures RingShape(ring[w := Encode(E, w, r)], Next(|ring|, w), c + 1)
    ensures Backed(E, true, ring[w := Encode(E, w, r)], Next(|ring|, w), c + 1, slots,
                   if pendingCount == 0 then w else pendingStart, pendingCount + 1, flushed, since + [r])
  {
    hide View, Position, Encode, Next, InStorage, Latest, Somes;
    ViewWrite(E, ring, w, c, r);
    var cap := |ring|;
    var ring', w', c' := ring[w := Encode(E, w, r)], Next(cap, w), c + 1;
    forall j: nat | j + (pendingCount + 1) < c' ensures InStorage(ring', slots, w', c', j) {
      StillStored(ring, slots, w, c, Encode(E, w, r), j);
    }
    if pendingCount == 0 { PositionLast(cap, w, 0); } else { PositionNext(cap, w, pendingCount, 0); }
    LatestAppend(flushed, since, r, c);
  }

  lemma StillStored(ring: seq<Slot>, slots: seq<Slot>, w: nat, c: nat, slot: Slot, j: nat)
    requires RingShape(ring, w, c) && |slots| == |ring| && j < c < |ring| && InStorage(ring, slots, w, c, j)
    ensures InStorage(ring[w := slot], slots, Next(|ring|, w), c + 1, j)
  {
    hide Position, Next;
    PositionNext(|ring|, w, c, j);
  }

  lemma LatestAppend(flushed: seq<Entry>, since: seq<Record>, r: Record, c: nat)
    requires c <= |flushed| + |since|
    ensures Latest(flushed + Somes(since + [r]), c + 1) == Latest(flushed + Somes(since), c) + [Some(r)]
  {
    assert Somes(since + [r]) == Somes(since) + [Some(r)];
    assert flushed + Somes(since + [r]) == (flushed + Somes(since)) + [Some(r)];
  }

  /** After every pending slot has been stored, storage restores exactly what memory holds. */
  lemma BackedFlush(E: BlockFn, keySet: bool, ring: seq<Slot>, w: nat, c: nat, slots: seq<Slot>, slots': seq<Slot>,
                    pendingStart: nat, pendingCount: nat, flushed: seq<Entry>, since: seq<Record>)
    requires RingShape(ring, w, c) && |slots| == |ring| == |slots'|
    requires Backed(E, keySet, ring, w, c, slots, pendingStart, pendingCount, flushed, since)
    requires forall p :: 0 <= p < |ring| ==> slots'[p] == slots[p] || slots'[p] == ring[p]
    requires forall i: nat :: i < pendingCount ==> slots'[Position(|ring|, w, pendingCount, i)] == ring[Position(|ring|, w, pendingCount, i)]
    ensures Stored(E, keySet, slots', c, w) == View(E, keySet, ring, w, c)
    ensures Backed(E, keySet, ring, w, c, slots', 0, 0, View(E, keySet, ring, w, c), [])
  {
    hide ReadSlot, Position;
    var cap := |ring|;
    DivModUnique(w, cap, 0, w);
    forall j: nat | j < c ensures slots'[Position(cap, w, c, j)] == ring[Position(cap, w, c, j)] {
      if j + pendingCount >= c {
        PositionOfPending(cap, w, c, pendingCount, j);
      } else {
        assert InStorage(ring, slots, w, c, j);
      }
    }
    assert View(E, keySet, slots', w, c) == View(E, keySet, ring, w, c);
    assert View(E, keySet, ring, w, c) + Somes([]) == View(E, keySet, ring, w, c);
  }

  lemma PositionOfPending(cap: nat, w: nat, c: nat, n: nat, j: nat)
    requires w < cap && j < c <= cap && n <= cap && j + n >= c
    ensures Position(cap, w, c, j) == Position(cap, w, n, j + n - c)
  {
  }

  /** Loading gives back what was stored, with nothing pending. */
  lemma BackedLoad(E: BlockFn, keySet: bool, slots: seq<Slot>, count: nat, w: nat)
    requires 0 < |slots| < U32_MODULUS
    ensures var c, w' := if count <= |slots| then count else 0, if count <= |slots| then Mod(w, |slots|) else 0;
            && RingShape(slots, w', c)
            && Backed(E, keySet, slots, w', c, slots, 0, 0, Stored(E, keySet, slots, count, w), [])
            && View(E, keySet, slots, w', c) == Stored(E, keySet, slots, count, w)
  {
    hide ReadSlot, Position;
    DivisionTheorem(w, |slots|);
    var s := Stored(E, keySet, slots, count, w);
    assert s + Somes([]) == s;
  }
}
