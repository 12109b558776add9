/**
 Whole runs of the historian: what any number of writes leaves, told from the written records alone.
 */
module HistorianRuns {
  import opened Arith
  import opened Bytes
  import opened Words
  import opened HistorianRecords
  import opened HistorianRing
  import opened Historian

  /** What a run of writes into an empty ring leaves, write by write. */
  function Retained(rs: seq<Record>, cap: nat): (es: seq<Entry>)
    requires cap > 0
  {
    if rs == [] then []
    else
      var last := rs[|rs| - 1];
      Kept(Retained(rs[..|rs| - 1], cap), last.timestamp, cap) + [Some(last)]
  }

  /** Timestamps above zero that never decrease and end at now at the latest. */
  ghost predicate Orderly(rs: seq<Record>, now: U64) {
    && (forall i :: 0 <= i < |rs| ==> 0 < rs[i].timestamp <= now)
    && (forall i, j :: 0 <= i < j < |rs| ==> rs[i].timestamp <= rs[j].timestamp)
  }

  predicate Recent(r: Record, now: U64) {
    now - r.timestamp <= THIRTY_DAYS_MS
  }

  /** What a write throws away last is stale, unless the ring was full. */
  lemma KeptFacts(es: seq<Entry>, now: U64, cap: nat)
    requires cap > 0
    ensures var r := Kept(es, now, cap);
            && |r| <= |es| && r == es[|es| - |r|..]
            && (|r| < |es| && |r| + 1 < cap ==> Stale(es[|es| - |r| - 1], now))
  {
    hide Evicted, Stale;
    EvictedShorter(es, now);
    EvictedIsLongestPrefix(es, now);
    KeptSuffix(es, now, cap);
  }

  lemma OrderedSomes(rs: seq<Record>, s: nat, n: nat, now: U64)
    requires s <= n <= |rs| && Orderly(rs[..n], now)
    ensures Ordered(Somes(rs[s..n]), now)
  {
    assert rs[s..n] == rs[..n][s..];
    OrderedEnd(rs[..n], s, now);
  }

  lemma OrderedEnd(rs: seq<Record>, s: nat, now: U64)
    requires s <= |rs| && Orderly(rs, now)
    ensures Ordered(Somes(rs[s..]), now)
  {
  }

  lemma StaleIsNotRecent(r: Record, now: U64)
    requires Stale(Some(r), now)
    ensures r.timestamp <= now ==> !Recent(r, now)
  {
  }

  lemma RecentIs(r: Record, now: U64)
    ensures Recent(r, now) <==> now - r.timestamp <= THIRTY_DAYS_MS
  {
  }

  /** These are the latest of the records from s to n, all recent; an older one was not recent or did not fit. */
  ghost predicate KeptFrom(rs: seq<Record>, s: nat, n: nat, now: U64, cap: nat, r: seq<Entry>)
    requires s <= n <= |rs|
  {
    && |r| < cap && |r| <= n - s && r == Somes(rs[n - |r|..n])
    && (forall i :: n - |r| <= i < n ==> Recent(rs[i], now))
    && (|r| < n - s && |r| + 1 < cap ==> !Recent(rs[n - |r| - 1], now))
  }

  /** One write, told on the records. */
  lemma KeptOfSuffix(rs: seq<Record>, s: nat, n: nat, now: U64, cap: nat)
    requires s <= n <= |rs| && cap > 0 && Orderly(rs[..n], now)
    ensures KeptFrom(rs, s, n, now, cap, Kept(Somes(rs[s..n]), now, cap))
  {
    hide Kept, Stale, Ordered, Recent;
    var es := Somes(rs[s..n]);
    var r := Kept(es, now, cap);
    KeptFacts(es, now, cap);
    assert r == Somes(rs[n - |r|..n]);
    OrderedSomes(rs, s, n, now);
    KeptIsRecent(es, now, cap);
    forall i | n - |r| <= i < n ensures Recent(rs[i], now) {
      assert r[i - (n - |r|)] == Some(rs[i]);
      RecentIs(rs[i], now);
    }
    if |r| < n - s && |r| + 1 < cap {
      assert rs[..n][n - |r| - 1] == rs[n - |r| - 1];
      StaleIsNotRecent(rs[n - |r| - 1], now);
    }
  }

  /** The longest end of the first n records that fits the capacity and reaches back thirty days at most. */
  ghost predicate LongestRecentEnd(rs: seq<Record>, n: nat, cap: nat, es: seq<Entry>)
    requires 0 < n <= |rs|
  {
    var k, now := |es|, rs[n - 1].timestamp;
    && 0 < k <= cap && k <= n && es == Somes(rs[n - k..n])
    && (forall i :: n - k <= i < n ==> Recent(rs[i], now))
    && (k < n && k < cap ==> !Recent(rs[n - k - 1], now))
  }

  /** The record written joins what was kept of those before it. */
  lemma EndGrows(rs: seq<Record>, m: nat, cap: nat, before: seq<Entry>, r: seq<Entry>)
    requires cap > 0 && m < |rs| && |before| <= m && (m > 0 ==> rs[m - 1].timestamp <= rs[m].timestamp)
    requires if m == 0 then before == [] else LongestRecentEnd(rs, m, cap, before)
    requires KeptFrom(rs, m - |before|, m, rs[m].timestamp, cap, r)
    ensures LongestRecentEnd(rs, m + 1, cap, r + [Some(rs[m])])
  {
    hide Recent, Somes;
    SomesNext(rs, m - |r|, m);
    RecentIs(rs[m], rs[m].timestamp);
    if |r| + 1 < m + 1 && |r| + 1 < cap && |r| == |before| {
      OlderIsOld(rs[m - |before| - 1], rs[m - 1].timestamp, rs[m].timestamp);
    }
  }

  lemma SomesNext(rs: seq<Record>, i: nat, m: nat)
    requires i <= m < |rs|
    ensures Somes(rs[i..m]) + [Some(rs[m])] == Somes(rs[i..m + 1])
  {
    assert rs[i..m] + [rs[m]] == rs[i..m + 1];
  }

  /** Not recent when the record before was written, not recent now. */
  lemma OlderIsOld(r: Record, before: U64, now: U64)
    requires before <= now && !Recent(r, before)
    ensures !Recent(r, now)
  {
  }

  /**
   With an orderly clock, what is held is the longest end of everything ever written that fits the
   capacity and reaches back at most thirty days from the newest record.
   */
  lemma {:induction false} RetainedIs(rs: seq<Record>, n: nat, cap: nat)
    requires cap > 0 && 0 < n <= |rs| && Orderly(rs, rs[|rs| - 1].timestamp)
    ensures LongestRecentEnd(rs, n, cap, Retained(rs[..n], cap))
  {
    hide Kept, LongestRecentEnd, KeptFrom;
    var m := n - 1;
    var before := Retained(rs[..m], cap);
    assert rs[..n][..m] == rs[..m];
    if m > 0 {
      RetainedIs(rs, m, cap);
      EndIsSomes(rs, m, cap, before);
    } else {
      assert before == [] == Somes(rs[0..0]);
    }
    OrderlyPrefix(rs, m);
    KeptOfSuffix(rs, m - |before|, m, rs[m].timestamp, cap);
    EndGrows(rs, m, cap, before, Kept(before, rs[m].timestamp, cap));
  }

  lemma OrderlyPrefix(rs: seq<Record>, m: nat)
    requires m < |rs| && Orderly(rs, rs[|rs| - 1].timestamp)
    ensures Orderly(rs[..m], rs[m].timestamp) && (m > 0 ==> rs[m - 1].timestamp <= rs[m].timestamp)
  {
  }

  lemma EndIsSomes(rs: seq<Record>, n: nat, cap: nat, es: seq<Entry>)
    requires 0 < n <= |rs| && LongestRecentEnd(rs, n, cap, es)
    ensures |es| <= n && es == Somes(rs[n - |es|..n])
  {
  }

  lemma {:induction false} RetainedLength(rs: seq<Record>, cap: nat)
    requires cap > 0
    ensures |Retained(rs, cap)| <= |rs|
    decreases |rs|
  {
    hide Kept;
    if rs != [] {
      RetainedLength(rs[..|rs| - 1], cap);
    }
  }

  lemma NothingRetained(rs: seq<Record>, cap: nat)
    requires cap > 0
    ensures Retained(rs[..0], cap) == []
  {
  }

  lemma RetainedNext(rs: seq<Record>, i: nat, cap: nat)
    requires cap > 0 && i < |rs|
    ensures Retained(rs[..i + 1], cap) == Kept(Retained(rs[..i], cap), rs[i].timestamp, cap) + [Some(rs[i])]
  {
    hide Kept;
    assert rs[..i + 1][..i] == rs[..i];
  }

  /** After i writes into an empty historian: the ring, and what storage has of it since k writes. */
  ghost predicate AfterWrites(h: Historian, records: seq<Record>, i: nat, k: nat)
    requires i <= |records| && h.cap > 0
    reads h, h.ring, h.storage
  {
    && h.Valid() && h.initialised && h.Entries() == Retained(records[..i], h.cap)
    && (h.storage != null ==> k <= i && h.flushed == Retained(records[..k], h.cap) && h.since == records[k..i])
  }

  /** Nothing held, nothing stored and nothing counted yet. */
  ghost predicate Empty(h: Historian)
    reads h, h.ring, h.storage
  {
    && h.Valid() && h.initialised && h.keySet && h.Entries() == [] && h.flushed == [] && h.since == []
    && h.stats == NO_STATS && h.base == 0
  }

  /** Writes the records one after the other; the statistics account for every record, and storage is never far behind. */
  method WriteAll(h: Historian, records: seq<Record>) returns (ghost k: nat)
    requires h.cap > 0 && Empty(h)
    modifies h, h.ring, h.storage
    ensures h.Valid() && h.initialised && h.stats.writeErrors == 0
    ensures h.Entries() == Retained(records, h.cap)
    ensures |records| < U32_MODULUS ==> h.stats.written == |records| && h.stats.evicted + h.count == |records|
    ensures h.storage != null ==> k <= |records| && h.flushed == Retained(records[..k], h.cap) && h.since == records[k..]
  {
    hide Kept, Retained, EvictionErrors, View, Balanced, FlushDue, AfterWrites, Historian.Recoverable;
    k := 0;
    AfterNothing(h, records);
    for i := 0 to |records|
      invariant AfterWrites(h, records, i, k) && h.base == 0 && h.stats.writeErrors == 0
      invariant i < U32_MODULUS ==> h.stats.written == i
    {
      k := WriteNext(h, records, i, k);
    }
    AfterAll(h, records, k);
    RetainedLength(records, h.cap);
    if |records| < U32_MODULUS {
      Conservation(h.stats, h.count);
    }
  }

  lemma AfterNothing(h: Historian, records: seq<Record>)
    requires h.cap > 0 && Empty(h)
    ensures AfterWrites(h, records, 0, 0)
  {
    hide Retained;
    NothingRetained(records, h.cap);
  }

  lemma AfterAll(h: Historian, records: seq<Record>, k: nat)
    requires h.cap > 0 && AfterWrites(h, records, |records|, k)
    ensures h.Valid() && h.initialised && h.Entries() == Retained(records, h.cap)
    ensures h.storage != null ==> k <= |records| && h.flushed == Retained(records[..k], h.cap) && h.since == records[k..]
  {
    hide Retained, View;
    assert records[..|records|] == records && (k <= |records| ==> records[k..|records|] == records[k..]);
  }

  method WriteNext(h: Historian, records: seq<Record>, i: nat, ghost k: nat) returns (ghost k': nat)
    requires h.cap > 0 && i < |records| && h.keySet && AfterWrites(h, records, i, k)
    modifies h, h.ring, h.storage
    ensures AfterWrites(h, records, i + 1, k')
    ensures h.base == old(h.base) && h.stats.writeErrors == old(h.stats.writeErrors)
    ensures h.stats.written == Successor(old(h.stats.written))
  {
    hide Kept, Retained, EvictionErrors, View, Balanced, FlushDue, Encode, Next, Historian.Recoverable, Historian.Shape;
    RetainedNext(records, i, h.cap);
    k' := if FlushDue(h.pendingCount + 1, h.lastFlushMs, records[i].timestamp) then i + 1 else k;
    assert records[i + 1..i + 1] == [];
    assert k <= i ==> records[k..i] + [records[i]] == records[k..i + 1];
    var ok := h.Write(records[i]);
  }

  /**
   Restarting after any run of writes holds what a historian would hold that had been given only the
   first k of the records, and fewer than 64 are missing.
   */
  method RunAndRecover(h: Historian, records: seq<Record>) returns (recovered: Historian, ghost k: nat)
    requires h.cap > 0 && Empty(h) && h.storage != null
    modifies h, h.ring, h.storage
    ensures recovered.Valid() && recovered.cap == h.cap
    ensures k <= |records| && |records| - k < PENDING_MAX
    ensures recovered.Entries() == Retained(records[..k], h.cap)
  {
    hide Retained, View, Historian.Recoverable, Historian.Shape;
    k := WriteAll(h, records);
    recovered := CrashAndRecover(h);
  }

  // ---------------------------------------------------------------- nonces

  /** The ring position of the i-th write from write index w on. */
  function PositionOfWrite(cap: nat, w: nat, i: nat): (p: nat)
    requires cap > 0
    ensures p < cap
  {
    (w + i) % cap
  }

  lemma PositionOfNext(cap: nat, w: nat, i: nat)
    requires cap > 0
    ensures PositionOfWrite(cap, w, i + 1) == Next(cap, PositionOfWrite(cap, w, i))
    ensures w < cap ==> PositionOfWrite(cap, w, 0) == w
  {
    var q, r := (w + i) / cap, (w + i) % cap;
    DivisionTheorem(w + i, cap);
    if r + 1 < cap {
      DivModUnique(w + i + 1, cap, q, r + 1);
    } else {
      MulNext(q, cap);
      DivModUnique(w + i + 1, cap, q + 1, 0);
    }
    if w < cap {
      DivModUnique(w, cap, 0, w);
    }
  }

  lemma MulNext(q: int, cap: int)
    ensures (q + 1) * cap == q * cap + cap
  {
  }

  lemma SamePosition(cap: nat, w: nat, i: nat, j: nat)
    requires cap > 0 && i <= j
    ensures PositionOfWrite(cap, w, i) == PositionOfWrite(cap, w, j) <==> (j - i) % cap == 0
  {
    ModEqual(w + j, w + i, cap);
  }

  /** In a run of writes, two are encrypted under the same nonce exactly when they are a multiple of the capacity apart. */
  lemma NoncesOfRun(cap: nat, w: nat, i: nat, j: nat)
    requires 0 < cap < U32_MODULUS && i <= j
    ensures PositionNonce(PositionOfWrite(cap, w, i)) == PositionNonce(PositionOfWrite(cap, w, j)) <==> (j - i) % cap == 0
  {
    hide PositionNonce, PositionOfWrite;
    PositionNonceInjective(PositionOfWrite(cap, w, i), PositionOfWrite(cap, w, j));
    SamePosition(cap, w, i, j);
  }

  /** A run of writes from any state, with the slot each record was encrypted into. */
  method WriteSlots(h: Historian, records: seq<Record>) returns (slots: seq<Slot>)
    requires h.Valid() && h.initialised && h.keySet && 0 < h.cap < U32_MODULUS
    modifies h, h.ring, h.storage
    ensures h.Valid() && h.initialised
    ensures h.writeIndex == PositionOfWrite(h.cap, old(h.writeIndex), |records|)
    ensures |slots| == |records|
    ensures forall i :: 0 <= i < |records| ==>
      slots[i] == Encode(h.E, PositionOfWrite(h.cap, old(h.writeIndex), i), records[i])
  {
    hide Kept, Encode, EvictionErrors, View, Balanced, FlushDue, Next, PositionOfWrite, Historian.Recoverable;
    ghost var w := h.writeIndex;
    slots := [];
    PositionOfNext(h.cap, w, 0);
    for i := 0 to |records|
      invariant h.Valid() && h.initialised && h.writeIndex == PositionOfWrite(h.cap, w, i) && |slots| == i
      invariant forall k :: 0 <= k < i ==> slots[k] == Encode(h.E, PositionOfWrite(h.cap, w, k), records[k])
    {
      PositionOfNext(h.cap, w, i);
      var at := h.writeIndex;
      var ok := h.Write(records[i]);
      assert h.ring[..][at] == h.ring[at];
      slots := slots + [h.ring[at]];
    }
  }
  /** Positions after a restart against positions before it, when the write index comes back by the records lost. */
  lemma SamePositionAcross(cap: nat, w: nat, n: nat, lost: nat, w': nat, i: nat, j: nat)
    requires cap > 0 && (w + n) % cap == (w' + lost) % cap
    ensures PositionOfWrite(cap, w, i) == PositionOfWrite(cap, w', j) <==> (n - lost + j - i) % cap == 0
  {
    var back := w' + lost - (w + n);
    ModEqual(w' + lost, w + n, cap);
    ModEqual(w' + j, w + i, cap);
    ModEqual(w' + j - (w + i), back, cap);
    assert w' + j - (w + i) - back == n - lost + j - i;
  }

  /**
   A restart takes the write index back by the records that were lost, so their nonces are used again
   without the ring ever wrapping: write j after it repeats the nonce of write i before it exactly when
   j follows the records kept by as much as i does, give or take whole turns of the ring.
   */
  method RestartReuses(h: Historian, before: seq<Record>, after: seq<Record>)
    returns (olds: seq<Slot>, news: seq<Slot>, lost: nat, w': nat)
    requires h.Valid() && h.initialised && h.keySet && 0 < h.cap < U32_MODULUS && h.storage != null
    modifies h, h.ring, h.storage
    ensures |olds| == |before| && |news| == |after| && lost < PENDING_MAX
    ensures forall i :: 0 <= i < |before| ==> olds[i] == Encode(h.E, PositionOfWrite(h.cap, old(h.writeIndex), i), before[i])
    ensures forall j :: 0 <= j < |after| ==> news[j] == Encode(h.E, PositionOfWrite(h.cap, w', j), after[j])
    ensures forall i: nat, j: nat ::
      PositionNonce(PositionOfWrite(h.cap, old(h.writeIndex), i)) == PositionNonce(PositionOfWrite(h.cap, w', j))
      <==> (|before| - lost + j - i) % h.cap == 0
    ensures lost == |h.since|
  {
    hide Encode, View, PositionNonce, PositionOfWrite, Balanced, Historian.Recoverable, Historian.Shape, Historian.Entries;
    ghost var w, n := h.writeIndex, |before|;
    olds := WriteSlots(h, before);
    var recovered := CrashAndRecover(h);
    lost, w' := h.pendingCount, recovered.writeIndex;
    h.PendingIsSince();
    BackBy(h.cap, w, n, lost, w', h.writeIndex);
    news := WriteSlots(recovered, after);
    forall i: nat, j: nat
      ensures PositionNonce(PositionOfWrite(h.cap, w, i)) == PositionNonce(PositionOfWrite(h.cap, w', j)) <==> (n - lost + j - i) % h.cap == 0
    {
      SamePositionAcross(h.cap, w, n, lost, w', i, j);
      PositionNonceInjective(PositionOfWrite(h.cap, w, i), PositionOfWrite(h.cap, w', j));
    }
  }
  lemma BackBy(cap: nat, w: nat, n: nat, lost: nat, w': nat, now: nat)
    requires cap > 0 && now == PositionOfWrite(cap, w, n) && AheadBy(cap, w', lost, now)
    ensures (w + n) % cap == (w' + lost) % cap
  {
  }

  /** One write, with the slot it was encrypted into; it stays unflushed unless a flush is due. */
  method WriteSlot(h: Historian, r: Record) returns (slot: Slot)
    requires h.Valid() && h.initialised && h.keySet
    modifies h, h.ring, h.storage
    ensures h.Valid() && h.initialised && slot == Encode(h.E, old(h.writeIndex), r)
    ensures h.writeIndex == Next(h.cap, old(h.writeIndex))
    ensures h.storage != null && !FlushDue(old(h.pendingCount) + 1, old(h.lastFlushMs), r.timestamp) ==> h.since == old(h.since) + [r]
  {
    hide Encode, View, Kept, EvictionErrors, Balanced, FlushDue, Next, Historian.Recoverable, Historian.Entries;
    var at := h.writeIndex;
    var ok := h.Write(r);
    assert h.ring[..][at] == h.ring[at];
    slot := h.ring[at];
  }

  /** The shortest case: a record written and lost, and the first record after the restart, under one nonce. */
  method RestartLeaks(h: Historian, r: Record, r': Record) returns (slot: Slot, slot': Slot)
    requires h.Valid() && h.initialised && h.keySet && 0 < h.cap < U32_MODULUS && h.storage != null
    requires h.pendingCount == 0 && !FlushDue(1, h.lastFlushMs, r.timestamp)
    modifies h, h.ring, h.storage
    ensures slot == Encode(h.E, old(h.writeIndex), r) && slot' == Encode(h.E, old(h.writeIndex), r')
    ensures Xor(slot[..24], slot'[..24]) == Xor(Pack(r), Pack(r'))
  {
    hide Encode, View, Balanced, FlushDue, Pack, Xor, Historian.Recoverable, Historian.Entries;
    ghost var w := h.writeIndex;
    h.PendingIsSince();
    slot := WriteSlot(h, r);
    var recovered := CrashAndRecover(h);
    OneBack(h.cap, w, recovered.writeIndex);
    slot' := WriteSlot(recovered, r');
    SamePositionLeaks(h.E, w, r, r');
  }

  lemma OneBack(cap: nat, w: nat, w': nat)
    requires w < cap && w' < cap && AheadBy(cap, w', 1, Next(cap, w))
    ensures w' == w
  {
    NextByMod(cap, w);
    ModEqual(w' + 1, w + 1, cap);
    if w' != w {
      ModSmall(if w' > w then w' - w else w' - w + cap, cap);
      ModStep(w' - w + cap, cap);
    }
  }
}
