/** The historian: an encrypted ring in memory, written through to storage in batches. */
module Historian {
  import opened Arith
  import opened Bytes
  import opened CbcMode
  import opened HistorianRecords
  import opened HistorianRing
  import opened Words

  /** Counters as the source keeps them, in 32 bits. */
  datatype Stats = Stats(written: U32, evicted: U32, writeErrors: U32, encErrors: U32, decErrors: U32)

  const NO_STATS := Stats(0, 0, 0, 0, 0)

  /** Records loaded or written are those evicted and those held, as 32-bit counters count. */
  ghost predicate Balanced(base: nat, stats: Stats, count: nat) {
    Mod(base + stats.written, U32_MODULUS) == Mod(stats.evicted + count, U32_MODULUS)
  }

  lemma BalancedIs(base: nat, written: U32, evicted: U32, count: nat)
    ensures Mod(base + written, U32_MODULUS) == Mod(evicted + count, U32_MODULUS)
            <==> (base + written - evicted - count) % U32_MODULUS == 0
  {
  }

  lemma BalanceEvict(base: nat, s: Stats, s': Stats, count: nat)
    requires count > 0 && Balanced(base, s, count) && s'.written == s.written && s'.evicted == Successor(s.evicted)
    ensures Balanced(base, s', count - 1)
  {
    BalancedIs(base, s.written, s.evicted, count);
    BalancedIs(base, s'.written, s'.evicted, count - 1);
  }

  lemma BalanceWrite(base: nat, s: Stats, s': Stats, count: nat)
    requires Balanced(base, s, count) && s'.written == Successor(s.written) && s'.evicted == s.evicted
    ensures Balanced(base, s', count + 1)
  {
    BalancedIs(base, s.written, s.evicted, count);
    BalancedIs(base, s'.written, s'.evicted, count + 1);
  }

  /** From an empty start, and before the counters wrap, what is held is what was written less what was evicted. */
  lemma Conservation(stats: Stats, count: nat)
    requires Balanced(0, stats, count) && count <= stats.written
    ensures stats.written - stats.evicted == count
  {
    BalancedIs(0, stats.written, stats.evicted, count);
  }

  /** The storage backend: appends and loads that succeed. */
  class Storage {
    var slots: seq<Slot>
    var count: nat
    var writeIndex: nat

    constructor (slots: seq<Slot>, count: nat, writeIndex: nat)
      ensures this.slots == slots && this.count == count && this.writeIndex == writeIndex
    {
      this.slots, this.count, this.writeIndex := slots, count, writeIndex;
    }

    method Append(index: nat, record: Slot, count: nat, writeIndex: nat) returns (ok: bool)
      requires index < |slots|
      modifies this
      ensures ok && slots == old(slots)[index := record] && this.count == count && this.writeIndex == writeIndex
    {
      slots := slots[index := record];
      this.count, this.writeIndex := count, writeIndex;
      ok := true;
    }

    method Load() returns (ok: bool, slots: seq<Slot>, count: nat, writeIndex: nat)
      ensures ok && slots == this.slots && count == this.count && writeIndex == this.writeIndex
    {
      ok, slots, count, writeIndex := true, this.slots, this.count, this.writeIndex;
    }
  }

  class Historian {
    const cap: nat
    const E: BlockFn
    const keySet: bool
    const storage: Storage?
    const ring: array<Slot>
    var writeIndex: nat
    var count: nat
    var pendingStart: nat
    var pendingCount: nat
    var lastFlushMs: U64
    var stats: Stats
    var initialised: bool
    /** What storage holds, and what has been written since it was last brought up to date. */
    ghost var flushed: seq<Entry>
    ghost var since: seq<Record>
    /** The number of records held when the statistics were last zero. */
    ghost var base: nat

    ghost predicate Shape()
      reads this, ring
    {
      && PENDING_MAX <= cap == ring.Length
      && RingShape(ring[..], writeIndex, count)
    }

    ghost predicate StorageShape()
      reads this, storage
    {
      storage != null ==> |storage.slots| == cap
    }

    /** What recovery rests on. */
    ghost predicate Recoverable()
      requires Shape() && StorageShape() && storage != null
      reads this, ring, storage
    {
      && Stored(E, keySet, storage.slots, storage.count, storage.writeIndex) == flushed
      && Backed(E, keySet, ring[..], writeIndex, count, storage.slots, pendingStart, pendingCount, flushed, since)
      && AheadBy(cap, StoredIndex(cap, storage.count, storage.writeIndex), pendingCount, writeIndex)
    }

    ghost predicate Valid()
      reads this, ring, storage
    {
      && Shape() && StorageShape() && Balanced(base, stats, count)
      && (initialised && storage != null ==> Recoverable() && pendingCount < PENDING_MAX)
    }

    /** The records held, oldest first. */
    ghost function Entries(): seq<Entry>
      requires Shape()
      reads this, ring
    {
      View(E, keySet, ring[..], writeIndex, count)
    }

    constructor (cap: nat, E: BlockFn, keySet: bool, storage: Storage?)
      requires PENDING_MAX <= cap < U32_MODULUS && (storage != null ==> |storage.slots| == cap)
      ensures Valid() && !initialised && Entries() == []
      ensures this.cap == cap && this.E == E && this.keySet == keySet && this.storage == storage && fresh(ring)
    {
      this.cap, this.E, this.keySet, this.storage := cap, E, keySet, storage;
      ring := new Slot[cap](_ => Zeros(40));
      writeIndex, count, pendingStart, pendingCount, lastFlushMs := 0, 0, 0, 0, 0;
      stats, initialised, flushed, since, base := NO_STATS, false, [], [], 0;
    }

    /** Overwrites the whole ring. */
    method FillRing(slots: seq<Slot>)
      requires |slots| == ring.Length
      modifies ring
      ensures ring[..] == slots
    {
      for i := 0 to ring.Length
        invariant ring[..i] == slots[..i]
      {
        ring[i] := slots[i];
      }
    }

    /** historian_init: what storage holds becomes what memory holds. */
    method Init() returns (ok: bool)
      requires Valid()
      modifies this, ring
      ensures Valid() && ok && initialised && stats == NO_STATS && pendingCount == 0 && since == []
      ensures flushed == Entries() && base == count
      ensures writeIndex == if storage == null then 0 else StoredIndex(cap, storage.count, storage.writeIndex)
      ensures Entries() == if storage == null then []
        else Stored(E, keySet, storage.slots, storage.count, storage.writeIndex)
    {
      hide Stored, View, Backed;
      FillRing(seq(cap, _ => Zeros(40)));
      writeIndex, count, pendingStart, pendingCount, lastFlushMs := 0, 0, 0, 0, 0;
      stats, flushed, since, base := NO_STATS, [], [], 0;
      if storage != null {
        Restore();
      }
      initialised := true;
      ok := true;
    }

    /** Loads from storage; a count beyond the capacity leaves the ring empty. */
    method Restore()
      requires Shape() && StorageShape() && storage != null && writeIndex == 0 == count && pendingStart == 0 == pendingCount && since == []
      modifies this`writeIndex, this`count, this`flushed, this`base, ring
      ensures Shape() && Recoverable() && base == count
      ensures writeIndex == StoredIndex(cap, storage.count, storage.writeIndex)
      ensures flushed == Entries() == Stored(E, keySet, storage.slots, storage.count, storage.writeIndex)
    {
      hide Backed, Stored, View;
      var loaded, slots, loadedCount, loadedWriteIndex := storage.Load();
      FillRing(slots);
      BackedLoad(E, keySet, slots, loadedCount, loadedWriteIndex);
      if loadedCount <= cap {
        count := loadedCount;
        writeIndex := loadedWriteIndex % cap;
      }
      AheadByNone(cap, writeIndex);
      flushed, base := Stored(E, keySet, storage.slots, storage.count, storage.writeIndex), count;
    }

    /** historian_buffer_for_flush */
    method BufferForFlush(ringIndex: nat)
      modifies this`pendingStart, this`pendingCount
      ensures pendingStart == (if old(pendingCount) == 0 then ringIndex else old(pendingStart))
      ensures pendingCount == old(pendingCount) + 1
    {
      if pendingCount == 0 {
        pendingStart := ringIndex;
      }
      pendingCount := pendingCount + 1;
    }

    /** historian_flush: afterwards storage restores exactly what memory holds. */
    method Flush(now: U64)
      requires Shape() && StorageShape() && Balanced(base, stats, count)
      requires initialised && storage != null ==> Recoverable()
      modifies this`pendingStart, this`pendingCount, this`lastFlushMs, this`flushed, this`since, storage
      ensures Shape() && StorageShape() && Balanced(base, stats, count) && Entries() == old(Entries())
      ensures initialised && storage != null ==> Recoverable() && pendingCount == 0
      ensures initialised && storage != null && old(pendingCount) > 0 ==> flushed == Entries() && since == [] && lastFlushMs == now
      ensures initialised && storage != null && old(pendingCount) == 0 ==>
        flushed == old(flushed) && since == old(since) && lastFlushMs == old(lastFlushMs)
      ensures !initialised || storage == null ==> unchanged(this) && (storage != null ==> unchanged(storage))
    {
      hide Stored, View, ReadSlot;
      if !initialised || pendingCount == 0 || storage == null {
        return;
      }
      ghost var slots0 := storage.slots;
      StorePending();
      BackedFlush(E, keySet, ring[..], writeIndex, count, slots0, storage.slots, pendingStart, pendingCount, flushed, since);
      AheadByNone(cap, writeIndex);
      assert writeIndex % cap == writeIndex;
      pendingCount, pendingStart, lastFlushMs := 0, 0, now;
      flushed, since := Entries(), [];
    }

    /** The loop of historian_flush. */
    method StorePending()
      requires Shape() && StorageShape() && storage != null && 0 < pendingCount <= cap
      requires pendingStart == PendingAt(cap, writeIndex, pendingCount)
      modifies storage
      ensures |storage.slots| == cap && storage.count == count && storage.writeIndex == writeIndex
      ensures forall p :: 0 <= p < cap ==> storage.slots[p] == old(storage.slots)[p] || storage.slots[p] == ring[..][p]
      ensures forall i: nat :: i < pendingCount ==>
        storage.slots[Position(cap, writeIndex, pendingCount, i)] == ring[..][Position(cap, writeIndex, pendingCount, i)]
    {
      hide Position;
      ghost var slots0 := storage.slots;
      for i := 0 to pendingCount
        invariant |storage.slots| == cap
        invariant i > 0 ==> storage.count == count && storage.writeIndex == writeIndex
        invariant forall p :: 0 <= p < cap ==> storage.slots[p] == slots0[p] || storage.slots[p] == ring[..][p]
        invariant forall k: nat :: k < i ==>
          storage.slots[Position(cap, writeIndex, pendingCount, k)] == ring[..][Position(cap, writeIndex, pendingCount, k)]
      {
        PendingByMod(cap, writeIndex, pendingCount, i);
        var pos := (pendingStart + i) % cap;
        var ok := storage.Append(pos, ring[pos], count, writeIndex);
      }
    }

    /** historian_auto_flush */
    method AutoFlush(now: U64)
      requires Shape() && StorageShape() && Balanced(base, stats, count) && initialised
      requires storage != null ==> Recoverable()
      modifies this`pendingStart, this`pendingCount, this`lastFlushMs, this`flushed, this`since, storage
      ensures Shape() && StorageShape() && Balanced(base, stats, count) && Entries() == old(Entries())
      ensures storage != null ==> Recoverable() && pendingCount < PENDING_MAX
      ensures storage != null ==>
        if old(pendingCount) > 0 && FlushDue(old(pendingCount), old(lastFlushMs), now) then
          flushed == Entries() && since == [] && pendingCount == 0 && lastFlushMs == now
        else flushed == old(flushed) && since == old(since) && pendingCount == old(pendingCount) && lastFlushMs == old(lastFlushMs)
      ensures storage == null ==> unchanged(this)
    {
      hide Recoverable, Balanced, View;
      if pendingCount >= PENDING_MAX {
        Flush(now);
      } else if lastFlushMs > 0 && Sub64(now, lastFlushMs) >= FLUSH_INTERVAL_MS {
        Flush(now);
      }
    }

    /** One record leaves at the old end. */
    method DropOldest(corrupt: bool)
      requires Shape() && StorageShape() && Balanced(base, stats, count) && count > 0
      requires initialised && storage != null ==> Recoverable()
      modifies this`count, this`stats
      ensures Shape() && StorageShape() && Balanced(base, stats, count) && count == old(count) - 1
      ensures initialised && storage != null ==> Recoverable()
      ensures Entries() == old(Entries())[1..]
      ensures stats == old(stats).(evicted := Successor(old(stats).evicted),
                                   decErrors := if corrupt then Successor(old(stats).decErrors) else old(stats).decErrors)
    {
      hide Backed, Stored, View, Balanced, Position;
      ViewDrop(E, keySet, ring[..], writeIndex, count);
      if initialised && storage != null {
        BackedEvict(E, keySet, ring[..], writeIndex, count, storage.slots, pendingStart, pendingCount, flushed, since);
      }
      var s' := stats.(evicted := Successor(stats.evicted), decErrors := if corrupt then Successor(stats.decErrors) else stats.decErrors);
      BalanceEvict(base, stats, s', count);
      count := count - 1;
      stats := s';
    }

    /** The loop that evicts by age. */
    method EvictOld(now: U64)
      requires Shape() && StorageShape() && Balanced(base, stats, count)
      requires initialised && storage != null ==> Recoverable()
      modifies this`count, this`stats
      ensures Shape() && StorageShape() && Balanced(base, stats, count)
      ensures initialised && storage != null ==> Recoverable()
      ensures Entries() == Evicted(old(Entries()), now)
      ensures stats.decErrors == EvictionErrors(old(stats.decErrors), old(Entries()), now)
      ensures stats.written == old(stats.written) && stats.writeErrors == old(stats.writeErrors)
      ensures stats.encErrors == old(stats.encErrors)
    {
      hide Recoverable, View, Balanced, Position, Decode, ReadSlot, OldestPosition;
      ghost var es := Entries();
      while count > 0
        invariant Shape() && StorageShape() && Balanced(base, stats, count)
        invariant initialised && storage != null ==> Recoverable()
        invariant Evicted(Entries(), now) == Evicted(es, now)
        invariant EvictionErrors(stats.decErrors, Entries(), now) == EvictionErrors(old(stats.decErrors), es, now)
        invariant stats.written == old(stats.written) && stats.writeErrors == old(stats.writeErrors)
        invariant stats.encErrors == old(stats.encErrors)
        decreases count
      {
        var oldestPos := OldestPosition(cap, writeIndex, count);
        var oldest := DecryptRecord(E, keySet, oldestPos, ring[oldestPos]);
        ReadSlotIs(E, keySet, oldestPos, ring[oldestPos]);
        assert oldest == Entries()[0];
        if oldest.Some? {
          if now > 0 && oldest.value.timestamp > 0 && Sub64(now, oldest.value.timestamp) > THIRTY_DAYS_MS {
            DropOldest(false);
          } else {
            break;
          }
        } else {
          DropOldest(true);
        }
      }
    }

    /** historian_evict: stale records go first, then the oldest if the ring is still full. */
    method Evict(now: U64)
      requires Shape() && StorageShape() && Balanced(base, stats, count)
      requires initialised && storage != null ==> Recoverable()
      modifies this`count, this`stats
      ensures Shape() && StorageShape() && Balanced(base, stats, count)
      ensures initialised && storage != null ==> Recoverable()
      ensures Entries() == Kept(old(Entries()), now, cap) && count < cap
      ensures stats.decErrors == EvictionErrors(old(stats.decErrors), old(Entries()), now)
      ensures stats.written == old(stats.written) && stats.writeErrors == old(stats.writeErrors)
      ensures stats.encErrors == old(stats.encErrors)
    {
      hide Recoverable, View, Balanced, Evicted, Kept, EvictionErrors;
      ghost var es := Entries();
      EvictOld(now);
      KeptStep(es, now, cap, Entries());
      while count >= cap
        invariant Shape() && StorageShape() && Balanced(base, stats, count)
        invariant initialised && storage != null ==> Recoverable()
        invariant count <= cap && (count == cap ==> Entries()[1..] == Kept(es, now, cap))
        invariant count < cap ==> Entries() == Kept(es, now, cap)
        invariant stats.decErrors == EvictionErrors(old(stats.decErrors), es, now)
        invariant stats.written == old(stats.written) && stats.writeErrors == old(stats.writeErrors)
        invariant stats.encErrors == old(stats.encErrors)
        decreases count
      {
        DropOldest(false);
      }
    }

    /**
     historian_write: what is kept of the old records, then the new one; stored at once when a flush
     is due, and otherwise at most 63 records short of being stored.
     */
    method Write(record: Record) returns (ok: bool)
      requires Valid()
      modifies this, ring, storage
      ensures Valid() && ok == (initialised && keySet) && initialised == old(initialised)
      ensures ok ==> Entries() == Kept(old(Entries()), record.timestamp, cap) + [Some(record)]
      ensures ok && storage != null ==>
        if FlushDue(old(pendingCount) + 1, old(lastFlushMs), record.timestamp)
        then flushed == Entries() && since == [] && pendingCount == 0 && lastFlushMs == record.timestamp
        else flushed == old(flushed) && since == old(since) + [record] && lastFlushMs == old(lastFlushMs)
      ensures ok && storage != null ==>
        (pendingCount == 0 <==> FlushDue(old(pendingCount) + 1, old(lastFlushMs), record.timestamp))
      ensures ok && storage != null ==>
        var last, now := old(lastFlushMs), record.timestamp;
        (pendingCount == 0 <==>
          old(pendingCount) + 1 >= 64
          || (last != 0 && if last <= now then now - last >= 60000 else last - now <= 0x1_0000_0000_0000_0000 - 60000))
      ensures ok ==> writeIndex == Next(cap, old(writeIndex))
      ensures ok ==> ring[..] == old(ring[..])[old(writeIndex) := Encode(E, old(writeIndex), record)]
      ensures ok ==> stats.written == Successor(old(stats).written) && base == old(base)
      ensures ok ==> stats.decErrors == EvictionErrors(old(stats.decErrors), old(Entries()), record.timestamp)
      ensures ok ==> stats.writeErrors == old(stats).writeErrors && stats.encErrors == old(stats).encErrors
      ensures !ok ==> stats == if initialised then old(stats).(writeErrors := Successor(old(stats).writeErrors)) else old(stats)
      ensures !ok ==> Entries() == old(Entries()) && (storage != null ==> unchanged(storage)) && flushed == old(flushed) && since == old(since)
    {
      hide Recoverable, View, Balanced, Kept, EvictionErrors, Encode, Next, AheadBy;
      if !initialised {
        return false;
      }
      if !keySet {
        CountError(stats.(writeErrors := Successor(stats.writeErrors)));
        return false;
      }
      FlushDueIs(pendingCount + 1, lastFlushMs, record.timestamp);
      Evict(record.timestamp);
      Store(record);
      AutoFlush(record.timestamp);
      return true;
    }

    /** Encrypts at the write position, advances it, and marks the record pending. */
    method Store(record: Record)
      requires Shape() && StorageShape() && Balanced(base, stats, count) && initialised && keySet && count < cap
      requires storage != null ==> Recoverable() && pendingCount < PENDING_MAX
      modifies this`writeIndex, this`count, this`stats, this`pendingStart, this`pendingCount, this`since, ring
      ensures Shape() && StorageShape() && Balanced(base, stats, count)
      ensures storage != null ==> Recoverable()
      ensures pendingCount == old(pendingCount) + 1 && since == old(since) + [record]
      ensures Entries() == old(Entries()) + [Some(record)]
      ensures writeIndex == Next(cap, old(writeIndex))
      ensures ring[..] == old(ring[..])[old(writeIndex) := Encode(E, old(writeIndex), record)]
      ensures stats == old(stats).(written := Successor(old(stats).written))
    {
      hide Backed, Stored, View, Balanced, Encode, Position, Next;
      ghost var slots, w0, c0 := ring[..], writeIndex, count;
      var ok, ondisk := EncryptRecord(E, keySet, writeIndex, record);
      ViewWrite(E, slots, writeIndex, count, record);
      if storage != null {
        PendingBound(E, keySet, slots, writeIndex, count, storage.slots, pendingStart, pendingCount, flushed, since);
        AheadByOneMore(cap, StoredIndex(cap, storage.count, storage.writeIndex), pendingCount, writeIndex);
        BackedWrite(E, slots, writeIndex, count, storage.slots, pendingStart, pendingCount, flushed, since, record);
      }
      ring[writeIndex] := ondisk;
      assert ring[..] == slots[writeIndex := Encode(E, writeIndex, record)];
      var writtenIndex := writeIndex;
      NextByMod(cap, writeIndex);
      writeIndex := (writeIndex + 1) % cap;
      BalanceWrite(base, stats, stats.(written := Successor(stats.written)), count);
      if count < cap {
        count := count + 1;
      }
      stats := stats.(written := Successor(stats.written));
      BufferForFlush(writtenIndex);
      since := since + [record];
      assert writeIndex == Next(cap, w0) && count == c0 + 1 && ring[..] == slots[w0 := Encode(E, w0, record)];
    }

    /** historian_read: the first max matches, oldest first; records that cannot be decrypted are skipped. */
    method Read(query: Option<Query>, out: array<Record>, max: nat) returns (found: nat)
      requires Valid() && max <= out.Length
      modifies this`stats, out
      ensures Valid() && Entries() == old(Entries())
      ensures found == (if initialised then Min(max, |Matching(Entries(), query)|) else 0)
      ensures initialised ==> out[..found] == Matching(Entries(), query)[..found]
      ensures !initialised ==> stats == old(stats)
      ensures initialised && query.Some? ==> forall i :: 0 <= i < found ==>
        var r, q := out[i], query.value;
        && Some(r) in Entries()
        && (q.timeStart != 0 ==> q.timeStart <= r.timestamp) && (q.timeEnd != 0 ==> r.timestamp <= q.timeEnd)
        && (q.nodeId != 0 ==> q.nodeId == r.nodeId) && (q.metricId != 0 ==> q.metricId == r.metricId)
      ensures stats == old(stats).(decErrors := stats.decErrors)
      ensures initialised ==> SearchErrors(Entries(), query, max, old(stats.decErrors), stats.decErrors)
    {
      hide Recoverable, View, Balanced, Matches, Passes, Matching, SearchedTo, SearchErrors;
      found := 0;
      ghost var es, n := Entries(), stats.decErrors;
      SearchForNothing(es, query, n);
      SearchStarts(es, query, max, n);
      if !initialised || max == 0 {
        return;
      }
      found := Search(query, out, max, es, n);
      if query.Some? {
        AllMatch(es, query.value, out[..found]);
      }
    }

    /** The read loop. */
    method Search(query: Option<Query>, out: array<Record>, max: nat, ghost es: seq<Entry>, ghost n: U32) returns (found: nat)
      requires Valid() && max <= out.Length && Entries() == es && |es| == count && n == stats.decErrors
      requires SearchedTo(es, query, max, n, 0, n)
      modifies this`stats, out
      ensures Valid() && Entries() == es && stats == old(stats).(decErrors := stats.decErrors)
      ensures found == Min(max, |Matching(es, query)|) && out[..found] == Matching(es, query)[..found]
      ensures SearchErrors(es, query, max, n, stats.decErrors)
    {
      hide Recoverable, Entries, View, Balanced, RingShape, Matches, Matching, SearchedTo, SearchErrors, Min;
      found := 0;
      var j := 0;
      NothingMatching(es, query, out[..0]);
      while j < count && found < max
        invariant j <= count && found <= max
        invariant Valid() && Entries() == es && stats == old(stats).(decErrors := stats.decErrors)
        invariant out[..found] == Matching(es[..j], query)
        invariant SearchedTo(es, query, max, n, j, stats.decErrors)
      {
        SearchNext(es, query, max, n, j, stats.decErrors);
        found := ReadStep(query, out, found, j, es);
        j := j + 1;
      }
      ReadEnds(es, query, max, n, j, stats.decErrors, out[..found]);
    }

    /** One iteration of the read loop. */
    method ReadStep(query: Option<Query>, out: array<Record>, found: nat, j: nat, ghost es: seq<Entry>) returns (found': nat)
      requires Valid() && j < count && found < out.Length && Entries() == es
      requires out[..found] == Matching(es[..j], query)
      modifies this`stats, out
      ensures Valid() && Entries() == es
      ensures found <= found' <= found + 1 && out[..found'] == Matching(es[..j + 1], query)
      ensures stats == if es[j] == None then old(stats).(decErrors := Successor(old(stats).decErrors)) else old(stats)
    {
      hide Recoverable, View, Balanced, Matches, Passes, Matching;
      found' := found;
      var rec := ReadAt(j);
      MatchingNext(es, query, j);
      if rec == None {
        CountError(stats.(decErrors := Successor(stats.decErrors)));
      } else if Passes(query, rec.value) {
        AppendRecord(out, found, rec.value);
        found' := found + 1;
      }
    }

    /** Decrypts the j-th record. */
    method ReadAt(j: nat) returns (rec: Entry)
      requires Shape() && j < count
      ensures rec == Entries()[j]
    {
      hide Position, Decode, ReadSlot, ReadPosition;
      var pos := ReadPosition(cap, writeIndex, count, j);
      rec := DecryptRecord(E, keySet, pos, ring[pos]);
      ReadSlotIs(E, keySet, pos, ring[pos]);
    }

    /** A change of an error counter. */
    method CountError(s: Stats)
      requires Valid() && s.written == stats.written && s.evicted == stats.evicted
      modifies this`stats
      ensures Valid() && stats == s && Entries() == old(Entries())
    {
      hide Backed, Stored, View, Balanced;
      StatsOnly(base, stats, s, count);
      stats := s;
    }

    lemma PendingIsSince()
      requires Shape() && StorageShape() && storage != null && Recoverable()
      ensures pendingCount == |since| && AheadBy(cap, StoredIndex(cap, storage.count, storage.writeIndex), |since|, writeIndex)
    {
      hide View, Stored;
      PendingBound(E, keySet, ring[..], writeIndex, count, storage.slots, pendingStart, pendingCount, flushed, since);
    }

    /** historian_reset_stats */
    method ResetStats()
      requires Valid()
      modifies this`stats, this`base
      ensures Valid() && stats == NO_STATS && base == count && Entries() == old(Entries())
    {
      hide Backed, Stored, View;
      stats := NO_STATS;
      base := count;
    }
  }

  /**
   A crash between two operations: a fresh historian over the same storage holds exactly what was
   held at the last flush, and what is lost is fewer than 64 written records.
   */
  method CrashAndRecover(h: Historian) returns (recovered: Historian)
    requires h.Valid() && h.initialised && h.storage != null
    ensures fresh(recovered) && fresh(recovered.ring) && recovered.Valid() && recovered.initialised
    ensures recovered.cap == h.cap && recovered.E == h.E && recovered.keySet == h.keySet && recovered.storage == h.storage
    ensures recovered.Entries() == h.flushed == recovered.flushed && recovered.since == []
    ensures AheadBy(h.cap, recovered.writeIndex, |h.since|, h.writeIndex)
    ensures |h.since| < PENDING_MAX && h.count <= |h.flushed| + |h.since|
    ensures h.Entries() == Latest(h.flushed + Somes(h.since), h.count)
  {
    hide Stored, View, Latest, Somes;
    h.PendingIsSince();
    recovered := new Historian(h.cap, h.E, h.keySet, h.storage);
    var ok := recovered.Init();
  }

  lemma KeptStep(es: seq<Entry>, now: U64, cap: nat, e: seq<Entry>)
    requires cap > 0 && e == Evicted(es, now)
    ensures |e| == cap ==> e[1..] == Kept(es, now, cap)
    ensures |e| < cap ==> e == Kept(es, now, cap)
  {
    hide Evicted;
  }

  /** The filter of historian_read, test by test. */
  predicate Passes(query: Option<Query>, rec: Record)
    ensures Passes(query, rec) == Matches(query, rec)
  {
    if query.None? then true
    else
      var q := query.value;
      if q.timeStart > 0 && rec.timestamp < q.timeStart then false
      else if q.timeEnd > 0 && rec.timestamp > q.timeEnd then false
      else if q.nodeId != 0 && rec.nodeId != q.nodeId then false
      else if q.metricId != 0 && rec.metricId != q.metricId then false
      else true
  }

  method AppendRecord(out: array<Record>, found: nat, rec: Record)
    requires found < out.Length
    modifies out
    ensures out[..found + 1] == old(out[..found]) + [rec]
  {
    out[found] := rec;
  }

  lemma NothingMatching(es: seq<Entry>, q: Option<Query>, none: seq<Record>)
    requires none == []
    ensures none == Matching(es[..0], q)
  {
  }

  lemma MatchingNext(es: seq<Entry>, q: Option<Query>, j: nat)
    requires j < |es|
    ensures Matching(es[..j + 1], q)
            == if es[j].Some? && Matches(q, es[j].value) then Matching(es[..j], q) + [es[j].value] else Matching(es[..j], q)
  {
    assert es[..j + 1][..j] == es[..j];
  }

  lemma {:induction false} MatchingPrefix(es: seq<Entry>, q: Option<Query>, j: nat)
    requires j <= |es|
    ensures Matching(es[..j], q) <= Matching(es, q)
    decreases |es| - j
  {
    hide *;
    if j == |es| {
      assert es[..j] == es;
    } else {
      MatchingNext(es, q, j);
      MatchingPrefix(es, q, j + 1);
    }
  }

  lemma AllMatch(es: seq<Entry>, q: Query, rs: seq<Record>)
    requires rs <= Matching(es, Some(q))
    ensures forall i :: 0 <= i < |rs| ==>
      && Some(rs[i]) in es
      && (q.timeStart != 0 ==> q.timeStart <= rs[i].timestamp) && (q.timeEnd != 0 ==> rs[i].timestamp <= q.timeEnd)
      && (q.nodeId != 0 ==> q.nodeId == rs[i].nodeId) && (q.metricId != 0 ==> q.metricId == rs[i].metricId)
  {
    hide Matching;
    forall i | 0 <= i < |rs|
      ensures && Some(rs[i]) in es
              && (q.timeStart != 0 ==> q.timeStart <= rs[i].timestamp) && (q.timeEnd != 0 ==> rs[i].timestamp <= q.timeEnd)
              && (q.nodeId != 0 ==> q.nodeId == rs[i].nodeId) && (q.metricId != 0 ==> q.metricId == rs[i].metricId)
    {
      assert rs[i] == Matching(es, Some(q))[i];
      MatchingIs(es, q, rs[i]);
    }
  }

  lemma ReadEnds(es: seq<Entry>, q: Option<Query>, max: nat, n: U32, j: nat, m: U32, rs: seq<Record>)
    requires SearchedTo(es, q, max, n, j, m) && j <= |es| && rs == Matching(es[..j], q)
    requires |rs| <= max && (j == |es| || |rs| == max)
    ensures |rs| == Min(max, |Matching(es, q)|) && rs == Matching(es, q)[..|rs|]
    ensures SearchErrors(es, q, max, n, m)
  {
    hide Matching, SearchedTo, SearchErrors;
    SearchEnds(es, q, max, n, j, m);
    MatchingPrefix(es, q, j);
    assert es[..|es|] == es;
  }

  function OldestPosition(cap: nat, w: nat, c: nat): (p: nat)
    requires w < cap && 0 < c <= cap
    ensures p == Position(cap, w, c, 0)
  {
    if w >= c then
      DivModUnique(w - c + cap, cap, 1, w - c);
      (w - c + cap) % cap
    else
      DivModUnique(w - c + cap, cap, 0, w + cap - c);
      (w - c + cap) % cap
  }

  /** The position of record j, as the read loop computes it. */
  function ReadPosition(cap: nat, w: nat, c: nat, j: nat): (p: nat)
    requires w < cap && j < c <= cap
    ensures p == Position(cap, w, c, j)
  {
    PositionByMod(cap, w, c, j);
    var oldestPos := OldestPosition(cap, w, c);
    (oldestPos + j) % cap
  }

  lemma ReadSlotIs(E: BlockFn, keySet: bool, position: nat, slot: Slot)
    requires position < U32_MODULUS
    ensures ReadSlot(E, keySet, position, slot) == if keySet then Decode(E, position, slot) else None
  {
  }

  lemma StatsOnly(base: nat, s: Stats, s': Stats, count: nat)
    requires Balanced(base, s, count) && s'.written == s.written && s'.evicted == s.evicted
    ensures Balanced(base, s', count)
  {
  }

  lemma PendingBound(E: BlockFn, keySet: bool, ring: seq<Slot>, w: nat, c: nat, slots: seq<Slot>,
                     pendingStart: nat, pendingCount: nat, flushed: seq<Entry>, since: seq<Record>)
    requires RingShape(ring, w, c) && |slots| == |ring|
    requires Backed(E, keySet, ring, w, c, slots, pendingStart, pendingCount, flushed, since)
    ensures pendingCount == |since| <= |ring|
  {
  }

  predicate FlushDue(pending: nat, lastFlush: U64, now: U64) {
    pending >= PENDING_MAX || (lastFlush > 0 && Sub64(now, lastFlush) >= FLUSH_INTERVAL_MS)
  }

  /** A flush is due with 64 records pending, or a minute after the last one; before the first one only the number counts. */
  lemma FlushDueIs(pending: nat, last: U64, now: U64)
    ensures FlushDue(pending, last, now) <==>
      pending >= 64
      || (last != 0 && if last <= now then now - last >= 60000 else last - now <= 0x1_0000_0000_0000_0000 - 60000)
  {
  }

  lemma PendingByMod(cap: nat, w: nat, n: nat, i: nat)
    requires w < cap && i < n <= cap
    ensures (PendingAt(cap, w, n) + i) % cap == Position(cap, w, n, i)
  {
    var start := PendingAt(cap, w, n);
    if start + i >= cap { DivModUnique(start + i, cap, 1, start + i - cap); } else { DivModUnique(start + i, cap, 0, start + i); }
  }
}
