/** The Gateway's last-known-value cache: one entry per node and metric, marked dirty until forwarded. */
module GatewayCache {
  import opened BatchCodec
  import opened Words

  const CAPACITY := 64 * 16

  datatype CacheEntry = CacheEntry(nodeId: U16, metricId: U8, value: Word, dirty: bool)

  type Key = (U16, U8)

  /** Equality of two values as the source tests it; no law is assumed. */
  type Same = (Word, Word) -> bool

  function KeyOf(e: CacheEntry): Key {
    (e.nodeId, e.metricId)
  }

  function Clean(e: CacheEntry): CacheEntry {
    e.(dirty := false)
  }

  ghost predicate DistinctKeys(es: seq<CacheEntry>) {
    forall i, j :: 0 <= i < j < |es| ==> KeyOf(es[i]) != KeyOf(es[j])
  }

  /** The index of a key, or the length. */
  function IndexOf(es: seq<CacheEntry>, k: Key): (i: nat)
    ensures i <= |es|
    ensures i < |es| ==> KeyOf(es[i]) == k
    ensures forall j :: 0 <= j < i ==> KeyOf(es[j]) != k
  {
    if es == [] then 0
    else if KeyOf(es[0]) == k then 0
    else 1 + IndexOf(es[1..], k)
  }

  // ---------------------------------------------------------------- the dirty entries

  function Dirty(es: seq<CacheEntry>): (ds: seq<CacheEntry>)
    ensures |ds| <= |es|
  {
    if es == [] then []
    else
      var ds, e := Dirty(es[..|es| - 1]), es[|es| - 1];
      if e.dirty then ds + [e] else ds
  }

  lemma DirtyNext(es: seq<CacheEntry>, i: nat)
    requires i < |es|
    ensures Dirty(es[..i + 1]) == if es[i].dirty then Dirty(es[..i]) + [es[i]] else Dirty(es[..i])
  {
    assert es[..i + 1][..i] == es[..i];
  }

  lemma {:induction false} DirtyPrefix(es: seq<CacheEntry>, i: nat)
    requires i <= |es|
    ensures Dirty(es[..i]) <= Dirty(es)
    decreases |es| - i
  {
    if i == |es| {
      assert es[..i] == es;
    } else {
      DirtyNext(es, i);
      DirtyPrefix(es, i + 1);
    }
  }

  /** Each dirty entry comes from the cache, and their keys are as distinct as the cache's. */
  lemma {:induction false} DirtyMembers(es: seq<CacheEntry>)
    ensures forall d :: d in Dirty(es) ==> d in es && d.dirty
    ensures DistinctKeys(es) ==> DistinctKeys(Dirty(es))
    decreases |es|
  {
    if es != [] {
      var init := es[..|es| - 1];
      DirtyMembers(init);
      if DistinctKeys(es) {
        forall i | 0 <= i < |Dirty(init)| ensures KeyOf(Dirty(init)[i]) != KeyOf(es[|es| - 1]) {
          assert Dirty(init)[i] in init;
        }
      }
    }
  }

  // ---------------------------------------------------------------- clearing what was sent

  function Keys(ds: seq<CacheEntry>): set<Key> {
    set i | 0 <= i < |ds| :: KeyOf(ds[i])
  }

  /** The cache with the entries of these keys clean. */
  function CleanKeys(es: seq<CacheEntry>, ks: set<Key>): (r: seq<CacheEntry>)
    ensures |r| == |es|
    ensures forall i :: 0 <= i < |es| ==> r[i] == if KeyOf(es[i]) in ks then Clean(es[i]) else es[i]
  {
    seq(|es|, i requires 0 <= i < |es| => if KeyOf(es[i]) in ks then Clean(es[i]) else es[i])
  }

  /** The entries whose key is none of these. */
  function Without(ds: seq<CacheEntry>, ks: set<Key>): seq<CacheEntry> {
    if ds == [] then []
    else
      var rs, d := Without(ds[..|ds| - 1], ks), ds[|ds| - 1];
      if KeyOf(d) in ks then rs else rs + [d]
  }

  lemma {:induction false} DirtyAfterClean(es: seq<CacheEntry>, ks: set<Key>)
    ensures Dirty(CleanKeys(es, ks)) == Without(Dirty(es), ks)
    decreases |es|
  {
    if es != [] {
      var n := |es| - 1;
      DirtyAfterClean(es[..n], ks);
      assert CleanKeys(es, ks)[..n] == CleanKeys(es[..n], ks);
      var ds := Dirty(es[..n]);
      assert (ds + [es[n]])[..|ds|] == ds;
    }
  }

  lemma {:induction false} WithoutFirst(ds: seq<CacheEntry>, k: nat)
    requires k <= |ds| && DistinctKeys(ds)
    ensures Without(ds, Keys(ds[..k])) == ds[k..]
    decreases |ds|
  {
    if |ds| == k {
      WithoutAll(ds, Keys(ds[..k]));
    } else {
      var n := |ds| - 1;
      WithoutFirst(ds[..n], k);
      assert ds[..n][..k] == ds[..k] && ds[k..] == ds[..n][k..] + [ds[n]];
      assert KeyOf(ds[n]) !in Keys(ds[..k]);
    }
  }

  lemma {:induction false} WithoutAll(ds: seq<CacheEntry>, ks: set<Key>)
    requires forall i :: 0 <= i < |ds| ==> KeyOf(ds[i]) in ks
    ensures Without(ds, ks) == []
    decreases |ds|
  {
    if ds != [] {
      WithoutAll(ds[..|ds| - 1], ks);
    }
  }

  /** Clearing the first k dirty entries leaves exactly the others dirty, in order. */
  lemma DirtyAfterSent(es: seq<CacheEntry>, k: nat)
    requires DistinctKeys(es) && k <= |Dirty(es)|
    ensures Dirty(CleanKeys(es, Keys(Dirty(es)[..k]))) == Dirty(es)[k..]
  {
    DirtyMembers(es);
    DirtyAfterClean(es, Keys(Dirty(es)[..k]));
    WithoutFirst(Dirty(es), k);
  }

  // ---------------------------------------------------------------- writing

  /** The cache after a write. */
  function Written(es: seq<CacheEntry>, k: Key, v: Word, same: Same): (r: seq<CacheEntry>)
    ensures |es| <= |r| <= |es| + 1
  {
    var i := IndexOf(es, k);
    if i < |es| then (if same(es[i].value, v) then es else es[i := CacheEntry(k.0, k.1, v, true)])
    else if |es| >= CAPACITY then es
    else es + [CacheEntry(k.0, k.1, v, true)]
  }

  /** A known key keeps its place, and is dirty unless the value is the same; a new one goes to the end while there is room. */
  lemma WrittenIs(es: seq<CacheEntry>, k: Key, v: Word, same: Same)
    ensures DistinctKeys(es) ==> forall i :: 0 <= i < |es| && (es[i].nodeId, es[i].metricId) == k ==>
      Written(es, k, v, same) == if same(es[i].value, v) then es else es[i := CacheEntry(k.0, k.1, v, true)]
    ensures (forall i :: 0 <= i < |es| ==> (es[i].nodeId, es[i].metricId) != k) ==>
      Written(es, k, v, same) == if |es| >= 64 * 16 then es else es + [CacheEntry(k.0, k.1, v, true)]
  {
    hide IndexOf;
  }

  lemma WrittenKeepsKeys(es: seq<CacheEntry>, k: Key, v: Word, same: Same)
    requires DistinctKeys(es)
    ensures DistinctKeys(Written(es, k, v, same))
  {
    hide IndexOf;
  }

  lemma CleanKeepsKeys(es: seq<CacheEntry>, ks: set<Key>)
    requires DistinctKeys(es)
    ensures DistinctKeys(CleanKeys(es, ks))
  {
  }

  datatype Stats = Stats(updates: nat, hits: nat, suppressed: nat)

  class Cache {
    const entries: array<CacheEntry>
    var count: nat
    var stats: Stats

    ghost predicate Valid()
      reads this, entries
    {
      && entries.Length == CAPACITY && count <= CAPACITY
      && DistinctKeys(entries[..count])
    }

    ghost function Entries(): seq<CacheEntry>
      requires Valid()
      reads this, entries
    {
      entries[..count]
    }

    constructor ()
      ensures Valid() && Entries() == [] && fresh(entries) && stats == Stats(0, 0, 0)
    {
      entries := new CacheEntry[CAPACITY](_ => CacheEntry(0, 0, [0, 0, 0, 0], false));
      count, stats := 0, Stats(0, 0, 0);
    }

    /** find_entry */
    method Find(k: Key) returns (index: int)
      requires Valid()
      ensures index == if IndexOf(Entries(), k) < count then IndexOf(Entries(), k) else -1
    {
      hide IndexOf;
      for i := 0 to count
        invariant forall j :: 0 <= j < i ==> KeyOf(entries[j]) != k
      {
        if KeyOf(entries[i]) == k {
          assert KeyOf(Entries()[i]) == k;
          return i;
        }
      }
      return -1;
    }

    /** cache_write: a new or changed value makes the entry dirty. */
    method Write(k: Key, v: Word, same: Same) returns (ok: bool)
      requires Valid()
      modifies this, entries
      ensures Valid() && Entries() == Written(old(Entries()), k, v, same)
      ensures ok <==> IndexOf(old(Entries()), k) < old(count) || old(count) < CAPACITY
      ensures stats.updates == old(stats).updates + 1
      ensures stats.hits + stats.suppressed + (if ok then 0 else 1) == old(stats).hits + old(stats).suppressed + 1
      ensures stats.suppressed == old(stats).suppressed
        + if IndexOf(old(Entries()), k) < old(count) && same(old(Entries()[IndexOf(Entries(), k)].value), v) then 1 else 0
    {
      hide IndexOf;
      ghost var es := Entries();
      WrittenKeepsKeys(es, k, v, same);
      stats := stats.(updates := stats.updates + 1);
      var index := Find(k);
      if index >= 0 {
        assert entries[index] == es[index];
        if same(entries[index].value, v) {
          stats := stats.(suppressed := stats.suppressed + 1);
          return true;
        }
        entries[index] := entries[index].(value := v, dirty := true);
        assert entries[..count] == es[index := CacheEntry(k.0, k.1, v, true)];
        stats := stats.(hits := stats.hits + 1);
        return true;
      }
      if count >= CAPACITY {
        return false;
      }
      entries[count] := CacheEntry(k.0, k.1, v, true);
      count := count + 1;
      assert entries[..count] == es + [CacheEntry(k.0, k.1, v, true)];
      stats := stats.(hits := stats.hits + 1);
      return true;
    }

    /** cache_read */
    method Read(k: Key) returns (found: bool, value: Word)
      requires Valid()
      ensures found <==> exists i :: 0 <= i < count && KeyOf(Entries()[i]) == k
      ensures found ==> exists i :: 0 <= i < count && KeyOf(Entries()[i]) == k && Entries()[i].value == value
    {
      hide IndexOf;
      value := [0, 0, 0, 0];
      var index := Find(k);
      if index < 0 {
        return false, value;
      }
      assert KeyOf(Entries()[index]) == k;
      return true, entries[index].value;
    }

    /** cache_get_dirty: the first dirty entries, as many as fit. */
    method GetDirty(out: array<CacheEntry>, max: nat) returns (n: nat)
      requires Valid() && max <= out.Length && out != entries
      modifies out
      ensures Valid() && Entries() == old(Entries()) && stats == old(stats)
      ensures n == Min(max, |Dirty(Entries())|) && out[..n] == Dirty(Entries())[..n]
    {
      hide Dirty;
      n := 0;
      if max == 0 {
        return;
      }
      ghost var es := Entries();
      var i := 0;
      NoneDirty(es, out[..0]);
      while i < count && n < max
        invariant i <= count && n <= max && Valid() && Entries() == es && stats == old(stats)
        invariant out[..n] == Dirty(es[..i])
      {
        DirtyNext(es, i);
        assert entries[i] == es[i];
        if entries[i].dirty {
          out[n] := entries[i];
          n := n + 1;
          assert out[..n] == out[..n - 1] + [es[i]];
        }
        i := i + 1;
      }
      DirtyPrefix(es, i);
      assert es[..count] == es;
    }

    /** cache_clear_dirty */
    method ClearDirty(k: Key) returns (ok: bool)
      requires Valid()
      modifies entries
      ensures Valid() && Entries() == CleanKeys(old(Entries()), {k}) && count == old(count) && stats == old(stats)
      ensures ok <==> IndexOf(Entries(), k) < count
    {
      hide IndexOf;
      ghost var es := Entries();
      CleanKeepsKeys(es, {k});
      var index := Find(k);
      if index < 0 {
        assert CleanKeys(es, {k}) == es;
        return false;
      }
      entries[index] := Clean(entries[index]);
      OnlyOne(es, k, index);
      assert entries[..count] == es[index := Clean(es[index])];
      assert KeyOf(Entries()[index]) == k;
      return true;
    }

    /** The loop of batch_forwarder_flush that clears what was sent. */
    method ClearAll(sent: seq<CacheEntry>)
      requires Valid()
      modifies entries
      ensures Valid() && Entries() == CleanKeys(old(Entries()), Keys(sent)) && stats == old(stats)
    {
      hide IndexOf;
      ghost var es := Entries();
      CleanNone(es);
      assert Keys(sent[..0]) == {};
      for i := 0 to |sent|
        invariant Valid() && Entries() == CleanKeys(es, Keys(sent[..i])) && stats == old(stats)
      {
        CleanTwice(es, Keys(sent[..i]), KeyOf(sent[i]));
        KeysNext(sent, i);
        var ok := ClearDirty(KeyOf(sent[i]));
      }
      assert sent[..|sent|] == sent;
    }
  }

  lemma NoneDirty(es: seq<CacheEntry>, none: seq<CacheEntry>)
    requires none == []
    ensures none == Dirty(es[..0])
  {
  }

  lemma OnlyOne(es: seq<CacheEntry>, k: Key, index: nat)
    requires DistinctKeys(es) && index < |es| && KeyOf(es[index]) == k
    ensures CleanKeys(es, {k}) == es[index := Clean(es[index])]
  {
    forall i | 0 <= i < |es| ensures CleanKeys(es, {k})[i] == es[index := Clean(es[index])][i] {
      if i < index {
        assert KeyOf(es[i]) != KeyOf(es[index]);
      } else if index < i {
        assert KeyOf(es[index]) != KeyOf(es[i]);
      }
    }
  }

  lemma CleanNone(es: seq<CacheEntry>)
    ensures CleanKeys(es, {}) == es
  {
  }

  lemma CleanTwice(es: seq<CacheEntry>, ks: set<Key>, k: Key)
    ensures CleanKeys(CleanKeys(es, ks), {k}) == CleanKeys(es, ks + {k})
  {
  }

  lemma KeysNext(ds: seq<CacheEntry>, i: nat)
    requires i < |ds|
    ensures Keys(ds[..i + 1]) == Keys(ds[..i]) + {KeyOf(ds[i])}
  {
    forall k | k in Keys(ds[..i + 1]) ensures k in Keys(ds[..i]) + {KeyOf(ds[i])} {
      var j :| 0 <= j < i + 1 && k == KeyOf(ds[..i + 1][j]);
      if j < i {
        assert KeyOf(ds[..i][j]) == k;
      }
    }
    forall k | k in Keys(ds[..i]) + {KeyOf(ds[i])} ensures k in Keys(ds[..i + 1]) {
      if k != KeyOf(ds[i]) {
        var j :| 0 <= j < i && k == KeyOf(ds[..i][j]);
        assert KeyOf(ds[..i + 1][j]) == k;
      } else {
        assert KeyOf(ds[..i + 1][i]) == k;
      }
    }
  }
}
