/** Big-endian byte strings as numbers, and the carry loop that increments one in place. */
module Counter {
  import opened Arith
  import opened Bytes
  import opened GaloisField

  function Pow256(n: nat): (p: nat)
    ensures p >= 1
  {
    if n == 0 then 1 else 256 * Pow256(n - 1)
  }

  function BeNat(s: seq<byte>): nat {
    if s == [] then 0 else 256 * BeNat(s[..|s| - 1]) + Index(s[|s| - 1])
  }

  /** The last n big-endian bytes of v. */
  function BeBytes(n: nat, v: nat): (s: seq<byte>)
    ensures |s| == n
  {
    if n == 0 then [] else BeBytes(n - 1, v / 256) + [ToByte(v % 256)]
  }

  /** The last byte counts least. */
  lemma BeNatSteps(s: seq<byte>, x: byte)
    ensures BeNat([]) == 0 && BeNat(s + [x]) == 256 * BeNat(s) + Index(x)
  {
    assert (s + [x])[..|s|] == s;
  }

  lemma {:induction false} BeNatBound(s: seq<byte>)
    ensures BeNat(s) < Pow256(|s|)
    decreases |s|
  {
    if s != [] {
      BeNatBound(s[..|s| - 1]);
    }
  }

  lemma {:induction false} BeNatInjective(s: seq<byte>, t: seq<byte>)
    requires |s| == |t| && BeNat(s) == BeNat(t)
    ensures s == t
    decreases |s|
  {
    hide Index, ToByte;
    if s != [] {
      var n := |s| - 1;
      DivModUnique(BeNat(s), 256, BeNat(s[..n]), Index(s[n]));
      DivModUnique(BeNat(t), 256, BeNat(t[..n]), Index(t[n]));
      BeNatInjective(s[..n], t[..n]);
      IndexRoundTrip(s[n]); IndexRoundTrip(t[n]);
      assert s == s[..n] + [s[n]] && t == t[..n] + [t[n]];
    }
  }

  lemma {:induction false} BeNatOfBytes(n: nat, v: nat)
    ensures BeNat(BeBytes(n, v)) == Mod(v, Pow256(n))
    decreases n
  {
    hide Index, ToByte, Mod;
    if n > 0 {
      BeNatOfBytes(n - 1, v / 256);
      var s := BeBytes(n, v);
      assert s[..n - 1] == BeBytes(n - 1, v / 256);
      ByteRoundTrip(v % 256);
      SplitMod(v / 256, v % 256, Pow256(n - 1));
    } else {
      ModOne(v);
    }
  }

  lemma ModOne(v: nat)
    ensures Mod(v, 1) == 0
  {
    DivModUnique(v, 1, v, 0);
  }

  /** A number small enough is read back from its bytes. */
  lemma BeRoundTrip(n: nat, v: nat)
    requires v < Pow256(n)
    ensures BeNat(BeBytes(n, v)) == v
  {
    BeNatOfBytes(n, v);
    ModSmall(v, Pow256(n));
  }

  // ---------------------------------------------------------------- incrementing

  function PlusOne(x: byte): byte {
    x + 1
  }

  lemma PlusOneIndex(x: byte)
    ensures Index(PlusOne(x)) == if Index(x) == 255 then 0 else Index(x) + 1
    ensures PlusOne(x) == 0 <==> Index(x) == 255
  {
  }

  /** Adding one from the last byte, carrying on while the byte wraps to zero. */
  function Increment(s: seq<byte>): (r: seq<byte>)
    ensures |r| == |s|
  {
    if s == [] then []
    else
      var n := |s| - 1;
      if PlusOne(s[n]) != 0 then s[..n] + [PlusOne(s[n])] else Increment(s[..n]) + [0]
  }

  lemma {:induction false} IncrementValue(s: seq<byte>)
    ensures BeNat(Increment(s)) == Mod(BeNat(s) + 1, Pow256(|s|))
    decreases |s|
  {
    hide Index, PlusOne, Mod, BeNat;
    if s == [] {
      ModOne(1);
      ModOne(BeNat(s) + 1);
      BeNatSteps([], 0);
    } else {
      var n := |s| - 1;
      assert s == s[..n] + [s[n]];
      BeNatSteps(s[..n], s[n]);
      PlusOneIndex(s[n]);
      if PlusOne(s[n]) != 0 {
        NoCarryValue(s[..n], s[n]);
      } else {
        IncrementValue(s[..n]);
        CarryValue(s[..n], Increment(s[..n]));
      }
    }
  }

  lemma NoCarryValue(init: seq<byte>, last: byte)
    requires Index(last) != 255
    ensures BeNat(init + [PlusOne(last)]) == Mod(256 * BeNat(init) + Index(last) + 1, Pow256(|init| + 1))
  {
    hide Index, PlusOne, Mod, BeNat, Pow256;
    PlusOneIndex(last);
    BeNatBound(init);
    BeNatSteps(init, PlusOne(last));
    NextPower(|init|);
    ModSmall(BeNat(init + [PlusOne(last)]), Pow256(|init| + 1));
  }

  lemma CarryValue(init: seq<byte>, next: seq<byte>)
    requires |next| == |init| && BeNat(next) == Mod(BeNat(init) + 1, Pow256(|init|))
    ensures BeNat(next + [0]) == Mod(256 * BeNat(init) + 256, Pow256(|init| + 1))
  {
    hide Index, Mod, BeNat, Pow256;
    ZeroIndex();
    BeNatSteps(next, 0);
    NextPower(|init|);
    SplitMod(BeNat(init) + 1, 0, Pow256(|init|));
  }

  lemma NextPower(n: nat)
    ensures Pow256(n + 1) == 256 * Pow256(n)
  {
  }

  lemma ZeroIndex()
    ensures Index(0) == 0
  {
  }

  function AddTo(s: seq<byte>, k: nat): (r: seq<byte>)
    ensures |r| == |s|
  {
    if k == 0 then s else Increment(AddTo(s, k - 1))
  }

  lemma {:induction false} AddToValue(s: seq<byte>, k: nat)
    ensures BeNat(AddTo(s, k)) == Mod(BeNat(s) + k, Pow256(|s|))
  {
    hide Increment, Mod, Pow256;
    BeNatBound(s);
    if k == 0 {
      ModSmall(BeNat(s), Pow256(|s|));
    } else {
      AddToValue(s, k - 1);
      IncrementValue(AddTo(s, k - 1));
      ModSuccessor(BeNat(s) + k - 1, Pow256(|s|));
    }
  }

  /** Counters less than a full turn apart are different. */
  lemma CountersDistinct(s: seq<byte>, i: nat, j: nat)
    requires i < j < i + Pow256(|s|)
    ensures AddTo(s, i) != AddTo(s, j)
  {
    hide AddTo, Mod, Pow256;
    AddToValue(s, i);
    AddToValue(s, j);
    ModDistinct(BeNat(s) + i, BeNat(s) + j, Pow256(|s|));
  }

  lemma IncrementCarry(s: seq<byte>, n: nat)
    requires 0 < n <= |s|
    ensures Increment(s[..n]) == if s[n - 1] + 1 != 0 then s[..n - 1] + [s[n - 1] + 1] else Increment(s[..n - 1]) + [0]
  {
    assert s[..n][..n - 1] == s[..n - 1];
  }

  /** The carry loop over the bytes from lo to the end. */
  method IncrementFrom(a: array<byte>, lo: nat)
    requires lo <= a.Length
    modifies a
    ensures a[..] == old(a[..lo]) + Increment(old(a[lo..]))
  {
    hide *;
    ghost var s, front := a[lo..], a[..lo];
    ghost var z: seq<byte> := [];
    var i := a.Length;
    assert s[..i - lo] == s && a[..] == front + s && s + z == s;
    assert Increment(s) + z == Increment(s);
    while i > lo
      invariant lo <= i <= a.Length && |z| == a.Length - i
      invariant a[..] == front + (s[..i - lo] + z)
      invariant Increment(s) == Increment(s[..i - lo]) + z
    {
      ghost var k := i - 1 - lo;
      BufferStep(front, s, k, z, s[k] + 1);
      CarryStep(s, k, z, s[k] + 1);
      var x := Bump(a, i - 1);
      if x != 0 {
        return;
      }
      z := [0] + z;
      i := i - 1;
    }
    IncrementEmpty();
    assert s[..0] == [] && [] + z == z;
  }

  /** ++a[i] on one byte. */
  method Bump(a: array<byte>, i: nat) returns (x: byte)
    requires i < a.Length
    modifies a
    ensures x == old(a[..])[i] + 1 && a[..] == old(a[..])[i := x]
  {
    a[i] := a[i] + 1;
    x := a[i];
  }

  lemma BufferStep(front: seq<byte>, s: seq<byte>, k: nat, z: seq<byte>, x: byte)
    requires k < |s|
    ensures var a := front + (s[..k + 1] + z);
            a[|front| + k] == s[k] && a[|front| + k := x] == front + (s[..k] + ([x] + z))
  {
  }

  lemma Regroup(a: seq<byte>, x: byte, z: seq<byte>)
    ensures (a + [x]) + z == a + ([x] + z)
  {
  }

  lemma CarryStep(s: seq<byte>, k: nat, z: seq<byte>, x: byte)
    requires k < |s| && x == s[k] + 1 && Increment(s) == Increment(s[..k + 1]) + z
    ensures x != 0 ==> s[..k] + ([x] + z) == Increment(s)
    ensures x == 0 ==> Increment(s) == Increment(s[..k]) + ([0] + z)
  {
    hide Increment;
    IncrementCarry(s, k + 1);
    Regroup(s[..k], x, z);
    Regroup(Increment(s[..k]), 0, z);
  }

  lemma IncrementEmpty()
    ensures Increment([]) == []
  {
  }
}
