/**
 Replay protection: per peer a highest nonce, its timestamp and a 64-bit window.  The window is a
 fast form of the set of accepted nonces.
 */
module Replay {
  import opened Words

  const MAX_NODES := 64
  const MAX_DRIFT_MS := 10000

  type NodeId = U8
  /** A shift amount below the width of the window. */
  type Amount = bv7

  // ---------------------------------------------------------------- the window

  /** Bit i of the bitmap. */
  predicate Seen(bitmap: bv64, i: Amount)
    requires i < 64
  {
    (bitmap >> i) & 1 == 1
  }

  function Shl(bitmap: bv64, shift: Amount): bv64
    requires shift < 64
  {
    bitmap << shift
  }

  function Mark(bitmap: bv64, delta: Amount): bv64
    requires delta < 64
  {
    bitmap | (1 << delta)
  }

  /** One stage of the shift: by k if that bit of the amount is set. */
  function Stage(bitmap: bv64, shift: Amount, k: Amount): bv64
    requires k < 64
  {
    if shift & k != 0 then bitmap << k else bitmap
  }

  lemma StageSeen(bitmap: bv64, shift: Amount, k: Amount, i: Amount)
    requires k == 1 || k == 2 || k == 4 || k == 8 || k == 16 || k == 32
    requires i < 64
    ensures Seen(Stage(bitmap, shift, k), i) <==> shift & k <= i && Seen(bitmap, i - (shift & k))
  {
    if k == 1 { assert shift & 1 == 0 || shift & 1 == 1; }
  }

  lemma ShiftInHalves(bitmap: bv64, shift: Amount)
    requires shift < 64
    ensures shift & 7 < 64 && shift & 0x38 < 64
    ensures Shl(bitmap, shift) == Shl(Shl(bitmap, shift & 7), shift & 0x38)
  {
  }

  lemma LowStages(bitmap: bv64, shift: Amount)
    ensures shift & 7 < 64
    ensures Shl(bitmap, shift & 7) == Stage(Stage(Stage(bitmap, shift, 1), shift, 2), shift, 4)
  {
  }

  lemma HighStages(bitmap: bv64, shift: Amount)
    requires shift < 64
    ensures shift & 0x38 < 64
    ensures Shl(bitmap, shift & 0x38) == Stage(Stage(Stage(bitmap, shift, 8), shift, 16), shift, 32)
  {
  }

  predicate SeenBack(bitmap: bv64, i: Amount, a: Amount)
    requires i < 64
  {
    a <= i && Seen(bitmap, i - a)
  }

  /** Bitmap g is f moved up by a: bit i comes from bit i - a. */
  ghost predicate Moved(f: bv64, g: bv64, a: Amount) {
    forall i: Amount :: i < 64 ==> (Seen(g, i) <==> SeenBack(f, i, a))
  }

  lemma StageMoves(bitmap: bv64, shift: Amount, k: Amount)
    requires k == 1 || k == 2 || k == 4 || k == 8 || k == 16 || k == 32
    ensures Moved(bitmap, Stage(bitmap, shift, k), shift & k)
  {
    hide Seen, Stage;
    forall i: Amount | i < 64 ensures Seen(Stage(bitmap, shift, k), i) <==> SeenBack(bitmap, i, shift & k) {
      StageSeen(bitmap, shift, k, i);
    }
  }

  lemma ComposeBounds(a: Amount, c: Amount, i: Amount)
    requires a < 64 && c < 64 && i < 64
    ensures a + c <= i <==> c <= i && a <= i - c
  {
  }

  lemma ComposeDifference(a: Amount, c: Amount, i: Amount)
    requires c <= i < 64
    ensures i - c - a == i - (a + c) && i - c < 64
  {
  }

  lemma BackTwice(f: bv64, g: bv64, a: Amount, c: Amount, i: Amount)
    requires a < 64 && c < 64 && i < 64 && Moved(f, g, a)
    ensures SeenBack(g, i, c) <==> SeenBack(f, i, a + c)
  {
    hide Seen;
    if c <= i {
      assert Seen(g, i - c) <==> SeenBack(f, i - c, a);
      ComposeDifference(a, c, i);
    }
    ComposeBounds(a, c, i);
  }

  lemma MovesCompose(f: bv64, g: bv64, h: bv64, a: Amount, c: Amount)
    requires a < 64 && c < 64 && Moved(f, g, a) && Moved(g, h, c)
    ensures Moved(f, h, a + c)
  {
    hide Seen, SeenBack;
    forall i: Amount | i < 64 ensures Seen(h, i) <==> SeenBack(f, i, a + c) {
      BackTwice(f, g, a, c, i);
    }
  }

  lemma Partial(shift: Amount)
    requires shift < 64
    ensures (shift & 1) + (shift & 2) + (shift & 4) == shift & 7
    ensures (shift & 8) + (shift & 16) + (shift & 32) == shift & 0x38
    ensures (shift & 7) + (shift & 0x38) == shift
    ensures shift & 1 < 64 && shift & 2 < 64 && shift & 4 < 64 && shift & 8 < 64 && shift & 16 < 64 && shift & 32 < 64
    ensures (shift & 1) + (shift & 2) < 64 && (shift & 8) + (shift & 16) < 64 && shift & 7 < 64 && shift & 0x38 < 64
  {
  }

  /** Shifting moves every bit up by the amount of the shift. */
  lemma ShiftMoves(bitmap: bv64, shift: Amount)
    requires shift < 64
    ensures Moved(bitmap, Shl(bitmap, shift), shift)
  {
    hide *;
    Partial(shift);
    ShiftInHalves(bitmap, shift);
    LowStages(bitmap, shift);
    var low := Shl(bitmap, shift & 7);
    HighStages(low, shift);
    ThreeStages(bitmap, shift, 1, 2, 4);
    ThreeStages(low, shift, 8, 16, 32);
    MovesCompose(bitmap, low, Shl(bitmap, shift), shift & 7, shift & 0x38);
  }

  lemma ThreeStages(bitmap: bv64, shift: Amount, k: Amount, l: Amount, m: Amount)
    requires (k == 1 && l == 2 && m == 4) || (k == 8 && l == 16 && m == 32)
    requires shift & k < 64 && shift & l < 64 && shift & m < 64 && (shift & k) + (shift & l) < 64
    ensures Moved(bitmap, Stage(Stage(Stage(bitmap, shift, k), shift, l), shift, m), (shift & k) + (shift & l) + (shift & m))
  {
    hide *;
    var b1 := Stage(bitmap, shift, k);
    var b2 := Stage(b1, shift, l);
    StageMoves(bitmap, shift, k);
    StageMoves(b1, shift, l);
    StageMoves(b2, shift, m);
    MovesCompose(bitmap, b1, b2, shift & k, shift & l);
    MovesCompose(bitmap, b2, Stage(b2, shift, m), (shift & k) + (shift & l), shift & m);
  }

  lemma SeenAfterOne(bitmap: bv64, i: Amount)
    requires i < 64
    ensures Seen(bitmap | 1, i) <==> i == 0 || Seen(bitmap, i)
    ensures Seen(1, i) <==> i == 0
  {
  }

  lemma SeenAfterMark(bitmap: bv64, delta: Amount, i: Amount)
    requires delta < 64 && i < 64
    ensures Seen(Mark(bitmap, delta), i) <==> i == delta || Seen(bitmap, i)
  {
  }

  predicate Masked(bitmap: bv64, delta: Amount)
    requires delta < 64
  {
    bitmap & (1 << delta) != 0
  }

  lemma MaskTest(bitmap: bv64, delta: Amount)
    requires delta < 64
    ensures Masked(bitmap, delta) <==> Seen(bitmap, delta)
  {
  }

  // ---------------------------------------------------------------- amounts as numbers

  function Amt(i: nat): Amount
    requires i < 64
  {
    i as bv7
  }

  function Val(a: Amount): nat {
    a as int
  }

  lemma AmtVal(i: nat)
    requires i < 64
    ensures Val(Amt(i)) == i && Amt(i) < 64
  {
    assert i % 128 == i;
  }

  lemma ValInjective(a: Amount, c: Amount)
    requires Val(a) == Val(c)
    ensures a == c
  {
  }

  lemma ValOrder(a: Amount, c: Amount)
    ensures c <= a <==> Val(c) <= Val(a)
  {
  }

  lemma ValDifference(a: Amount, c: Amount)
    requires c <= a
    ensures Val(a - c) == Val(a) - Val(c)
  {
  }

  predicate Bit(bitmap: bv64, i: nat)
    requires i < 64
  {
    Seen(bitmap, Amt(i)) && Amt(i) < 64
  }

  lemma BitAt(bitmap: bv64, i: nat)
    requires i < 64
    ensures Amt(i) < 64 && (Bit(bitmap, i) <==> Seen(bitmap, Amt(i)))
  {
    AmtVal(i);
  }

  lemma AmtOrder(i: nat, s: nat)
    requires i < 64 && s < 64
    ensures Amt(s) <= Amt(i) <==> s <= i
    ensures s <= i ==> Amt(i) - Amt(s) == Amt(i - s)
    ensures Amt(i) == Amt(s) <==> i == s
  {
    hide Amt, Val;
    AmtVal(i);
    AmtVal(s);
    ValOrder(Amt(i), Amt(s));
    if s <= i {
      ValDifference(Amt(i), Amt(s));
      AmtVal(i - s);
      ValInjective(Amt(i) - Amt(s), Amt(i - s));
    }
  }

  /** bitmap <<= s; bitmap |= 1 */
  function Slide(bitmap: bv64, s: nat): bv64
    requires s < 64
  {
    Shl(bitmap, Amt(s)) | 1
  }

  function MarkAt(bitmap: bv64, d: nat): bv64
    requires d < 64
  {
    Mark(bitmap, Amt(d))
  }

  lemma BitAfterSlide(bitmap: bv64, s: nat, i: nat)
    requires s < 64 && i < 64
    ensures Bit(Slide(bitmap, s), i) <==> i == 0 || (s <= i && Bit(bitmap, i - s))
  {
    hide Seen, Shl, Amt, Bit;
    AmtVal(s);
    BitAt(Slide(bitmap, s), i);
    AmtOrder(i, s);
    AmtOrder(i, 0);
    ZeroAmount();
    SeenAfterOne(Shl(bitmap, Amt(s)), Amt(i));
    ShiftMoves(bitmap, Amt(s));
    assert Seen(Shl(bitmap, Amt(s)), Amt(i)) <==> SeenBack(bitmap, Amt(i), Amt(s));
    if s <= i {
      BitAt(bitmap, i - s);
    }
  }

  lemma ZeroAmount()
    ensures Amt(0) == 0
  {
  }

  lemma BitOfOne(i: nat)
    requires i < 64
    ensures Bit(1, i) <==> i == 0
  {
    hide Seen, Amt, Bit;
    BitAt(1, i);
    AmtOrder(i, 0);
    ZeroAmount();
    SeenAfterOne(0, Amt(i));
  }

  lemma BitAfterMark(bitmap: bv64, d: nat, i: nat)
    requires d < 64 && i < 64
    ensures Bit(MarkAt(bitmap, d), i) <==> i == d || Bit(bitmap, i)
  {
    hide Seen, Amt, Bit, Mark;
    AmtVal(d);
    BitAt(bitmap, i);
    BitAt(MarkAt(bitmap, d), i);
    AmtOrder(i, d);
    SeenAfterMark(bitmap, Amt(d), Amt(i));
  }

  lemma BitNonZero(bitmap: bv64, i: nat)
    requires i < 64 && Bit(bitmap, i)
    ensures bitmap != 0
  {
  }

  /** The loop-free test of bit d. */
  function TestBit(bitmap: bv64, d: nat): bool
    requires d < 64
  {
    Amt(d) < 64 && Masked(bitmap, Amt(d))
  }

  lemma TestBitIsBit(bitmap: bv64, d: nat)
    requires d < 64
    ensures TestBit(bitmap, d) <==> Bit(bitmap, d)
  {
    hide Seen, Amt, Bit, Masked;
    BitAt(bitmap, d);
    MaskTest(bitmap, Amt(d));
  }

  // ---------------------------------------------------------------- one peer

  type Nonce = U32

  datatype NodeState = NodeState(nodeId: NodeId, highest: Nonce, timestamp: nat, bitmap: bv64, initialised: bool)

  const CLEARED := NodeState(0, 0, 0, 0, false)

  datatype CheckResult = Ok | Duplicate | StaleTimestamp | ParamNull

  /** Bit i of the window is set exactly when nonce highest - i has been accepted. */
  ghost predicate Tracks(bitmap: bv64, highest: Nonce, accepted: set<Nonce>) {
    if accepted == {} then bitmap == 0 && highest == 0
    else
      && bitmap != 0
      && (forall n :: n in accepted ==> n <= highest)
      && forall i: nat :: i < 64 ==> (Bit(bitmap, i) <==> i <= highest && highest - i in accepted)
  }

  function Drift(t: nat, t': nat): nat {
    if t > t' then t - t' else t' - t
  }

  /** When a frame is fresh, in terms of the nonces accepted so far. */
  ghost predicate Fresh(accepted: set<Nonce>, highest: Nonce, timestamp: nat, nonce: Nonce, t: nat) {
    || accepted == {}
    || (Drift(t, timestamp) <= MAX_DRIFT_MS && (nonce > highest || (highest - nonce < 64 && nonce !in accepted)))
  }

  /** Fresh is near the reference time, and ahead of the window or in it and not yet accepted; or the first. */
  lemma FreshIs(accepted: set<Nonce>, highest: Nonce, timestamp: nat, nonce: Nonce, t: nat)
    ensures Fresh(accepted, highest, timestamp, nonce, t) <==>
      accepted == {}
      || ((if t > timestamp then t - timestamp else timestamp - t) <= 10000
          && (nonce > highest || (highest - nonce < 64 && nonce !in accepted)))
    ensures Drift(t, timestamp) > MAX_DRIFT_MS <==> (if t > timestamp then t - timestamp else timestamp - t) > 10000
  {
  }

  /** The bits of the window, and how the highest nonce stands to all that were accepted. */
  lemma WindowIs(bitmap: bv64, highest: Nonce, accepted: set<Nonce>, i: nat)
    requires Tracks(bitmap, highest, accepted) && i < 64
    ensures (bitmap >> (i as bv7)) & 1 == 1 <==> i <= highest && highest - i in accepted
    ensures forall n :: n in accepted ==> n <= highest
    ensures accepted != {} ==> bitmap != 0
  {
    hide Val;
    if accepted == {} {
      NoBits(i as bv7);
    } else {
      BitShift(bitmap, i);
    }
  }

  lemma NoBits(i: Amount)
    ensures i < 64 ==> ((0 as bv64) >> i) & 1 == 0
  {
  }

  lemma BitShift(bitmap: bv64, i: nat)
    requires i < 64
    ensures Bit(bitmap, i) <==> (bitmap >> (i as bv7)) & 1 == 1
  {
    BitAt(bitmap, i);
  }

  lemma TrackFirst(nonce: Nonce)
    ensures Tracks(1, nonce, {nonce})
  {
    hide Bit;
    forall i: nat | i < 64 ensures Bit(1, i) <==> i <= nonce && nonce - i in {nonce} {
      BitOfOne(i);
    }
  }

  /** A nonce ahead by less than the window: the window slides. */
  lemma TrackAhead(bitmap: bv64, highest: Nonce, accepted: set<Nonce>, nonce: Nonce)
    requires Tracks(bitmap, highest, accepted) && accepted != {} && highest < nonce < highest + 64
    ensures Tracks(Slide(bitmap, nonce - highest), nonce, accepted + {nonce})
  {
    hide Bit, Slide;
    var b := Slide(bitmap, nonce - highest);
    forall i: nat | i < 64 ensures Bit(b, i) <==> i <= nonce && nonce - i in accepted + {nonce} {
      BitAfterSlide(bitmap, nonce - highest, i);
    }
    BitAfterSlide(bitmap, nonce - highest, 0);
    BitNonZero(b, 0);
  }

  /** A nonce ahead by the window or more: the window starts over. */
  lemma TrackFar(bitmap: bv64, highest: Nonce, accepted: set<Nonce>, nonce: Nonce)
    requires Tracks(bitmap, highest, accepted) && accepted != {} && nonce >= highest + 64
    ensures Tracks(1, nonce, accepted + {nonce})
  {
    hide Bit;
    forall i: nat | i < 64 ensures Bit(1, i) <==> i <= nonce && nonce - i in accepted + {nonce} {
      BitOfOne(i);
    }
  }

  /** A nonce behind within the window: its bit is set. */
  lemma TrackBehind(bitmap: bv64, highest: Nonce, accepted: set<Nonce>, nonce: Nonce)
    requires Tracks(bitmap, highest, accepted) && accepted != {} && nonce <= highest < nonce + 64
    ensures Tracks(MarkAt(bitmap, highest - nonce), highest, accepted + {nonce})
    ensures TestBit(bitmap, highest - nonce) <==> nonce in accepted
  {
    hide Bit, MarkAt, TestBit;
    var delta := highest - nonce;
    forall i: nat | i < 64
      ensures Bit(MarkAt(bitmap, delta), i) <==> i <= highest && highest - i in accepted + {nonce}
    {
      BitAfterMark(bitmap, delta, i);
    }
    BitAfterMark(bitmap, delta, delta);
    BitNonZero(MarkAt(bitmap, delta), delta);
    TestBitIsBit(bitmap, delta);
    assert Bit(bitmap, delta) <==> delta <= highest && highest - delta in accepted;
  }

  /** The reference nonce and time: an accepted nonce that is the first or the highest becomes the reference. */
  predicate ReferenceMoves(first: bool, st: NodeState, st': NodeState, nonce: Nonce, t: nat, accept: bool) {
    if accept && (first || nonce > st.highest) then st'.highest == nonce && st'.timestamp == t
    else st'.highest == st.highest && st'.timestamp == st.timestamp
  }

  // ---------------------------------------------------------------- the table

  class ReplayTable {
    const nodes: array<NodeState>
    var initialised: bool
    ghost var accepted: map<NodeId, set<Nonce>>
    ghost var slot: map<NodeId, nat>

    ghost predicate Valid()
      reads this, nodes
    {
      && nodes.Length == MAX_NODES
      && accepted.Keys == slot.Keys
      && (forall k :: k in slot ==>
            0 <= slot[k] < MAX_NODES && nodes[slot[k]].initialised && nodes[slot[k]].nodeId == k
            && Tracks(nodes[slot[k]].bitmap, nodes[slot[k]].highest, accepted[k]))
      && (forall i :: 0 <= i < MAX_NODES && nodes[i].initialised ==>
            nodes[i].nodeId in slot && slot[nodes[i].nodeId] == i)
    }

    constructor ()
      ensures Valid() && !initialised && accepted == map[] && fresh(nodes)
    {
      nodes := new NodeState[MAX_NODES](_ => CLEARED);
      initialised := false;
      accepted, slot := map[], map[];
    }

    /** The nonces accepted from a node since it was last reset. */
    ghost function Accepted(node: NodeId): set<Nonce>
      reads this
    {
      if node in accepted then accepted[node] else {}
    }

    ghost function State(node: NodeId): NodeState
      requires Valid() && node in accepted
      reads this, nodes
    {
      nodes[slot[node]]
    }

    ghost predicate Full()
      requires nodes.Length == MAX_NODES
      reads this, nodes
    {
      forall i :: 0 <= i < MAX_NODES ==> nodes[i].initialised
    }

    /** replay_init and replay_reset_all */
    method Reset(init: bool)
      requires Valid()
      modifies this, nodes
      ensures Valid() && accepted == map[] && initialised == (init || old(initialised))
    {
      for i := 0 to MAX_NODES
        invariant forall k :: 0 <= k < i ==> nodes[k] == CLEARED
        invariant initialised == old(initialised)
      {
        nodes[i] := CLEARED;
      }
      accepted, slot := map[], map[];
      initialised := init || initialised;
    }

    /** A free entry becomes the node's, with nothing accepted. */
    method Alloc(node: NodeId, empty: nat)
      requires Valid() && node !in accepted && empty < MAX_NODES && !nodes[empty].initialised
      modifies this`accepted, this`slot, nodes
      ensures Valid() && slot == old(slot)[node := empty] && accepted == old(accepted)[node := {}]
      ensures forall m :: m in old(accepted) ==> State(m) == old(State(m))
    {
      hide Tracks;
      NothingTracked();
      nodes[empty] := NodeState(node, 0, 0, 0, true);
      accepted, slot := accepted[node := {}], slot[node := empty];
      assert forall i :: 0 <= i < MAX_NODES && i != empty ==> nodes[i] == old(nodes[i]);
    }

    /** find_or_alloc_node: the index of the node's entry, or none when the table is full. */
    method FindOrAlloc(node: NodeId) returns (index: int)
      requires Valid()
      modifies this`accepted, this`slot, nodes
      ensures Valid()
      ensures index == -1 <==> node !in old(accepted) && old(Full())
      ensures index == -1 ==> accepted == old(accepted) && nodes[..] == old(nodes[..])
      ensures index != -1 ==>
        && 0 <= index < MAX_NODES && node in accepted && slot[node] == index
        && accepted == old(accepted)[node := old(Accepted(node))]
      ensures forall m :: m in old(accepted) ==> State(m) == old(State(m))
    {
      hide Tracks;
      if node in accepted {
        assert nodes[slot[node]].nodeId == node && nodes[slot[node]].initialised;
        SameUpdate(accepted, node);
      }
      var empty := -1;
      for i := 0 to MAX_NODES
        invariant nodes[..] == old(nodes[..]) && accepted == old(accepted) && slot == old(slot)
        invariant -1 <= empty < i
        invariant forall k :: 0 <= k < i && nodes[k].initialised ==> nodes[k].nodeId != node
        invariant empty == -1 ==> forall k :: 0 <= k < i ==> nodes[k].initialised
        invariant empty != -1 ==> !nodes[empty].initialised
      {
        if nodes[i].initialised && nodes[i].nodeId == node {
          return i;
        }
        if !nodes[i].initialised && empty == -1 {
          empty := i;
        }
      }
      assert node !in accepted;
      if empty != -1 {
        Alloc(node, empty);
      }
      return empty;
    }

    /** The branches of replay_check on one entry. */
    method CheckEntry(index: nat, ghost seen: set<Nonce>, nonce: Nonce, t: nat) returns (result: CheckResult)
      requires index < nodes.Length && Tracks(nodes[index].bitmap, nodes[index].highest, seen)
      modifies nodes
      ensures forall k :: 0 <= k < nodes.Length && k != index ==> nodes[k] == old(nodes[k])
      ensures result != ParamNull && (result == Ok ==> nonce !in seen) && (seen == {} ==> result == Ok)
      ensures var st, st' := old(nodes[index]), nodes[index];
              && st'.nodeId == st.nodeId && st'.initialised == st.initialised
              && Tracks(st'.bitmap, st'.highest, if result == Ok then seen + {nonce} else seen)
              && (result == Ok <==> Fresh(seen, st.highest, st.timestamp, nonce, t))
              && (result == StaleTimestamp <==> seen != {} && Drift(t, st.timestamp) > MAX_DRIFT_MS)
              && (result != Ok ==> st' == st)
              && ReferenceMoves(seen == {}, st, st', nonce, t, result == Ok)
    {
      hide Slide, MarkAt, TestBit, Bit;
      var st := nodes[index];
      NeverTwice(st.bitmap, st.highest, seen, st.timestamp, nonce, t);
      if st.highest == 0 && st.bitmap == 0 {
        TrackFirst(nonce);
        assert seen == {} && seen + {nonce} == {nonce};
        nodes[index] := st.(highest := nonce, timestamp := t, bitmap := 1);
        return Ok;
      }
      var drift := if t > st.timestamp then t - st.timestamp else st.timestamp - t;
      if drift > MAX_DRIFT_MS {
        return StaleTimestamp;
      }
      if nonce > st.highest {
        var shift := nonce - st.highest;
        if shift < 64 {
          TrackAhead(st.bitmap, st.highest, seen, nonce);
          nodes[index] := st.(highest := nonce, timestamp := t, bitmap := Slide(st.bitmap, shift));
        } else {
          TrackFar(st.bitmap, st.highest, seen, nonce);
          nodes[index] := st.(highest := nonce, timestamp := t, bitmap := 1);
        }
        return Ok;
      }
      var delta := st.highest - nonce;
      if delta >= 64 {
        return Duplicate;
      }
      TrackBehind(st.bitmap, st.highest, seen, nonce);
      if TestBit(st.bitmap, delta) {
        return Duplicate;
      }
      nodes[index] := st.(bitmap := MarkAt(st.bitmap, delta));
      return Ok;
    }

    /** replay_check once the entry is found. */
    method CheckTracked(node: NodeId, index: nat, nonce: Nonce, t: nat) returns (result: CheckResult)
      requires Valid() && node in accepted && slot[node] == index
      modifies this`accepted, nodes
      ensures Valid() && result != ParamNull
      ensures accepted == old(accepted)[node := old(accepted[node]) + (if result == Ok then {nonce} else {})]
      ensures result == Ok <==> Fresh(old(accepted[node]), old(State(node)).highest, old(State(node)).timestamp, nonce, t)
      ensures result == Ok ==> nonce !in old(accepted[node])
      ensures old(accepted[node]) == {} ==> result == Ok
      ensures result == StaleTimestamp <==> old(accepted[node]) != {} && Drift(t, old(State(node)).timestamp) > MAX_DRIFT_MS
      ensures ReferenceMoves(old(accepted[node]) == {}, old(State(node)), State(node), nonce, t, result == Ok)
      ensures forall m :: m in old(accepted) && m != node ==> State(m) == old(State(m))
    {
      hide Tracks, Fresh, ReferenceMoves;
      ghost var seen := accepted[node];
      result := CheckEntry(index, seen, nonce, t);
      NoChange(seen);
      accepted := accepted[node := seen + (if result == Ok then {nonce} else {})];
      assert accepted.Keys == slot.Keys;
    }

    /**
     replay_check.  The frame is accepted exactly when it is fresh with respect to the set of nonces
     accepted from its node since the last reset; no other node's state is touched.
     */
    method Check(node: NodeId, nonce: Nonce, t: nat) returns (result: CheckResult)
      requires Valid()
      modifies this`accepted, this`slot, nodes
      ensures Valid()
      ensures result == ParamNull <==> !initialised || (node !in old(accepted) && old(Full()))
      ensures result == ParamNull ==> accepted == old(accepted)
      ensures result != ParamNull ==>
        accepted == old(accepted)[node := old(Accepted(node)) + (if result == Ok then {nonce} else {})]
      ensures result == Ok ==> nonce !in old(Accepted(node))
      ensures initialised && node in old(accepted) ==>
        (result == Ok <==> Fresh(old(accepted[node]), old(State(node)).highest, old(State(node)).timestamp, nonce, t))
      ensures initialised && node in old(accepted) ==>
        (result == StaleTimestamp <==> old(accepted[node]) != {} && Drift(t, old(State(node)).timestamp) > MAX_DRIFT_MS)
      ensures initialised && node in old(accepted) ==>
        var st := old(State(node));
        var drift := if t > st.timestamp then t - st.timestamp else st.timestamp - t;
        && (result == Ok <==> old(accepted[node]) == {}
                              || (drift <= 10000 && (nonce > st.highest || (st.highest - nonce < 64 && nonce !in old(accepted[node])))))
        && (result == StaleTimestamp <==> old(accepted[node]) != {} && drift > 10000)
        && (State(node).highest, State(node).timestamp)
           == (if result == Ok && (old(accepted[node]) == {} || nonce > st.highest) then (nonce, t) else (st.highest, st.timestamp))
      ensures initialised && node in old(accepted) ==>
        ReferenceMoves(old(accepted[node]) == {}, old(State(node)), State(node), nonce, t, result == Ok)
      ensures initialised && node !in old(accepted) && !old(Full()) ==>
        result == Ok && State(node).highest == nonce && State(node).timestamp == t
      ensures forall m :: m in old(accepted) && m != node ==> State(m) == old(State(m))
    {
      hide Tracks, Fresh, Valid, Full, Drift;
      if !initialised {
        return ParamNull;
      }
      if node in accepted {
        FreshIs(accepted[node], State(node).highest, State(node).timestamp, nonce, t);
      }
      var index := FindOrAlloc(node);
      if index == -1 {
        return ParamNull;
      }
      result := CheckTracked(node, index, nonce, t);
    }

    /** replay_reset_node */
    method ResetNode(node: NodeId)
      requires Valid()
      modifies this`accepted, this`slot, nodes
      ensures Valid() && accepted == old(accepted) - {node} && initialised == old(initialised)
      ensures forall m :: m in old(accepted) && m != node ==> State(m) == old(State(m))
    {
      hide Tracks;
      assert node in accepted ==> nodes[slot[node]].nodeId == node && nodes[slot[node]].initialised;
      for i := 0 to MAX_NODES
        invariant nodes[..] == old(nodes[..]) && accepted == old(accepted) && slot == old(slot)
        invariant forall k :: 0 <= k < i && nodes[k].initialised ==> nodes[k].nodeId != node
      {
        if nodes[i].initialised && nodes[i].nodeId == node {
          Clear(node, i);
          return;
        }
      }
      NotThere(accepted, node);
    }

    method Clear(node: NodeId, i: nat)
      requires Valid() && i < MAX_NODES && nodes[i].initialised && nodes[i].nodeId == node
      modifies this`accepted, this`slot, nodes
      ensures Valid() && accepted == old(accepted) - {node}
      ensures forall m :: m in old(accepted) && m != node ==> State(m) == old(State(m))
    {
      hide Tracks;
      nodes[i] := CLEARED;
      accepted, slot := accepted - {node}, slot - {node};
      assert forall k :: 0 <= k < MAX_NODES && k != i ==> nodes[k] == old(nodes[k]);
      assert accepted.Keys == slot.Keys;
    }

    /** Every tracked node's window is that of its accepted nonces. */
    lemma Window(node: NodeId)
      requires Valid() && node in accepted
      ensures Tracks(State(node).bitmap, State(node).highest, accepted[node])
    {
      hide Tracks;
    }

    /** A full table holds 64 different nodes. */
    lemma FullMeansAllTracked()
      requires Valid() && Full()
      ensures |accepted| == MAX_NODES
    {
      hide Tracks;
      forall i: nat | i < MAX_NODES ensures Hit(slot, i) {
        assert nodes[i].initialised && slot[nodes[i].nodeId] == i;
      }
      SlotCount(slot, MAX_NODES);
      assert accepted.Keys == slot.Keys;
    }
  }

  ghost predicate Hit(slot: map<NodeId, nat>, i: nat) {
    exists k :: k in slot && slot[k] == i
  }

  /** A map that takes each of the numbers below n to itself from exactly one key has n keys. */
  lemma {:induction false} SlotCount(slot: map<NodeId, nat>, n: nat)
    requires forall k, l :: k in slot && l in slot && slot[k] == slot[l] ==> k == l
    requires forall k :: k in slot ==> 0 <= slot[k] < n
    requires forall i: nat :: i < n ==> Hit(slot, i)
    ensures |slot| == n
    decreases n
  {
    if n == 0 {
      assert slot.Keys == {};
    } else {
      assert Hit(slot, n - 1);
      var k :| k in slot && slot[k] == n - 1;
      var rest := slot - {k};
      assert slot.Keys == rest.Keys + {k};
      forall i: nat | i < n - 1 ensures Hit(rest, i) {
        assert Hit(slot, i);
        var l :| l in slot && slot[l] == i;
        assert l in rest;
      }
      SlotCount(rest, n - 1);
    }
  }

  lemma NeverTwice(bitmap: bv64, highest: Nonce, seen: set<Nonce>, timestamp: nat, nonce: Nonce, t: nat)
    requires Tracks(bitmap, highest, seen)
    ensures Fresh(seen, highest, timestamp, nonce, t) ==> nonce !in seen
  {
    hide Bit;
  }

  lemma NoChange(s: set<Nonce>)
    ensures s + {} == s
  {
  }

  lemma NotThere(m: map<NodeId, set<Nonce>>, k: NodeId)
    requires k !in m
    ensures m - {k} == m
  {
  }

  lemma SameUpdate(m: map<NodeId, set<Nonce>>, k: NodeId)
    requires k in m
    ensures m[k := m[k]] == m
  {
  }

  lemma NothingTracked()
    ensures Tracks(0, 0, {})
  {
  }

  // ---------------------------------------------------------------- whole runs

  datatype Event = Checked(node: NodeId, nonce: Nonce, time: nat) | NodeReset(node: NodeId) | AllReset

  predicate Resets(e: Event, node: NodeId) {
    e == AllReset || e == NodeReset(node)
  }

  /** The accepted nonces of a node after an event, from those before. */
  ghost function After(e: Event, result: CheckResult, node: NodeId, before: set<Nonce>): set<Nonce> {
    if Resets(e, node) then {}
    else if e.Checked? && e.node == node && result == Ok then before + {e.nonce}
    else before
  }

  /** Nonces of the node accepted by the checks since its last reset. */
  ghost function AcceptedIn(events: seq<Event>, results: seq<CheckResult>, node: NodeId): set<Nonce>
    requires |results| == |events|
  {
    if events == [] then {}
    else
      var n := |events| - 1;
      After(events[n], results[n], node, AcceptedIn(events[..n], results[..n], node))
  }

  /** An accepted nonce stays in the set until its node is reset. */
  lemma {:induction false} StaysAccepted(events: seq<Event>, results: seq<CheckResult>, i: nat, node: NodeId)
    requires |results| == |events| && i < |events|
    requires events[i].Checked? && events[i].node == node && results[i] == Ok
    requires forall k :: i < k < |events| ==> !Resets(events[k], node)
    ensures events[i].nonce in AcceptedIn(events, results, node)
    decreases |events|
  {
    var n := |events| - 1;
    if i < n {
      StaysAccepted(events[..n], results[..n], i, node);
    }
  }

  /** Checks i and j accepted the same nonce for the same node. */
  predicate BothAccept(events: seq<Event>, results: seq<CheckResult>, i: nat, j: nat)
    requires |results| == |events| && i < |events| && j < |events|
  {
    && events[i].Checked? && results[i] == Ok && events[j].Checked? && results[j] == Ok
    && events[i].node == events[j].node && events[i].nonce == events[j].nonce
  }

  ghost predicate ResetBetween(events: seq<Event>, i: nat, j: nat, node: NodeId)
    requires j <= |events|
  {
    exists k :: i < k < j && Resets(events[k], node)
  }

  /** If check j accepted a nonce, it had not been accepted since the last reset. */
  ghost predicate FreshAt(events: seq<Event>, results: seq<CheckResult>, j: nat)
    requires j < |results| <= |events|
  {
    events[j].Checked? && results[j] == Ok ==> events[j].nonce !in AcceptedIn(events[..j], results[..j], events[j].node)
  }

  lemma FreshAtNext(events: seq<Event>, results: seq<CheckResult>, r: CheckResult, j: nat)
    requires j < |results| < |events|
    ensures FreshAt(events, results, j) <==> FreshAt(events, results + [r], j)
  {
    assert (results + [r])[..j] == results[..j];
  }

  lemma NoRepeat(events: seq<Event>, results: seq<CheckResult>, i: nat, j: nat)
    requires |results| == |events| && i < j < |events| && FreshAt(events, results, j) && BothAccept(events, results, i, j)
    ensures ResetBetween(events, i, j, events[j].node)
  {
    if !ResetBetween(events, i, j, events[j].node) {
      forall k | i < k < j ensures !Resets(events[..j][k], events[j].node) {
      }
      StaysAccepted(events[..j], results[..j], i, events[j].node);
    }
  }

  /** Runs the events; a nonce accepted twice for a node has a reset of the node in between. */
  method Run(table: ReplayTable, events: seq<Event>) returns (results: seq<CheckResult>)
    requires table.Valid() && table.initialised && table.accepted == map[]
    modifies table, table.nodes
    ensures table.Valid() && |results| == |events|
    ensures forall node :: table.Accepted(node) == AcceptedIn(events, results, node)
    ensures forall i, j :: 0 <= i < j < |events| && BothAccept(events, results, i, j) ==> ResetBetween(events, i, j, events[j].node)
  {
    hide Fresh, Tracks, ReplayTable.Valid, ReplayTable.Full, FreshAt, ResetBetween;
    results := [];
    assert events[..0] == [];
    for n := 0 to |events|
      invariant table.Valid() && table.initialised && |results| == n
      invariant forall node :: table.Accepted(node) == AcceptedIn(events[..n], results, node)
      invariant forall j :: 0 <= j < n ==> FreshAt(events, results, j)
    {
      var result := Step(table, events[n]);
      assert events[..n + 1][..n] == events[..n];
      assert (results + [result])[..n] == results;
      FreshNow(events, results, result, n);
      forall j | 0 <= j < n ensures FreshAt(events, results + [result], j) {
        FreshAtNext(events, results, result, j);
      }
      results := results + [result];
    }
    assert events[..|events|] == events;
    forall i, j | 0 <= i < j < |events| && BothAccept(events, results, i, j) ensures ResetBetween(events, i, j, events[j].node) {
      NoRepeat(events, results, i, j);
    }
  }

  lemma FreshNow(events: seq<Event>, results: seq<CheckResult>, result: CheckResult, n: nat)
    requires |results| == n < |events|
    requires events[n].Checked? && result == Ok ==> events[n].nonce !in AcceptedIn(events[..n], results, events[n].node)
    ensures FreshAt(events, results + [result], n)
  {
    assert (results + [result])[..n] == results;
  }

  /** One event; resets count as Ok. */
  method Step(table: ReplayTable, e: Event) returns (result: CheckResult)
    requires table.Valid() && table.initialised
    modifies table, table.nodes
    ensures table.Valid() && table.initialised
    ensures e.Checked? && result == Ok ==> e.nonce !in old(table.Accepted(e.node))
    ensures forall node :: table.Accepted(node) == After(e, result, node, old(table.Accepted(node)))
  {
    hide Fresh, Tracks, ReplayTable.Valid, ReplayTable.Full;
    result := Ok;
    match e {
      case Checked(node, nonce, time) => result := table.Check(node, nonce, time);
      case NodeReset(node) => table.ResetNode(node);
      case AllReset => table.Reset(false);
    }
  }
  /** The node has been heard, and its reference time is this. */
  ghost predicate HeardAt(table: ReplayTable, node: NodeId, reference: nat)
    reads table, table.nodes
  {
    table.Valid() && node in table.accepted && table.accepted[node] != {} && table.State(node).timestamp == reference
  }

  /** The event neither resets the node nor brings a frame of it near the reference time. */
  predicate LeavesOut(e: Event, node: NodeId, reference: nat) {
    !Resets(e, node) && (e.Checked? && e.node == node ==> Drift(e.time, reference) > MAX_DRIFT_MS)
  }

  /**
   A node is measured against the time of the frame that set its reference, and a frame turned away as
   stale does not move it: once silent for longer than the tolerance, the node stays locked out through
   any run of events, until it is reset.
   */
  method LockedOut(table: ReplayTable, node: NodeId, events: seq<Event>, ghost reference: nat) returns (results: seq<CheckResult>)
    requires table.initialised && HeardAt(table, node, reference)
    requires forall i :: 0 <= i < |events| ==> LeavesOut(events[i], node, reference)
    modifies table, table.nodes
    ensures |results| == |events| && HeardAt(table, node, reference) && table.accepted[node] == old(table.accepted[node])
    ensures forall i :: 0 <= i < |events| && events[i].Checked? && events[i].node == node ==> results[i] == StaleTimestamp
  {
    hide HeardAt, Drift, ReplayTable.Valid;
    AcceptedWhen(table, node, reference);
    results := [];
    for n := 0 to |events|
      invariant table.initialised && HeardAt(table, node, reference) && |results| == n
      invariant table.Accepted(node) == old(table.Accepted(node))
      invariant forall i :: 0 <= i < n && events[i].Checked? && events[i].node == node ==> results[i] == StaleTimestamp
    {
      var result := LeftOut(table, node, events[n], reference);
      results := results + [result];
    }
    AcceptedWhen(table, node, reference);
  }

  lemma AcceptedWhen(table: ReplayTable, node: NodeId, reference: nat)
    requires HeardAt(table, node, reference)
    ensures node in table.accepted && table.Accepted(node) == table.accepted[node]
  {
  }

  method LeftOut(table: ReplayTable, node: NodeId, e: Event, ghost reference: nat) returns (result: CheckResult)
    requires table.initialised && HeardAt(table, node, reference) && LeavesOut(e, node, reference)
    modifies table, table.nodes
    ensures table.initialised && HeardAt(table, node, reference) && table.Accepted(node) == old(table.Accepted(node))
    ensures e.Checked? && e.node == node ==> result == StaleTimestamp
  {
    hide Fresh, Tracks, Drift, ReplayTable.Valid, ReplayTable.Full;
    result := Ok;
    match e {
      case Checked(m, nonce, time) => result := table.Check(m, nonce, time);
      case NodeReset(m) => table.ResetNode(m);
      case AllReset => assert false;
    }
  }
}
