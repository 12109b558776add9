/**
 Transport sessions: two peers derive mirrored keys from one shared key, number their frames, and
 accept a frame only when its number has not been passed.  The channel may drop, duplicate and
 reorder frames.
 */
module Transport {
  import opened Arith
  import opened Bytes
  import opened GaloisField
  import opened Counter
  import opened CbcMode
  import opened Words
  import Ccm

  const MIC_SIZE := 4
  const MAX_PAYLOAD := 256

  type Key = k: seq<byte> | |k| == 16 witness Zeros(16)
  type Digest = d: seq<byte> | |d| == 32 witness Zeros(32)

  /** HMAC-SHA256, of which nothing but its output length is used. */
  type Hmac = (seq<byte>, seq<byte>) -> Digest
  /** The block cipher under each key. */
  type KeyedCipher = Key -> BlockFn

  type Mic = m: seq<byte> | |m| == MIC_SIZE witness Zeros(4)

  datatype Frame = Frame(sessionId: byte, counter: U32, mic: Mic, ciphertext: seq<byte>)

  datatype DecryptResult = Ok | MicFail | BadSession | BadNonce | ParamNull

  // ---------------------------------------------------------------- keys

  /** The direction labels "a_to_b" and "b_to_a". */
  const A_TO_B: seq<byte> := [97, 95, 116, 111, 95, 98]
  const B_TO_A: seq<byte> := [98, 95, 116, 111, 95, 97]

  /** transport_derive_keys for one direction: at most 30 bytes of salt are used. */
  function DeriveKey(hmac: Hmac, shared: Key, salt: seq<byte>, direction: seq<byte>): Key {
    var copyLen := if |salt| > 30 then 30 else |salt|;
    hmac(shared, direction + salt[..copyLen])[..16]
  }

  /** The node pair in ascending order. */
  function Salt(local: byte, remote: byte): seq<byte> {
    if local < remote then [local, remote] else [remote, local]
  }

  function LocalIsLower(local: byte, remote: byte): bool {
    local == Salt(local, remote)[0]
  }

  function TxKey(hmac: Hmac, shared: Key, local: byte, remote: byte): Key {
    DeriveKey(hmac, shared, Salt(local, remote), if LocalIsLower(local, remote) then A_TO_B else B_TO_A)
  }

  function RxKey(hmac: Hmac, shared: Key, local: byte, remote: byte): Key {
    DeriveKey(hmac, shared, Salt(local, remote), if LocalIsLower(local, remote) then B_TO_A else A_TO_B)
  }

  /**
   What one peer sends with is what the other receives with, exactly when the peers have different
   ids; with equal ids both take themselves for the lower one, and only a coincidence of HMAC makes
   the keys meet.
   */
  lemma KeysMirror(hmac: Hmac, shared: Key, a: byte, b: byte)
    ensures TxKey(hmac, shared, a, b) == RxKey(hmac, shared, b, a)
            <==> a != b || hmac(shared, A_TO_B + [a, a])[..16] == hmac(shared, B_TO_A + [a, a])[..16]
  {
    assert Salt(a, b) == Salt(b, a);
    assert Salt(a, b)[..2] == Salt(a, b);
  }

  /** The keys spelled out: HMAC over the direction's name and the two ids in ascending order, cut to 16 bytes. */
  lemma KeysAre(hmac: Hmac, shared: Key, local: byte, remote: byte)
    ensures var lower, upper := if local < remote then local else remote, if local < remote then remote else local;
            var aToB, bToA := hmac(shared, [97, 95, 116, 111, 95, 98, lower, upper])[..16], hmac(shared, [98, 95, 116, 111, 95, 97, lower, upper])[..16];
            && TxKey(hmac, shared, local, remote) == (if local <= remote then aToB else bToA)
            && RxKey(hmac, shared, local, remote) == (if local <= remote then bToA else aToB)
  {
    var salt := Salt(local, remote);
    assert salt[..2] == salt;
    assert A_TO_B + salt == [97, 95, 116, 111, 95, 98, salt[0], salt[1]];
    assert B_TO_A + salt == [98, 95, 116, 111, 95, 97, salt[0], salt[1]];
  }

  // ---------------------------------------------------------------- nonces

  /** build_ccm_nonce: session id, counter from its highest byte, eight zeros. */
  function Nonce(sessionId: byte, counter: U32): (n: seq<byte>)
    ensures |n| == 13
  {
    [sessionId,
     ToByte(counter / 0x100_0000 % 256), ToByte(counter / 0x1_0000 % 256), ToByte(counter / 0x100 % 256), ToByte(counter % 256)]
    + Zeros(8)
  }

  lemma CounterBytes(c: U32)
    ensures BeBytes(4, c)
            == [ToByte(c / 0x100_0000 % 256), ToByte(c / 0x1_0000 % 256), ToByte(c / 0x100 % 256), ToByte(c % 256)]
  {
    hide ToByte;
    Digits(c);
    LastByte(0, c / 256 / 256 / 256);
    LastByte(1, c / 256 / 256);
    LastByte(2, c / 256);
    LastByte(3, c);
  }

  lemma LastByte(n: nat, v: nat)
    ensures BeBytes(n + 1, v) == BeBytes(n, v / 256) + [ToByte(v % 256)] && BeBytes(0, v / 256) == []
  {
  }

  lemma NonceInjective(id: byte, c: U32, id': byte, c': U32)
    requires Nonce(id, c) == Nonce(id', c')
    ensures id == id' && c == c'
  {
    hide ToByte, BeNat, BeBytes;
    CounterBytes(c);
    CounterBytes(c');
    assert Nonce(id, c)[0] == id && Nonce(id', c')[0] == id';
    assert Nonce(id, c)[1..5] == BeBytes(4, c) && Nonce(id', c')[1..5] == BeBytes(4, c');
    FourBytes();
    BeRoundTrip(4, c);
    BeRoundTrip(4, c');
  }

  /** The places of a nonce: session id, counter big-endian, zeros. */
  lemma NonceBytes(id: byte, c: U32)
    ensures var n := Nonce(id, c); n[0] == id && BeNat(n[1..5]) == c && n[5..] == Zeros(8)
  {
    hide ToByte, BeNat, BeBytes;
    CounterBytes(c);
    FourBytes();
    BeRoundTrip(4, c);
    assert Nonce(id, c)[1..5] == BeBytes(4, c);
  }

  lemma FourBytes()
    ensures Pow256(4) == U32_MODULUS
  {
    assert Pow256(0) == 1 && Pow256(1) == 256 && Pow256(2) == 0x1_0000;
    assert Pow256(3) == 0x100_0000;
  }

  /** The counter of the k-th frame of a session. */
  function CounterAt(k: nat): U32 {
    Mod(k, U32_MODULUS)
  }

  /** Two frames of a session have the same nonce exactly when they are a multiple of 2^32 apart. */
  lemma NoncesOfSession(id: byte, i: nat, j: nat)
    ensures Nonce(id, CounterAt(i)) == Nonce(id, CounterAt(j)) <==> i % U32_MODULUS == j % U32_MODULUS
  {
    hide Nonce;
    if Nonce(id, CounterAt(i)) == Nonce(id, CounterAt(j)) {
      NonceInjective(id, CounterAt(i), id, CounterAt(j));
    }
  }

  // ---------------------------------------------------------------- frames

  function Seal(E: BlockFn, id: byte, counter: U32, p: seq<byte>): Frame {
    Frame(id, counter, Ccm.Tag(E, Nonce(id, counter), [], p, MIC_SIZE), Ccm.CtrCrypt(E, Nonce(id, counter), 1, p))
  }

  datatype Opened = Opened(result: DecryptResult, plain: seq<byte>, rx: U32)

  /** What the receiver with counter rx makes of a frame. */
  function Open(E: BlockFn, active: bool, rx: U32, f: Frame): Opened {
    if !active then Opened(BadSession, [], rx)
    else if f.counter < rx then Opened(BadNonce, [], rx)
    else if |f.ciphertext| > MAX_PAYLOAD then Opened(ParamNull, [], rx)
    else
      var nonce := Nonce(f.sessionId, f.counter);
      var p := Ccm.CtrCrypt(E, nonce, 1, f.ciphertext);
      if f.mic == Ccm.Tag(E, nonce, [], p, MIC_SIZE) then Opened(Ok, p, CounterAt(f.counter + 1))
      else Opened(MicFail, [], rx)
  }

  lemma OpenSeal(E: BlockFn, id: byte, counter: U32, p: seq<byte>, rx: U32)
    requires |p| <= MAX_PAYLOAD
    ensures Open(E, true, rx, Seal(E, id, counter, p))
            == if counter < rx then Opened(BadNonce, [], rx) else Opened(Ok, p, CounterAt(counter + 1))
  {
    hide Ccm.Tag, Ccm.CtrCrypt, Nonce;
    Ccm.CtrCryptTwice(E, Nonce(id, counter), 1, p);
  }

  /** Whether a frame carries the tag of what it decrypts to, under its own session id and counter. */
  predicate Authentic(E: BlockFn, f: Frame) {
    var nonce := Nonce(f.sessionId, f.counter);
    f.mic == Ccm.Tag(E, nonce, [], Ccm.CtrCrypt(E, nonce, 1, f.ciphertext), MIC_SIZE)
  }

  /** A frame with a wrong MIC is not taken and moves nothing. */
  lemma WrongMic(E: BlockFn, active: bool, rx: U32, f: Frame)
    requires !Authentic(E, f)
    ensures var o := Open(E, active, rx, f); o.result != Ok && o.plain == [] && o.rx == rx
    ensures active && f.counter >= rx && |f.ciphertext| <= MAX_PAYLOAD ==> Open(E, active, rx, f).result == MicFail
  {
    hide Ccm.Tag, Ccm.CtrCrypt, Nonce;
  }

  // ---------------------------------------------------------------- more than one session

  /** The id of the k-th session since initialisation: an eight-bit count that starts at one. */
  function SessionIdAt(k: nat): byte {
    ToByte((k + 1) % 256)
  }

  lemma NextSessionId(k: nat)
    ensures SessionIdAt(0) == 1 && SessionIdAt(k + 1) == SessionIdAt(k) + 1
  {
    var v := (k + 1) % 256;
    assert (k + 2) % 256 == if v == 255 then 0 else v + 1;
    ByteAfter(v);
  }

  lemma ByteAfter(v: nat)
    requires v < 256
    ensures ToByte(if v == 255 then 0 else v + 1) == ToByte(v) + 1
  {
    hide ToByte, Index;
    ByteRoundTrip(v);
    PlusOneIndex(ToByte(v));
    IndexRoundTrip(PlusOne(ToByte(v)));
  }

  /** Two frames, of any sessions and initialisations, have the same nonce exactly when ids and counters have come round alike. */
  lemma NoncesOfSessions(k: nat, i: nat, l: nat, j: nat)
    ensures Nonce(SessionIdAt(k), CounterAt(i)) == Nonce(SessionIdAt(l), CounterAt(j))
            <==> k % 256 == l % 256 && i % U32_MODULUS == j % U32_MODULUS
  {
    hide Nonce;
    SameSessionId(k, l);
    if Nonce(SessionIdAt(k), CounterAt(i)) == Nonce(SessionIdAt(l), CounterAt(j)) {
      NonceInjective(SessionIdAt(k), CounterAt(i), SessionIdAt(l), CounterAt(j));
    }
  }

  lemma SameSessionId(k: nat, l: nat)
    ensures SessionIdAt(k) == SessionIdAt(l) <==> k % 256 == l % 256
  {
    hide ToByte, Index;
    ByteRoundTrip((k + 1) % 256);
    ByteRoundTrip((l + 1) % 256);
  }

  /** Sessions 256 apart between the same nodes have keys and nonces in common: their ciphertexts differ as the plaintexts do. */
  lemma SessionsShareKeyStream(E: BlockFn, k: nat, l: nat, counter: U32, p: seq<byte>, q: seq<byte>)
    requires k % 256 == l % 256 && |p| == |q|
    ensures Xor(Seal(E, SessionIdAt(k), counter, p).ciphertext, Seal(E, SessionIdAt(l), counter, q).ciphertext) == Xor(p, q)
  {
    hide Nonce, Ccm.CtrCrypt, Ccm.Tag, Xor;
    SameSessionId(k, l);
    Ccm.CtrCryptDifference(E, Nonce(SessionIdAt(k), counter), 1, p, q);
  }

  /**
   Neither the keys nor the receiver's tests have to do with its own session: a frame that one peer sealed
   in any session is taken by any session of the other exactly when its counter has not been passed there.
   */
  lemma AnySessionTakes(hmac: Hmac, cipher: KeyedCipher, shared: Key, a: byte, b: byte, id: byte, counter: U32, p: seq<byte>, rx: U32)
    requires a != b && |p| <= MAX_PAYLOAD
    ensures var o := Open(cipher(RxKey(hmac, shared, b, a)), true, rx, Seal(cipher(TxKey(hmac, shared, a, b)), id, counter, p));
            o == if counter >= rx then Opened(Ok, p, CounterAt(counter + 1)) else Opened(BadNonce, [], rx)
  {
    hide Open, Seal, TxKey, RxKey, CounterAt;
    KeysMirror(hmac, shared, a, b);
    OpenSeal(cipher(TxKey(hmac, shared, a, b)), id, counter, p, rx);
  }

  // ---------------------------------------------------------------- the channel

  /** The receiver's counter and the plaintexts delivered after a run of frames. */
  function Receive(E: BlockFn, rx: U32, frames: seq<Frame>): (U32, seq<seq<byte>>) {
    if frames == [] then (rx, [])
    else
      var (r, got) := Receive(E, rx, frames[..|frames| - 1]);
      var o := Open(E, true, r, frames[|frames| - 1]);
      (o.rx, if o.result == Ok then got + [o.plain] else got)
  }

  predicate Within(s: seq<nat>, n: nat) {
    forall k :: 0 <= k < |s| ==> s[k] < n
  }

  /** The frames of a transmission as the channel delivers them: any indices, any order, any repetition. */
  function Arrivals(E: BlockFn, id: byte, ps: seq<seq<byte>>, schedule: seq<nat>): (fs: seq<Frame>)
    requires |ps| < U32_MODULUS && Within(schedule, |ps|)
    ensures |fs| == |schedule|
  {
    if schedule == [] then []
    else
      var i := schedule[|schedule| - 1];
      Arrivals(E, id, ps, schedule[..|schedule| - 1]) + [Seal(E, id, i, ps[i])]
  }

  /** The entries of a schedule greater than all entries before them. */
  function Records(s: seq<nat>): (r: seq<nat>)
    ensures forall n: nat :: Within(s, n) ==> Within(r, n)
  {
    if s == [] then []
    else
      var r, last := Records(s[..|s| - 1]), s[|s| - 1];
      if Bound(s[..|s| - 1]) <= last then r + [last] else r
  }

  /** One more than the greatest entry. */
  function Bound(s: seq<nat>): (b: nat)
    ensures Within(s, b)
  {
    if s == [] then 0
    else
      var b, last := Bound(s[..|s| - 1]), s[|s| - 1];
      if b <= last then last + 1 else b
  }

  function Pick(ps: seq<seq<byte>>, r: seq<nat>): seq<seq<byte>>
    requires Within(r, |ps|)
  {
    if r == [] then []
    else
      Pick(ps, r[..|r| - 1]) + [ps[r[|r| - 1]]]
  }

  lemma PickNext(ps: seq<seq<byte>>, r: seq<nat>, i: nat)
    requires i < |ps| && Within(r, |ps|)
    ensures Pick(ps, r + [i]) == Pick(ps, r) + [ps[i]]
  {
    assert (r + [i])[..|r|] == r;
  }

  /**
   Whatever the channel drops, duplicates or reorders, the receiver delivers exactly the plaintexts
   of the frames that are ahead of everything that arrived before them, in the order of arrival.
   */
  lemma {:induction false} ChannelDelivers(E: BlockFn, id: byte, ps: seq<seq<byte>>, schedule: seq<nat>)
    requires |ps| < U32_MODULUS && forall i :: 0 <= i < |ps| ==> |ps[i]| <= MAX_PAYLOAD
    requires Within(schedule, |ps|)
    ensures Receive(E, 0, Arrivals(E, id, ps, schedule)) == (Bound(schedule), Pick(ps, Records(schedule)))
    ensures Bound(schedule) <= |ps|
    decreases |schedule|
  {
    hide *;
    var n := |schedule| - 1;
    if schedule == [] {
      NothingSent(E, id, ps);
    } else {
      var init, i := schedule[..n], schedule[n];
      WithinPrefix(schedule, |ps|);
      ChannelDelivers(E, id, ps, init);
      ReceiveNext(E, 0, Arrivals(E, id, ps, init), Seal(E, id, i, ps[i]));
      NextArrival(E, id, ps, schedule);
      OpenSeal(E, id, i, ps[i], Bound(init));
      CounterSmall(i + 1);
      PickNext(ps, Records(init), i);
    }
  }

  lemma WithinPrefix(s: seq<nat>, n: nat)
    requires Within(s, n) && s != []
    ensures Within(s[..|s| - 1], n) && s[|s| - 1] < n && Within(Records(s[..|s| - 1]), n)
  {
  }

  lemma NothingSent(E: BlockFn, id: byte, ps: seq<seq<byte>>)
    requires |ps| < U32_MODULUS
    ensures Within([], |ps|) && Receive(E, 0, Arrivals(E, id, ps, [])) == (0, []) && Bound([]) == 0 && Records([]) == []
    ensures Pick(ps, []) == []
  {
  }

  lemma NextArrival(E: BlockFn, id: byte, ps: seq<seq<byte>>, schedule: seq<nat>)
    requires |ps| < U32_MODULUS && Within(schedule, |ps|) && schedule != []
    ensures var init, i := schedule[..|schedule| - 1], schedule[|schedule| - 1];
            && Arrivals(E, id, ps, schedule) == Arrivals(E, id, ps, init) + [Seal(E, id, i, ps[i])]
            && Records(schedule) == (if Bound(init) <= i then Records(init) + [i] else Records(init))
            && Bound(schedule) == (if Bound(init) <= i then i + 1 else Bound(init))
  {
    hide Seal;
  }

  lemma ReceiveNext(E: BlockFn, rx: U32, fs: seq<Frame>, f: Frame)
    ensures var (r, got) := Receive(E, rx, fs);
            var o := Open(E, true, r, f);
            Receive(E, rx, fs + [f]) == (o.rx, if o.result == Ok then got + [o.plain] else got)
  {
    hide Open;
    assert (fs + [f])[..|fs|] == fs;
  }

  lemma CounterSmall(k: nat)
    requires k < U32_MODULUS
    ensures CounterAt(k) == k
  {
  }

  /** What arrives: a frame of the transmission, or any frame that does not carry the right MIC. */
  datatype Arrival = Sent(index: nat) | Forged(frame: Frame)

  ghost predicate Possible(E: BlockFn, n: nat, arrivals: seq<Arrival>) {
    forall k :: 0 <= k < |arrivals| ==>
      match arrivals[k]
      case Sent(i) => i < n
      case Forged(f) => !Authentic(E, f)
  }

  /** The frames as they come in. */
  function Incoming(E: BlockFn, id: byte, ps: seq<seq<byte>>, arrivals: seq<Arrival>): (fs: seq<Frame>)
    requires |ps| < U32_MODULUS && forall k :: 0 <= k < |arrivals| && arrivals[k].Sent? ==> arrivals[k].index < |ps|
    ensures |fs| == |arrivals|
    ensures forall k :: 0 <= k < |arrivals| ==>
      fs[k] == if arrivals[k].Sent? then Seal(E, id, arrivals[k].index, ps[arrivals[k].index]) else arrivals[k].frame
  {
    seq(|arrivals|, k requires 0 <= k < |arrivals| =>
      if arrivals[k].Sent? then Seal(E, id, arrivals[k].index, ps[arrivals[k].index]) else arrivals[k].frame)
  }

  /** The frames of the transmission among them. */
  function Genuine(arrivals: seq<Arrival>): (schedule: seq<nat>)
  {
    if arrivals == [] then []
    else
      var init, last := Genuine(arrivals[..|arrivals| - 1]), arrivals[|arrivals| - 1];
      if last.Sent? then init + [last.index] else init
  }

  /** Frames with a wrong MIC, wherever they come in, change nothing of what is delivered. */
  lemma {:induction false} ForgeriesChangeNothing(E: BlockFn, id: byte, ps: seq<seq<byte>>, arrivals: seq<Arrival>)
    requires |ps| < U32_MODULUS && forall i :: 0 <= i < |ps| ==> |ps[i]| <= MAX_PAYLOAD
    requires Possible(E, |ps|, arrivals)
    ensures Within(Genuine(arrivals), |ps|)
    ensures Receive(E, 0, Incoming(E, id, ps, arrivals)) == (Bound(Genuine(arrivals)), Pick(ps, Records(Genuine(arrivals))))
    decreases |arrivals|
  {
    hide Open, Seal, Receive, Authentic, Arrivals, Bound, Records, Pick;
    if arrivals == [] {
      NothingSent(E, id, ps);
      assert Incoming(E, id, ps, arrivals) == [];
    } else {
      var n := |arrivals| - 1;
      var init, last := arrivals[..n], arrivals[n];
      ForgeriesChangeNothing(E, id, ps, init);
      var fs := Incoming(E, id, ps, init);
      if last.Sent? {
        var i := last.index;
        assert Incoming(E, id, ps, arrivals) == fs + [Seal(E, id, i, ps[i])];
        SentNext(E, id, ps, Genuine(init), i, fs);
      } else {
        assert Incoming(E, id, ps, arrivals) == fs + [last.frame];
        var (rx, got) := Receive(E, 0, fs);
        ReceiveNext(E, 0, fs, last.frame);
        WrongMic(E, true, rx, last.frame);
      }
    }
  }

  lemma SentNext(E: BlockFn, id: byte, ps: seq<seq<byte>>, schedule: seq<nat>, i: nat, fs: seq<Frame>)
    requires |ps| < U32_MODULUS && forall k :: 0 <= k < |ps| ==> |ps[k]| <= MAX_PAYLOAD
    requires Within(schedule, |ps|) && i < |ps|
    requires Receive(E, 0, fs) == (Bound(schedule), Pick(ps, Records(schedule)))
    ensures Within(schedule + [i], |ps|)
    ensures Receive(E, 0, fs + [Seal(E, id, i, ps[i])]) == (Bound(schedule + [i]), Pick(ps, Records(schedule + [i])))
  {
    hide Open, Seal, Receive, Arrivals, Bound, Records, Pick;
    var longer := schedule + [i];
    assert longer[..|longer| - 1] == schedule;
    ChannelDelivers(E, id, ps, schedule);
    ChannelDelivers(E, id, ps, longer);
    NextArrival(E, id, ps, longer);
    ReceiveNext(E, 0, fs, Seal(E, id, i, ps[i]));
    ReceiveNext(E, 0, Arrivals(E, id, ps, schedule), Seal(E, id, i, ps[i]));
  }

  /** Each frame is delivered at most once and later frames never come before earlier ones. */
  lemma {:induction false} RecordsIncrease(s: seq<nat>)
    ensures forall i, j :: 0 <= i < j < |Records(s)| ==> Records(s)[i] < Records(s)[j]
    decreases |s|
  {
    if s != [] {
      var init := s[..|s| - 1];
      RecordsIncrease(init);
      assert Within(init, Bound(init)) && Within(Records(init), Bound(init));
    }
  }

  predicate Subsequence(r: seq<nat>, s: seq<nat>) {
    if r == [] then true
    else if s == [] then false
    else Subsequence(r, s[..|s| - 1]) || (r[|r| - 1] == s[|s| - 1] && Subsequence(r[..|r| - 1], s[..|s| - 1]))
  }

  lemma {:induction false} RecordsSubsequence(s: seq<nat>)
    ensures Subsequence(Records(s), s)
    decreases |s|
  {
    if s != [] {
      RecordsSubsequence(s[..|s| - 1]);
      var r := Records(s[..|s| - 1]);
      assert (r + [s[|s| - 1]])[..|r|] == r;
    }
  }

  function InOrder(n: nat): (s: seq<nat>)
    ensures |s| == n && forall i :: 0 <= i < n ==> s[i] == i
  {
    seq(n, i => i)
  }

  /** A schedule that keeps the order and loses nothing delivers everything. */
  lemma {:induction false} LosslessDeliversAll(ps: seq<seq<byte>>)
    ensures Records(InOrder(|ps|)) == InOrder(|ps|) && Bound(InOrder(|ps|)) == |ps|
    ensures Pick(ps, InOrder(|ps|)) == ps
    decreases |ps|
  {
    if ps != [] {
      var n := |ps| - 1;
      LosslessDeliversAll(ps[..n]);
      assert InOrder(|ps|)[..n] == InOrder(n);
      PickOfPrefix(ps, InOrder(n), n);
      assert ps == ps[..n] + [ps[n]];
    }
  }

  lemma {:induction false} PickOfPrefix(ps: seq<seq<byte>>, r: seq<nat>, n: nat)
    requires n <= |ps| && Within(r, n)
    ensures Pick(ps[..n], r) == Pick(ps, r)
    decreases |r|
  {
    if r != [] {
      PickOfPrefix(ps, r[..|r| - 1], n);
    }
  }

  /** The bound on the number of frames is exact: after frame 2^32 - 1 the counter starts over and frame 0 is taken again. */
  lemma CounterStartsOver(E: BlockFn, id: byte, p: seq<byte>, q: seq<byte>)
    requires |p| <= MAX_PAYLOAD && |q| <= MAX_PAYLOAD
    ensures var f, last := Seal(E, id, 0, p), Seal(E, id, U32_MODULUS - 1, q);
            Receive(E, 0, [f, last, f]).1 == [p, q, p]
  {
    hide Open, Seal, Receive, Arrivals;
    var f, last := Seal(E, id, 0, p), Seal(E, id, U32_MODULUS - 1, q);
    assert CounterAt(1) == 1 && CounterAt(U32_MODULUS) == 0;
    NothingReceived(E);
    Taken(E, id, 0, p, [], 0, []);
    assert [] + [f] == [f] && [] + [p] == [p];
    Taken(E, id, U32_MODULUS - 1, q, [f], 1, [p]);
    assert [f] + [last] == [f, last] && [p] + [q] == [p, q];
    Taken(E, id, 0, p, [f, last], 0, [p, q]);
    assert [f, last] + [f] == [f, last, f] && [p, q] + [p] == [p, q, p];
  }

  lemma NothingReceived(E: BlockFn)
    ensures Receive(E, 0, []) == (0, [])
  {
  }

  lemma Taken(E: BlockFn, id: byte, k: U32, p: seq<byte>, fs: seq<Frame>, rx: U32, got: seq<seq<byte>>)
    requires |p| <= MAX_PAYLOAD && rx <= k && Receive(E, 0, fs) == (rx, got)
    ensures Receive(E, 0, fs + [Seal(E, id, k, p)]) == (CounterAt(k + 1), got + [p])
  {
    hide Open, Seal, Receive, CounterAt;
    OpenSeal(E, id, k, p, rx);
    ReceiveNext(E, 0, fs, Seal(E, id, k, p));
  }

  // ---------------------------------------------------------------- the sessions

  class Session {
    var sessionId: byte
    var localNodeId: byte
    var remoteNodeId: byte
    var txKey: Key
    var rxKey: Key
    var txNonceCounter: U32
    var rxNonceCounter: U32
    var active: bool

    /** An object whose contents transport_create_session will overwrite. */
    constructor ()
      ensures !active
    {
      sessionId, localNodeId, remoteNodeId := 0, 0, 0;
      txKey, rxKey := Zeros(16), Zeros(16);
      txNonceCounter, rxNonceCounter := 0, 0;
      active := false;
    }

    method Reset(id: byte, local: byte, remote: byte)
      modifies this
      ensures sessionId == id && localNodeId == local && remoteNodeId == remote
      ensures txNonceCounter == 0 == rxNonceCounter && active
    {
      sessionId, localNodeId, remoteNodeId := id, local, remote;
      txNonceCounter, rxNonceCounter, active := 0, 0, true;
    }

    /** Keys from the sorted node pair and the direction. */
    method SetKeys(hmac: Hmac, local: byte, remote: byte, shared: Key)
      modifies this`txKey, this`rxKey
      ensures txKey == TxKey(hmac, shared, local, remote) && rxKey == RxKey(hmac, shared, local, remote)
    {
      hide *;
      var lower := if local < remote then local else remote;
      var upper := if local < remote then remote else local;
      Directions(hmac, shared, local, remote, lower, upper);
      var salt := [lower, upper];
      if local == lower {
        txKey := DeriveKey(hmac, shared, salt, A_TO_B);
        rxKey := DeriveKey(hmac, shared, salt, B_TO_A);
      } else {
        txKey := DeriveKey(hmac, shared, salt, B_TO_A);
        rxKey := DeriveKey(hmac, shared, salt, A_TO_B);
      }
    }

    /** transport_encrypt */
    method Encrypt(cipher: KeyedCipher, plaintext: seq<byte>) returns (ok: bool, frame: Frame)
      modifies this`txNonceCounter
      ensures ok <==> active && |plaintext| <= MAX_PAYLOAD
      ensures ok ==> frame == Seal(cipher(txKey), sessionId, old(txNonceCounter), plaintext)
      ensures ok ==>
        var E, nonce := cipher(txKey), Nonce(sessionId, old(txNonceCounter));
        && frame.sessionId == sessionId && frame.counter == old(txNonceCounter)
        && frame.ciphertext == Ccm.CtrCrypt(E, nonce, 1, plaintext) && frame.mic == Ccm.Tag(E, nonce, [], plaintext, 4)
      ensures txNonceCounter == if ok then CounterAt(old(txNonceCounter) + 1) else old(txNonceCounter)
      ensures ok ==> txNonceCounter == (old(txNonceCounter) + 1) % 0x1_0000_0000
    {
      hide Ccm.Tag, Ccm.CtrCrypt, Pow256;
      frame := Frame(0, 0, Zeros(4), []);
      if !active || |plaintext| > MAX_PAYLOAD {
        return false, frame;
      }
      var nonce := Nonce(sessionId, txNonceCounter);
      var encBuf := new byte[MAX_PAYLOAD + MIC_SIZE];
      PayloadFits(|plaintext|);
      var ret, mic := Ccm.EncryptAndTag(cipher(txKey), false, nonce, [], plaintext, encBuf, MIC_SIZE);
      assert encBuf[..|plaintext|] == encBuf[..][..|plaintext|] == Ccm.CtrCrypt(cipher(txKey), nonce, 1, plaintext);
      frame := Frame(sessionId, txNonceCounter, mic, encBuf[..|plaintext|]);
      txNonceCounter := (txNonceCounter + 1) % U32_MODULUS;
      return true, frame;
    }

    /** transport_decrypt */
    method Decrypt(cipher: KeyedCipher, frame: Frame, outPlaintext: array<byte>) returns (result: DecryptResult, outLen: nat)
      requires outPlaintext.Length >= MAX_PAYLOAD
      modifies this`rxNonceCounter, outPlaintext
      ensures var o := Open(cipher(rxKey), active, old(rxNonceCounter), frame);
              && result == o.result && rxNonceCounter == o.rx
              && (result == Ok ==> outLen == |o.plain| <= MAX_PAYLOAD && outPlaintext[..outLen] == o.plain)
      ensures result == BadSession <==> !active
      ensures result == BadNonce <==> active && frame.counter < old(rxNonceCounter)
      ensures result == ParamNull <==> active && frame.counter >= old(rxNonceCounter) && |frame.ciphertext| > 256
      ensures active && frame.counter >= old(rxNonceCounter) && |frame.ciphertext| <= 256 ==>
        var E, nonce := cipher(rxKey), Nonce(frame.sessionId, frame.counter);
        var p := Ccm.CtrCrypt(E, nonce, 1, frame.ciphertext);
        if frame.mic == Ccm.Tag(E, nonce, [], p, 4) then
          result == Ok && outLen == |p| && outPlaintext[..outLen] == p && rxNonceCounter == (frame.counter + 1) % 0x1_0000_0000
        else result == MicFail
      ensures result != Ok ==> rxNonceCounter == old(rxNonceCounter)
      ensures result == MicFail ==>
        |frame.ciphertext| <= MAX_PAYLOAD && outPlaintext[..] == Zeros(|frame.ciphertext|) + old(outPlaintext[|frame.ciphertext|..])
      ensures result != Ok && result != MicFail ==> unchanged(outPlaintext)
    {
      hide Ccm.Tag, Ccm.CtrCrypt, Pow256;
      outLen := 0;
      if !active {
        return BadSession, outLen;
      }
      if frame.counter < rxNonceCounter {
        return BadNonce, outLen;
      }
      if |frame.ciphertext| > MAX_PAYLOAD {
        return ParamNull, outLen;
      }
      var nonce := Nonce(frame.sessionId, frame.counter);
      PayloadFits(|frame.ciphertext|);
      var ret := VerifyMic(cipher(rxKey), nonce, frame.ciphertext, frame.mic, outPlaintext);
      if ret != 0 {
        return MicFail, outLen;
      }
      outLen := |frame.ciphertext|;
      assert outPlaintext[..outLen] == outPlaintext[..][..outLen];
      rxNonceCounter := (frame.counter + 1) % U32_MODULUS;
      return Ok, outLen;
    }

    /** transport_session_invalidate */
    method Invalidate()
      modifies this
      ensures !active && txKey == Zeros(16) == rxKey
    {
      active := false;
      txKey, rxKey := Zeros(16), Zeros(16);
    }
  }

  lemma Directions(hmac: Hmac, shared: Key, local: byte, remote: byte, lower: byte, upper: byte)
    requires lower == (if local < remote then local else remote) && upper == (if local < remote then remote else local)
    ensures var up, down := DeriveKey(hmac, shared, [lower, upper], A_TO_B), DeriveKey(hmac, shared, [lower, upper], B_TO_A);
            && TxKey(hmac, shared, local, remote) == (if local == lower then up else down)
            && RxKey(hmac, shared, local, remote) == (if local == lower then down else up)
  {
    hide DeriveKey;
    assert [lower, upper] == Salt(local, remote);
  }

  /** The subsystem state: whether it is initialised, and the next session id, an eight-bit count. */
  class Subsystem {
    var initialised: bool
    var nextSessionId: byte

    constructor ()
      ensures !initialised && nextSessionId == 0
    {
      initialised, nextSessionId := false, 0;
    }

    /** transport_init */
    method Init() returns (ok: bool)
      modifies this
      ensures ok && initialised && nextSessionId == 1
    {
      initialised, nextSessionId := true, 1;
      return true;
    }

    /** transport_create_session */
    method CreateSession(hmac: Hmac, session: Session, local: byte, remote: byte, shared: Key) returns (ok: bool)
      modifies this`nextSessionId, session
      ensures ok == initialised
      ensures !ok ==> nextSessionId == old(nextSessionId) && unchanged(session)
      ensures ok ==>
        && session.sessionId == old(nextSessionId) && nextSessionId == old(nextSessionId) + 1
        && session.localNodeId == local && session.remoteNodeId == remote
        && session.txNonceCounter == 0 == session.rxNonceCounter && session.active
        && session.txKey == TxKey(hmac, shared, local, remote) && session.rxKey == RxKey(hmac, shared, local, remote)
    {
      hide TxKey, RxKey;
      if !initialised {
        return false;
      }
      session.Reset(nextSessionId, local, remote);
      nextSessionId := nextSessionId + 1;
      session.SetKeys(hmac, local, remote, shared);
      return true;
    }
  }

  /**
   Two peers with different ids and the same shared key, a run of sends, and any arrivals: what comes
   out at the far end is what the channel theorem says.
   */
  method Exchange(hmac: Hmac, cipher: KeyedCipher, a: byte, b: byte, shared: Key, ps: seq<seq<byte>>, schedule: seq<nat>)
    returns (got: seq<seq<byte>>)
    requires a != b && |ps| < U32_MODULUS && forall i :: 0 <= i < |ps| ==> |ps[i]| <= MAX_PAYLOAD
    requires Within(schedule, |ps|)
    ensures got == Pick(ps, Records(schedule))
  {
    hide Seal, Open, Receive, Arrivals, Records, Pick, TxKey, RxKey;
    var subsystemA := new Subsystem();
    var subsystemB := new Subsystem();
    var alice := new Session();
    var bob := new Session();
    var ok := subsystemA.Init();
    ok := subsystemB.Init();
    ok := subsystemA.CreateSession(hmac, alice, a, b, shared);
    ok := subsystemB.CreateSession(hmac, bob, b, a, shared);
    KeysMirror(hmac, shared, a, b);
    var frames := SendAll(cipher, alice, ps);
    got := ReceiveAll(cipher, bob, alice.sessionId, ps, frames, schedule);
    ChannelDelivers(cipher(bob.rxKey), alice.sessionId, ps, schedule);
  }

  /** Sessions created one after the other get the ids of SessionIdAt. */
  method CreateSessions(hmac: Hmac, subsystem: Subsystem, session: Session, n: nat, local: byte, remote: byte, shared: Key)
    returns (ids: seq<byte>)
    modifies subsystem, session
    ensures |ids| == n && forall k :: 0 <= k < n ==> ids[k] == SessionIdAt(k)
    ensures n > 0 ==> session.active && session.rxNonceCounter == 0 && session.rxKey == RxKey(hmac, shared, local, remote)
  {
    hide SessionIdAt, TxKey, RxKey;
    var ok := subsystem.Init();
    NextSessionId(0);
    ids := [];
    for k := 0 to n
      invariant subsystem.initialised && subsystem.nextSessionId == SessionIdAt(k) && |ids| == k
      invariant forall i :: 0 <= i < k ==> ids[i] == SessionIdAt(i)
      invariant k > 0 ==> session.active && session.rxNonceCounter == 0 && session.rxKey == RxKey(hmac, shared, local, remote)
    {
      ok := subsystem.CreateSession(hmac, session, local, remote, shared);
      ids := ids + [session.sessionId];
      NextSessionId(k);
    }
  }

  /** So at-most-once delivery ends with the session: a frame taken before is taken again by the next one. */
  method TakenAgain(hmac: Hmac, cipher: KeyedCipher, a: byte, b: byte, shared: Key, p: seq<byte>)
    returns (first: seq<byte>, second: seq<byte>)
    requires a != b && |p| <= MAX_PAYLOAD
    ensures first == p == second
  {
    hide Seal, Open, TxKey, RxKey, Nonce, CounterAt, Ccm.Tag, Ccm.CtrCrypt;
    var subsystemA := new Subsystem();
    var subsystemB := new Subsystem();
    var alice := new Session();
    var bob := new Session();
    var ok := subsystemA.Init();
    ok := subsystemB.Init();
    ok := subsystemA.CreateSession(hmac, alice, a, b, shared);
    AnySessionTakes(hmac, cipher, shared, a, b, alice.sessionId, 0, p, 0);
    var sent, frame := alice.Encrypt(cipher, p);
    first := CreateAndTake(hmac, cipher, subsystemB, bob, b, a, shared, frame);
    second := CreateAndTake(hmac, cipher, subsystemB, bob, b, a, shared, frame);
  }

  /** A frame given to a new session. */
  method CreateAndTake(hmac: Hmac, cipher: KeyedCipher, subsystem: Subsystem, session: Session, local: byte, remote: byte, shared: Key, frame: Frame)
    returns (plain: seq<byte>)
    requires subsystem.initialised && Open(cipher(RxKey(hmac, shared, local, remote)), true, 0, frame).result == Ok
    modifies subsystem`nextSessionId, session
    ensures plain == Open(cipher(RxKey(hmac, shared, local, remote)), true, 0, frame).plain
  {
    hide Open, TxKey, RxKey, Nonce, CounterAt, Ccm.Tag, Ccm.CtrCrypt;
    var ok := subsystem.CreateSession(hmac, session, local, remote, shared);
    var out := new byte[MAX_PAYLOAD];
    var result, len := session.Decrypt(cipher, frame, out);
    plain := out[..len];
  }

  method SendAll(cipher: KeyedCipher, s: Session, ps: seq<seq<byte>>) returns (frames: seq<Frame>)
    requires s.active && s.txNonceCounter == 0
    requires |ps| < U32_MODULUS && forall i :: 0 <= i < |ps| ==> |ps[i]| <= MAX_PAYLOAD
    modifies s`txNonceCounter
    ensures |frames| == |ps|
    ensures forall i :: 0 <= i < |ps| ==> frames[i] == Seal(cipher(s.txKey), s.sessionId, i, ps[i])
  {
    hide Seal, Nonce, Ccm.Tag, Ccm.CtrCrypt;
    frames := [];
    for i := 0 to |ps|
      invariant |frames| == i == s.txNonceCounter
      invariant forall k :: 0 <= k < i ==> frames[k] == Seal(cipher(s.txKey), s.sessionId, k, ps[k])
    {
      var ok, f := s.Encrypt(cipher, ps[i]);
      frames := frames + [f];
    }
  }

  method ReceiveAll(cipher: KeyedCipher, s: Session, ghost id: byte, ghost ps: seq<seq<byte>>, frames: seq<Frame>, schedule: seq<nat>)
    returns (got: seq<seq<byte>>)
    requires s.active && s.rxNonceCounter == 0
    requires |frames| == |ps| < U32_MODULUS && Within(schedule, |ps|)
    requires forall i :: 0 <= i < |ps| ==> frames[i] == Seal(cipher(s.rxKey), id, i, ps[i])
    modifies s`rxNonceCounter
    ensures (s.rxNonceCounter, got) == Receive(cipher(s.rxKey), 0, Arrivals(cipher(s.rxKey), id, ps, schedule))
  {
    hide Seal, Open, Receive, Arrivals, Nonce, Ccm.Tag, Ccm.CtrCrypt;
    got := [];
    var out := new byte[MAX_PAYLOAD];
    ghost var E := cipher(s.rxKey);
    NothingSent(E, id, ps);
    assert schedule[..0] == [];
    for k := 0 to |schedule|
      invariant (s.rxNonceCounter, got) == Receive(E, 0, Arrivals(E, id, ps, schedule[..k]))
    {
      assert schedule[..k + 1][..k] == schedule[..k];
      NextArrival(E, id, ps, schedule[..k + 1]);
      ReceiveNext(E, 0, Arrivals(E, id, ps, schedule[..k]), frames[schedule[k]]);
      var result, outLen := s.Decrypt(cipher, frames[schedule[k]], out);
      if result == Ok {
        got := got + [out[..outLen]];
      }
    }
    assert schedule[..|schedule|] == schedule;
  }

  lemma PayloadFits(n: nat)
    requires n <= MAX_PAYLOAD
    ensures Ccm.Accepts(13, 0, n, MIC_SIZE)
  {
    assert Pow256(1) == 256 && Pow256(2) == 0x1_0000;
  }

  /** mbedtls_ccm_auth_decrypt on a frame's ciphertext and MIC. */
  method VerifyMic(E: BlockFn, nonce: seq<byte>, ciphertext: seq<byte>, mic: Mic, out: array<byte>) returns (ret: int)
    requires |nonce| == 13 && |ciphertext| <= MAX_PAYLOAD <= out.Length
    modifies out
    ensures var p := Ccm.CtrCrypt(E, nonce, 1, ciphertext);
            if mic == Ccm.Tag(E, nonce, [], p, MIC_SIZE) then ret == 0 && out[..] == p + old(out[|ciphertext|..])
            else ret != 0 && out[..] == Zeros(|ciphertext|) + old(out[|ciphertext|..])
  {
    hide Ccm.Tag, Ccm.CtrCrypt, Pow256;
    PayloadFits(|ciphertext|);
    ret := Ccm.AuthDecrypt(E, false, nonce, [], ciphertext, out, mic);
  }
}
