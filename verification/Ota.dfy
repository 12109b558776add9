/** Firmware update: a chunked transfer onto the inactive one of two flash slots, then confirm or roll back. */
module Ota {
  import opened Bytes
  import opened Words

  const SLOT_SIZE := 256 * 1024
  const MAX_CHUNK := 256
  const MAX_IMAGE := 128 * 1024
  const NO_VERSION := 0

  // ---------------------------------------------------------------- device identity

  datatype Device = Device(uuid: seq<byte>, domain: U8, hwVariant: U8, fwVersion: U32)

  datatype Manifest = Manifest(domain: U8, hwVariant: U8, fwVersion: U32, imageSize: U32, imageHmac: seq<byte>)

  datatype IdentityResult = IdentityOk | AlreadyProvisioned | NotProvisioned

  datatype Compat = Compatible | DomainMismatch | VariantMismatch | VersionDowngrade

  /** ota_compatibility_check */
  function Compatibility(d: Device, m: Manifest): (c: Compat)
    ensures c == Compatible <==> d.domain == m.domain && d.hwVariant == m.hwVariant && d.fwVersion < m.fwVersion
    ensures c == DomainMismatch <==> d.domain != m.domain
    ensures c == VariantMismatch <==> d.domain == m.domain && d.hwVariant != m.hwVariant
  {
    if d.domain != m.domain then DomainMismatch
    else if d.hwVariant != m.hwVariant then VariantMismatch
    else if m.fwVersion <= d.fwVersion then VersionDowngrade
    else Compatible
  }

  datatype Saved = Saved(device: Device, provisioned: bool, pending: U32)

  /** Non-volatile storage of the identity. */
  class IdentityStorage {
    var saved: Option<Saved>

    constructor ()
      ensures saved == None
    {
      saved := None;
    }
  }

  const NO_DEVICE := Device([], 0, 0, 0)

  class Identity {
    const storage: IdentityStorage?
    var device: Device
    var provisioned: bool
    var initialised: bool
    var pending: U32

    /** Storage, when there is any, mirrors memory. */
    ghost predicate Valid()
      reads this, storage
    {
      initialised && provisioned && storage != null ==> storage.saved == Some(Saved(device, provisioned, pending))
    }

    constructor (storage: IdentityStorage?)
      ensures Valid() && this.storage == storage && !initialised && !provisioned
    {
      this.storage, device, provisioned, initialised, pending := storage, NO_DEVICE, false, false, NO_VERSION;
    }

    method Persist()
      modifies storage
      ensures storage != null ==> storage.saved == Some(Saved(device, provisioned, pending))
    {
      if storage != null {
        storage.saved := Some(Saved(device, provisioned, pending));
      }
    }

    /** device_identity_init, at every boot: what is stored comes back, but a pending version does not. */
    method Init()
      modifies this, storage
      ensures Valid() && initialised && pending == NO_VERSION
      ensures storage != null && old(storage.saved).Some? ==>
        && device == old(storage.saved).value.device && provisioned == old(storage.saved).value.provisioned
        && storage.saved == Some(old(storage.saved).value.(pending := NO_VERSION))
      ensures storage == null || old(storage.saved) == None ==> !provisioned && device == NO_DEVICE
    {
      device, provisioned, pending := NO_DEVICE, false, NO_VERSION;
      if storage != null && storage.saved.Some? {
        var s := storage.saved.value;
        device, provisioned := s.device, s.provisioned;
        if s.pending != NO_VERSION {
          pending := NO_VERSION;
          Persist();
        }
      }
      initialised := true;
    }

    /** device_identity_set: once only. */
    method Set(d: Device) returns (r: IdentityResult)
      requires Valid()
      modifies this`device, this`provisioned, storage
      ensures Valid()
      ensures r == if !initialised then NotProvisioned else if old(provisioned) then AlreadyProvisioned else IdentityOk
      ensures r == IdentityOk ==> provisioned && device == d
      ensures r != IdentityOk ==> device == old(device) && provisioned == old(provisioned)
    {
      if !initialised {
        return NotProvisioned;
      }
      if provisioned {
        return AlreadyProvisioned;
      }
      device, provisioned := d, true;
      Persist();
      return IdentityOk;
    }

    /** device_identity_set_pending_version */
    method SetPending(v: U32) returns (r: IdentityResult)
      requires Valid()
      modifies this`pending, storage
      ensures Valid() && r == if initialised && provisioned then IdentityOk else NotProvisioned
      ensures pending == if r == IdentityOk then v else old(pending)
    {
      if !initialised || !provisioned {
        return NotProvisioned;
      }
      pending := v;
      Persist();
      return IdentityOk;
    }

    /** device_identity_confirm_boot: the pending version becomes the version. */
    method ConfirmBoot() returns (r: IdentityResult)
      requires Valid()
      modifies this`device, this`pending, storage
      ensures Valid() && r == if initialised && provisioned then IdentityOk else NotProvisioned
      ensures r == IdentityOk && old(pending) != NO_VERSION ==>
        device == old(device).(fwVersion := old(pending)) && pending == NO_VERSION
      ensures r != IdentityOk || old(pending) == NO_VERSION ==> device == old(device) && pending == old(pending)
    {
      if !initialised || !provisioned {
        return NotProvisioned;
      }
      if pending == NO_VERSION {
        return IdentityOk;
      }
      device := device.(fwVersion := pending);
      pending := NO_VERSION;
      Persist();
      return IdentityOk;
    }
  }

  // ---------------------------------------------------------------- flash slots

  datatype Slot = SlotA | SlotB

  datatype SlotState = Unknown | Erased | Writing | Complete | Bootable

  function Other(s: Slot): Slot {
    if s == SlotA then SlotB else SlotA
  }

  /** The sum as 32-bit arithmetic has it. */
  function Sum32(a: U32, b: U32): U32 {
    (a + b) % U32_MODULUS
  }

  /** The contents of a slot after a write, of which only what lies within the slot is told. */
  function InSlot(s: seq<byte>, offset: nat, data: seq<byte>): (r: seq<byte>)
    ensures |r| == |s|
  {
    if offset >= |s| then s else Splice(s, offset, data[..Min(|data|, |s| - offset)])
  }

  /** Without wrap-around a write that is let through lies within the slot; with it, the write runs past the end. */
  lemma WriteInside(s: seq<byte>, offset: U32, data: seq<byte>)
    requires |data| < U32_MODULUS && |s| == SLOT_SIZE && Sum32(offset, |data|) <= SLOT_SIZE
    ensures offset + |data| <= SLOT_SIZE <==> offset + |data| < U32_MODULUS
    ensures offset + |data| <= SLOT_SIZE ==> InSlot(s, offset, data) == Splice(s, offset, data)
  {
    hide Splice;
    if offset + |data| <= SLOT_SIZE && offset < SLOT_SIZE {
      assert data[..Min(|data|, SLOT_SIZE - offset)] == data;
    } else if offset == SLOT_SIZE && data == [] {
      SpliceNothing(s, offset);
    }
  }

  class Flash {
    const dataA: array<byte>
    const dataB: array<byte>
    var stateA: SlotState
    var stateB: SlotState
    /** Where the last write to each slot ended. */
    var endA: U32
    var endB: U32
    var boot: Slot
    var originalBoot: Slot
    var target: Slot
    var inProgress: bool
    var initialised: bool

    predicate Valid() {
      dataA.Length == SLOT_SIZE == dataB.Length && dataA != dataB
    }

    /** An update is under way on the slot that does not boot. */
    predicate Updating()
      reads this
    {
      initialised && inProgress && target == Other(boot) && originalBoot == boot && State(target) == Writing
    }

    function Data(s: Slot): array<byte> {
      if s == SlotA then dataA else dataB
    }

    function State(s: Slot): SlotState
      reads this
    {
      if s == SlotA then stateA else stateB
    }

    function WriteEnd(s: Slot): U32
      reads this
    {
      if s == SlotA then endA else endB
    }

    /** The bytes of a slot from lo to hi are erased. */
    ghost predicate Blank(s: Slot, lo: nat, hi: nat)
      reads Data(s)
    {
      hi <= Data(s).Length && forall i :: lo <= i < hi ==> Data(s)[i] == 0xFF
    }

    method SetState(s: Slot, st: SlotState)
      modifies this`stateA, this`stateB
      ensures State(s) == st && State(Other(s)) == old(State(Other(s)))
    {
      if s == SlotA {
        stateA := st;
      } else {
        stateB := st;
      }
    }

    method SetEnd(s: Slot, end: U32)
      modifies this`endA, this`endB
      ensures WriteEnd(s) == end && WriteEnd(Other(s)) == old(WriteEnd(Other(s)))
    {
      if s == SlotA {
        endA := end;
      } else {
        endB := end;
      }
    }

    constructor ()
      ensures Valid() && !initialised && !inProgress && boot == SlotA && fresh(dataA) && fresh(dataB)
    {
      dataA, dataB := new byte[SLOT_SIZE], new byte[SLOT_SIZE];
      stateA, stateB, boot, originalBoot, target := Unknown, Unknown, SlotA, SlotA, SlotB;
      endA, endB := 0, 0;
      inProgress, initialised := false, false;
    }

    /** flash_partition_ota_begin: erases the inactive slot; refused while an update is in progress. */
    method Begin(size: U32) returns (ok: bool)
      requires Valid()
      modifies this`target, this`originalBoot, this`inProgress, this`stateA, this`stateB, this`endA, this`endB, Data(Other(boot))
      ensures ok == (initialised && !old(inProgress) && size <= SLOT_SIZE)
      ensures ok ==> inProgress && target == Other(boot) && State(target) == Writing
      ensures ok ==> forall i :: 0 <= i < size ==> Data(target)[i] == 0xFF
      ensures ok ==> Updating() && Blank(target, 0, size) && Data(target)[size..] == old(Data(Other(boot))[size..])
      ensures !ok ==> inProgress == old(inProgress) && stateA == old(stateA) && stateB == old(stateB) && unchanged(Data(Other(boot)))
      ensures target == (if initialised && !old(inProgress) then Other(boot) else old(target))
      ensures originalBoot == (if initialised && !old(inProgress) then boot else old(originalBoot))
      ensures State(boot) == old(State(boot)) && WriteEnd(boot) == old(WriteEnd(boot))
      ensures WriteEnd(Other(boot)) == if ok then 0 else old(WriteEnd(Other(boot)))
    {
      if !initialised {
        return false;
      }
      if inProgress {
        return false;
      }
      originalBoot := boot;
      target := Other(boot);
      if size > SLOT_SIZE {
        return false;
      }
      Erase(Data(target), size);
      SetEnd(target, 0);
      SetState(target, Writing);
      inProgress := true;
      return true;
    }

    method Erase(a: array<byte>, n: nat)
      requires n <= a.Length
      modifies a
      ensures forall i :: 0 <= i < n ==> a[i] == 0xFF
      ensures a[n..] == old(a[n..])
    {
      for i := 0 to n
        invariant forall k :: 0 <= k < i ==> a[k] == 0xFF
        invariant a[n..] == old(a[n..])
      {
        a[i] := 0xFF;
      }
    }

    /**
     flash_partition_ota_write.  The end of the write is a 32-bit sum; if it wraps around, the test lets
     the write through, and of the bytes only those before the end of the slot land in it.
     */
    method Write(offset: U32, data: seq<byte>) returns (ok: bool)
      requires Valid() && |data| < U32_MODULUS
      modifies this`endA, this`endB, Data(target)
      ensures ok == (initialised && inProgress && Sum32(offset, |data|) <= SLOT_SIZE && State(target) == Writing)
      ensures !ok ==> unchanged(Data(target)) && endA == old(endA) && endB == old(endB)
      ensures ok ==> Data(target)[..] == InSlot(old(Data(target)[..]), offset, data)
      ensures ok ==> WriteEnd(target) == Sum32(offset, |data|) && WriteEnd(Other(target)) == old(WriteEnd(Other(target)))
    {
      if !initialised || !inProgress {
        return false;
      }
      if Sum32(offset, |data|) > SLOT_SIZE {
        return false;
      }
      if State(target) != Writing {
        return false;
      }
      if offset < SLOT_SIZE {
        CopyInto(Data(target), offset, data[..Min(|data|, SLOT_SIZE - offset)]);
      }
      SetEnd(target, Sum32(offset, |data|));
      return true;
    }

    /** flash_partition_ota_end: the update is over whether or not the backend agrees. */
    method End() returns (ok: bool)
      modifies this`inProgress, this`stateA, this`stateB
      ensures ok == (initialised && old(inProgress) && old(State(target)) == Writing)
      ensures initialised ==> !inProgress
      ensures !initialised ==> inProgress == old(inProgress)
      ensures State(target) == (if ok then Complete else old(State(target))) && State(Other(target)) == old(State(Other(target)))
    {
      if !initialised || !inProgress {
        return false;
      }
      ok := State(target) == Writing;
      if ok {
        SetState(target, Complete);
      }
      inProgress := false;
    }

    /** flash_partition_set_boot */
    method SetBoot() returns (ok: bool)
      modifies this`boot, this`stateA, this`stateB
      ensures ok == initialised && boot == (if ok then target else old(boot))
      ensures State(target) == (if ok then Bootable else old(State(target))) && State(Other(target)) == old(State(Other(target)))
    {
      if !initialised {
        return false;
      }
      SetState(target, Bootable);
      boot := target;
      return true;
    }

    /** flash_partition_rollback: back to the slot that was booting when the last update began. */
    method Rollback() returns (ok: bool)
      modifies this`boot, this`stateA, this`stateB
      ensures ok == initialised && boot == (if ok then originalBoot else old(boot))
      ensures State(originalBoot) == (if ok then Bootable else old(State(originalBoot)))
      ensures State(Other(originalBoot)) == old(State(Other(originalBoot)))
    {
      if !initialised {
        return false;
      }
      SetState(originalBoot, Bootable);
      boot := originalBoot;
      return true;
    }

    /** flash_partition_init */
    method Init()
      requires Valid()
      modifies this, dataA, dataB
      ensures Valid() && initialised && !inProgress && stateA == Erased == stateB
      ensures boot == SlotA == originalBoot && target == SlotB && endA == 0 == endB
      ensures Blank(SlotA, 0, SLOT_SIZE) && Blank(SlotB, 0, SLOT_SIZE)
    {
      Erase(dataA, SLOT_SIZE);
      Erase(dataB, SLOT_SIZE);
      stateA, stateB, boot, originalBoot, target := Erased, Erased, SlotA, SlotA, SlotB;
      endA, endB := 0, 0;
      inProgress, initialised := false, true;
    }
  }

  // ---------------------------------------------------------------- the transfer session

  datatype State = Idle | ManifestSeen | Transfer | Verify | Done | Error

  datatype SessionResult = SessionOk | ErrCompat | ErrSequence | ErrSize | ErrFlash | ErrState

  datatype Chunk = Chunk(sequence: U32, offset: U32, data: seq<byte>)

  datatype Stats = Stats(received: nat, accepted: nat, rejected: nat, bytes: nat, retries: nat)

  const NO_MANIFEST := Manifest(0, 0, 0, 0, [])

  /** Why a chunk is turned away, in the order of the tests; none when it is taken. */
  function Refusal(next: U32, bytes: nat, c: Chunk): Option<SessionResult> {
    if c.sequence != next then Some(ErrSequence)
    else if c.data == [] || |c.data| > MAX_CHUNK then Some(ErrSize)
    else if c.offset != bytes then Some(ErrSize)
    else if c.offset + |c.data| > MAX_IMAGE then Some(ErrSize)
    else None
  }

  /** A chunk is taken in its turn, not empty, not too long, at the end of what is there, and within the largest image. */
  lemma RefusalIs(next: U32, bytes: nat, c: Chunk)
    ensures Refusal(next, bytes, c) == None <==>
      c.sequence == next && 0 < |c.data| <= 256 && c.offset == bytes && c.offset + |c.data| <= 128 * 1024
    ensures Refusal(next, bytes, c) == Some(ErrSequence) <==> c.sequence != next
    ensures Refusal(next, bytes, c) in {None, Some(ErrSequence), Some(ErrSize)}
  {
  }

  class Session {
    const flash: Flash
    const identity: Identity
    var initialised: bool
    var state: State
    var manifest: Manifest
    var imageSize: U32
    var nextSequence: U32
    var bytesReceived: nat
    var stats: Stats
    /** The chunks taken, in order. */
    ghost var chunks: seq<seq<byte>>

    constructor (flash: Flash, identity: Identity)
      ensures this.flash == flash && this.identity == identity && state == Idle && initialised
    {
      this.flash, this.identity, initialised, state := flash, identity, true, Idle;
      manifest, imageSize, nextSequence, bytesReceived := NO_MANIFEST, 0, 0, 0;
      stats, chunks := Stats(0, 0, 0, 0, 0), [];
    }

    /** The slot being filled starts with the chunks taken so far; the rest of the image's place is blank. */
    ghost predicate InTransfer()
      reads this, flash, flash.dataA, flash.dataB, identity, identity.storage
    {
      && flash.Valid() && flash.Updating() && identity.Valid() && identity.initialised && identity.provisioned
      && bytesReceived == |Concat(chunks)| < imageSize <= MAX_IMAGE
      && flash.Data(flash.target)[..bytesReceived] == Concat(chunks)
      && flash.Blank(flash.target, bytesReceived, imageSize)
      && nextSequence == |chunks| <= bytesReceived
    }

    ghost predicate Valid()
      reads this, flash, flash.dataA, flash.dataB, identity, identity.storage
    {
      && flash.Valid() && identity.Valid()
      && (state == Transfer ==> InTransfer())
      && stats.received == stats.accepted + stats.rejected
    }

    /** ota_session_begin */
    method Begin(m: Manifest) returns (r: SessionResult)
      requires Valid()
      modifies this, flash, flash.dataA, flash.dataB
      ensures Valid() && initialised == old(initialised)
      ensures !initialised ==> r == ErrState && unchanged(this) && unchanged(flash)
      ensures initialised ==>
        r == if !(identity.initialised && identity.provisioned && Compatibility(identity.device, m) == Compatible) then ErrCompat
             else if !(0 < m.imageSize <= MAX_IMAGE) then ErrSize
             else if !old(flash.initialised) || old(flash.inProgress) then ErrFlash
             else SessionOk
      ensures flash.initialised == old(flash.initialised)
      ensures r == SessionOk ==> state == Transfer && manifest == m && imageSize == m.imageSize && chunks == []
      ensures r == SessionOk ==> flash.target == Other(flash.boot) && flash.Data(flash.target)[imageSize..] == old(flash.Data(Other(flash.boot))[m.imageSize..])
      ensures r != SessionOk && initialised ==> state == Error && flash.inProgress == old(flash.inProgress)
      ensures flash.boot == old(flash.boot) && flash.Data(flash.boot)[..] == old(flash.Data(flash.boot)[..])
      ensures r != SessionOk ==> flash.Data(Other(flash.boot))[..] == old(flash.Data(Other(flash.boot))[..])
      ensures initialised ==> stats == Stats(0, 0, 0, 0, 0)
    {
      hide Concat, Compatibility;
      if !initialised {
        return ErrState;
      }
      ConcatNone();
      Clear();
      r := Admit(m);
      if r != SessionOk {
        state := Error;
        return r;
      }
      var ok := StartFlash();
      if !ok {
        state := Error;
        return ErrFlash;
      }
      state := Transfer;
      return SessionOk;
    }

    /** The session context is zeroed. */
    method Clear()
      modifies this
      ensures state == ManifestSeen && nextSequence == 0 == bytesReceived && initialised == old(initialised)
      ensures stats == Stats(0, 0, 0, 0, 0) && chunks == []
    {
      state, manifest, imageSize, nextSequence, bytesReceived := ManifestSeen, NO_MANIFEST, 0, 0, 0;
      stats, chunks := Stats(0, 0, 0, 0, 0), [];
    }

    /** The device must be provisioned and the manifest fit it; then its image size must be in range. */
    method Admit(m: Manifest) returns (r: SessionResult)
      modifies this`manifest, this`imageSize
      ensures r == if !(identity.initialised && identity.provisioned && Compatibility(identity.device, m) == Compatible) then ErrCompat
                   else if 0 < m.imageSize <= MAX_IMAGE then SessionOk else ErrSize
      ensures r == SessionOk ==> manifest == m && imageSize == m.imageSize
    {
      if !identity.initialised || !identity.provisioned {
        return ErrCompat;
      }
      if Compatibility(identity.device, m) != Compatible {
        return ErrCompat;
      }
      manifest, imageSize := m, m.imageSize;
      if imageSize == 0 || imageSize > MAX_IMAGE {
        return ErrSize;
      }
      return SessionOk;
    }

    /** Erases the inactive slot for the image announced. */
    method StartFlash() returns (ok: bool)
      requires flash.Valid() && 0 < imageSize <= MAX_IMAGE
      modifies flash, flash.dataA, flash.dataB
      ensures ok == (flash.initialised && !old(flash.inProgress)) && flash.initialised == old(flash.initialised)
      ensures ok ==> flash.Updating() && flash.Blank(flash.target, 0, imageSize)
      ensures ok ==> flash.Data(flash.target)[imageSize..] == old(flash.Data(Other(flash.boot))[imageSize..])
      ensures !ok ==> flash.inProgress == old(flash.inProgress) && flash.Data(Other(flash.boot))[..] == old(flash.Data(Other(flash.boot))[..])
      ensures flash.boot == old(flash.boot) && flash.Data(flash.boot)[..] == old(flash.Data(flash.boot)[..])
    {
      ok := flash.Begin(imageSize);
    }

    /**
     ota_session_process_chunk.  A refused chunk changes nothing but the counts; a chunk taken goes to
     the end of what is there; the one that completes the image makes the slot boot next and its
     version pending.
     */
    method ProcessChunk(c: Chunk) returns (r: SessionResult)
      requires Valid()
      modifies this, flash, flash.dataA, flash.dataB, identity`pending, identity.storage
      ensures Valid() && initialised == old(initialised) && manifest == old(manifest) && imageSize == old(imageSize)
      ensures old(state) != Transfer ==>
        && r == ErrState && state == old(state) && stats == old(stats) && chunks == old(chunks)
        && bytesReceived == old(bytesReceived) && nextSequence == old(nextSequence)
        && unchanged(flash) && unchanged(flash.dataA) && unchanged(flash.dataB) && identity.pending == old(identity.pending)
      ensures old(state) == Transfer ==>
        (r == SessionOk <==> c.sequence == old(nextSequence) && 0 < |c.data| <= 256
                             && c.offset == old(bytesReceived) && c.offset + |c.data| <= 128 * 1024)
      ensures old(state) == Transfer ==> (r == ErrSequence <==> c.sequence != old(nextSequence))
      ensures flash.Data(old(flash.boot))[..] == old(flash.Data(flash.boot)[..])
      ensures identity.device == old(identity.device)
      ensures old(state) == Transfer && Refusal(old(nextSequence), old(bytesReceived), c) != None ==>
        && r == Refusal(old(nextSequence), old(bytesReceived), c).value
        && state == Transfer && chunks == old(chunks) && unchanged(flash)
        && bytesReceived == old(bytesReceived) && nextSequence == old(nextSequence)
        && flash.Data(flash.target)[..] == old(flash.Data(flash.target)[..])
        && identity.pending == old(identity.pending)
        && stats == Stats(old(stats).received + 1, old(stats).accepted, old(stats).rejected + 1, old(stats).bytes,
                          old(stats).retries + if r == ErrSequence then 1 else 0)
      ensures old(state) == Transfer && Refusal(old(nextSequence), old(bytesReceived), c) == None ==>
        && r == SessionOk && chunks == old(chunks) + [c.data] && bytesReceived == old(bytesReceived) + |c.data|
        && bytesReceived > old(bytesReceived)
        && stats == Stats(old(stats).received + 1, old(stats).accepted + 1, old(stats).rejected, old(stats).bytes + |c.data|, old(stats).retries)
        && bytesReceived <= MAX_IMAGE
        && flash.Data(old(flash.target))[..bytesReceived] == Concat(chunks)
        && flash.Data(old(flash.target))[bytesReceived..] == old(flash.Data(flash.target)[bytesReceived + |c.data|..])
        && (state == if bytesReceived >= imageSize then Done else Transfer)
      ensures old(state) == Transfer && state == Done ==>
        && flash.boot == old(flash.target) == Other(old(flash.boot)) && flash.originalBoot == old(flash.boot) && !flash.inProgress
        && flash.State(flash.boot) == Bootable && identity.pending == manifest.fwVersion
      ensures old(state) == Transfer && state == Done ==> (bytesReceived == imageSize <==> |c.data| == imageSize - old(bytesReceived))
      ensures state == Transfer ==> flash.boot == old(flash.boot) && flash.target == old(flash.target) && identity.pending == old(identity.pending)
    {
      hide Concat, Splice, Compatibility, Sum32, InSlot;
      if state != Transfer {
        return ErrState;
      }
      stats := stats.(received := stats.received + 1);
      if c.sequence != nextSequence {
        stats := stats.(rejected := stats.rejected + 1, retries := stats.retries + 1);
        return ErrSequence;
      }
      if c.data == [] || |c.data| > MAX_CHUNK {
        stats := stats.(rejected := stats.rejected + 1);
        return ErrSize;
      }
      if c.offset != bytesReceived {
        stats := stats.(rejected := stats.rejected + 1);
        return ErrSize;
      }
      if c.offset + |c.data| > MAX_IMAGE {
        stats := stats.(rejected := stats.rejected + 1);
        return ErrSize;
      }
      r := TakeChunk(c);
    }

    /** Writes a chunk that passed the tests, and finishes the update if it was the last. */
    method TakeChunk(c: Chunk) returns (r: SessionResult)
      requires state == Transfer && InTransfer() && Refusal(nextSequence, bytesReceived, c) == None
      requires stats.received == stats.accepted + stats.rejected + 1
      modifies this, flash, flash.dataA, flash.dataB, identity`pending, identity.storage
      ensures Valid() && initialised == old(initialised) && manifest == old(manifest) && imageSize == old(imageSize)
      ensures flash.Data(old(flash.boot))[..] == old(flash.Data(flash.boot)[..])
      ensures identity.device == old(identity.device)
      ensures r == SessionOk && chunks == old(chunks) + [c.data] && bytesReceived == old(bytesReceived) + |c.data|
      ensures stats == old(stats).(accepted := old(stats).accepted + 1, bytes := old(stats).bytes + |c.data|)
      ensures bytesReceived <= MAX_IMAGE && flash.Data(old(flash.target))[..bytesReceived] == Concat(chunks)
      ensures flash.Data(old(flash.target))[bytesReceived..] == old(flash.Data(flash.target)[bytesReceived + |c.data|..])
      ensures state == if bytesReceived >= imageSize then Done else Transfer
      ensures state == Done ==>
        && flash.boot == old(flash.target) == Other(old(flash.boot)) && flash.originalBoot == old(flash.boot) && !flash.inProgress
        && flash.State(flash.boot) == Bootable && identity.pending == manifest.fwVersion
      ensures state == Transfer ==> flash.boot == old(flash.boot) && flash.target == old(flash.target) && identity.pending == old(identity.pending)
    {
      hide Concat;
      StoreChunk(c);
      if bytesReceived >= imageSize {
        state := Verify;
        FinishUpdate();
      }
      return SessionOk;
    }

    /** Writes the chunk after what is there. */
    method StoreChunk(c: Chunk)
      requires InTransfer() && Refusal(nextSequence, bytesReceived, c) == None
      modifies this`nextSequence, this`bytesReceived, this`chunks, this`stats, flash`endA, flash`endB, flash.Data(flash.target)
      ensures chunks == old(chunks) + [c.data] && bytesReceived == old(bytesReceived) + |c.data| == |Concat(chunks)| <= MAX_IMAGE
      ensures stats == old(stats).(accepted := old(stats).accepted + 1, bytes := old(stats).bytes + |c.data|)
      ensures flash.Data(flash.target)[..bytesReceived] == Concat(chunks)
      ensures flash.Data(flash.target)[bytesReceived..] == old(flash.Data(flash.target)[bytesReceived + |c.data|..])
      ensures flash.Blank(flash.target, bytesReceived, imageSize)
      ensures nextSequence == |chunks| <= bytesReceived
    {
      hide Concat, Splice;
      ghost var was := flash.Data(flash.target)[..];
      WriteInside(was, c.offset, c.data);
      var ok := flash.Write(c.offset, c.data);
      SpliceParts(was, bytesReceived, c.data, flash.Data(flash.target)[..]);
      ConcatNext(chunks, c.data);
      nextSequence := nextSequence + 1;
      bytesReceived := bytesReceived + |c.data|;
      chunks := chunks + [c.data];
      stats := stats.(accepted := stats.accepted + 1, bytes := stats.bytes + |c.data|);
      assert flash.Data(flash.target)[..bytesReceived] == flash.Data(flash.target)[..][..bytesReceived];
    }

    /** The last chunk is in: end the write, mark the version pending, boot the slot next. */
    method FinishUpdate()
      requires flash.Valid() && flash.Updating() && identity.Valid() && identity.initialised && identity.provisioned
      modifies this`state, flash`inProgress, flash`stateA, flash`stateB, flash`boot, identity`pending, identity.storage
      ensures state == Done && identity.Valid() && identity.pending == manifest.fwVersion && identity.device == old(identity.device)
      ensures flash.boot == old(flash.target) && !flash.inProgress && flash.State(flash.boot) == Bootable
    {
      var ok := flash.End();
      if !ok {
        state := Error;
        return;
      }
      state := Done;
      var marked := identity.SetPending(manifest.fwVersion);
      ok := flash.SetBoot();
    }

    /** ota_session_abort */
    method Abort()
      requires Valid()
      modifies this`state
      ensures Valid() && state == Error && flash.inProgress == old(flash.inProgress)
    {
      state := Error;
    }
  }

  lemma ConcatNone()
    ensures Concat([]) == []
  {
  }

  lemma ConcatNext(cs: seq<seq<byte>>, c: seq<byte>)
    ensures Concat(cs + [c]) == Concat(cs) + c
  {
    assert (cs + [c])[..|cs|] == cs;
  }

  // ---------------------------------------------------------------- whole transfers

  /** Chunks that can be sent for an image of this size: none empty, none too long, the last one needed, and perhaps longer than needed. */
  ghost predicate Cut(cs: seq<seq<byte>>, size: nat) {
    && (forall k :: 0 <= k < |cs| ==> 0 < |cs[k]| <= MAX_CHUNK)
    && cs != [] && |Concat(cs[..|cs| - 1])| < size <= |Concat(cs)| && size <= MAX_IMAGE
  }

  /** How many of them will be taken: the last one is not if it goes beyond the largest image. */
  function Takeable(cs: seq<seq<byte>>): (m: nat)
    ensures m <= |cs|
  {
    if |Concat(cs)| <= MAX_IMAGE || cs == [] then |cs| else |cs| - 1
  }

  lemma {:induction false} PrefixSize(cs: seq<seq<byte>>, k: nat)
    requires k <= |cs| && forall i :: 0 <= i < |cs| ==> 0 < |cs[i]|
    ensures k <= |Concat(cs[..k])| <= |Concat(cs)|
    ensures k < |cs| ==> |Concat(cs[..k])| + |cs[k]| == |Concat(cs[..k + 1])| <= |Concat(cs)|
    decreases |cs| - k
  {
    if k == |cs| {
      assert cs[..k] == cs;
      AtLeastOneEach(cs);
    } else {
      PrefixSize(cs, k + 1);
      assert cs[..k + 1][..k] == cs[..k];
      AtLeastOneEach(cs[..k]);
    }
  }

  lemma {:induction false} AtLeastOneEach(cs: seq<seq<byte>>)
    requires forall i :: 0 <= i < |cs| ==> 0 < |cs[i]|
    ensures |cs| <= |Concat(cs)|
    decreases |cs|
  {
    if cs != [] {
      AtLeastOneEach(cs[..|cs| - 1]);
    }
  }

  /** How many chunks of m have been taken when chunks arrive as scheduled: each in its turn, once. */
  function Taken(schedule: seq<nat>, m: nat): (k: nat)
    ensures k <= m
  {
    if schedule == [] then 0
    else
      var k, i := Taken(schedule[..|schedule| - 1], m), schedule[|schedule| - 1];
      if i == k < m then k + 1 else k
  }

  lemma CutFacts(cs: seq<seq<byte>>, size: nat, k: nat)
    requires Cut(cs, size) && k <= |cs|
    ensures 0 < |cs| <= size <= MAX_IMAGE && |cs| - 1 <= Takeable(cs) <= |cs|
    ensures k < |cs| ==> k <= |Concat(cs[..k])| < size && 0 < |cs[k]| <= MAX_CHUNK && |Concat(cs[..k])| + |cs[k]| == |Concat(cs[..k + 1])|
    ensures k <= Takeable(cs) ==> |Concat(cs[..k])| <= MAX_IMAGE
    ensures Takeable(cs) < |cs| && k == |cs| ==> |Concat(cs[..k])| > MAX_IMAGE
    ensures k == |cs| ==> |Concat(cs[..k])| >= size
  {
    hide Concat;
    var n := |cs| - 1;
    assert cs[..|cs|] == cs;
    AtLeastOneEach(cs[..n]);
    if k < |cs| {
      PrefixSize(cs, k);
      PrefixSize(cs[..n], k);
      assert cs[..n][..k] == cs[..k];
    }
  }

  /** The session's progress, in terms of the chunks of the cut. */
  ghost predicate Progress(s: Session, cs: seq<seq<byte>>, k: nat, slot: Slot, boot: Slot)
    reads s, s.flash, s.flash.dataA, s.flash.dataB, s.identity, s.identity.storage
  {
    && s.Valid() && k <= |cs| && s.chunks == cs[..k] && s.bytesReceived == |Concat(cs[..k])|
    && |Concat(cs[..k])| <= MAX_IMAGE && s.flash.Data(slot)[..|Concat(cs[..k])|] == Concat(cs[..k])
    && (k < |cs| ==> s.state == Transfer && s.flash.target == slot && s.flash.boot == boot)
    && (k == |cs| ==> s.state == Done && s.flash.boot == slot && s.identity.pending == s.manifest.fwVersion)
  }

  /** One chunk arrives. */
  method DeliverOne(s: Session, cs: seq<seq<byte>>, i: nat, ghost k: nat, ghost slot: Slot, ghost boot: Slot)
    returns (ghost k': nat)
    requires Progress(s, cs, k, slot, boot) && Cut(cs, s.imageSize) && i < |cs| && slot == Other(boot) && k <= Takeable(cs)
    modifies s, s.flash, s.flash.dataA, s.flash.dataB, s.identity`pending, s.identity.storage
    ensures k' == (if i == k < Takeable(cs) then k + 1 else k) && Progress(s, cs, k', slot, boot)
    ensures s.flash.Data(boot)[..] == old(s.flash.Data(boot)[..])
    ensures s.identity.device == old(s.identity.device) && s.manifest == old(s.manifest) && s.imageSize == old(s.imageSize)
    ensures k' < |cs| ==> s.identity.pending == old(s.identity.pending)
  {
    hide Concat, Cut, Takeable;
    CutFacts(cs, s.imageSize, i);
    CutFacts(cs, s.imageSize, k);
    k' := if i == k < Takeable(cs) then k + 1 else k;
    CutFacts(cs, s.imageSize, k');
    CutFacts(cs, s.imageSize, |cs|);
    var r := s.ProcessChunk(Chunk(i, |Concat(cs[..i])|, cs[i]));
    if i == k < |cs| {
      assert cs[..k] + [cs[k]] == cs[..k + 1];
    }
  }

  /**
   Whatever order the chunks of an image arrive in, with losses and repetitions, the slot holds the
   chunks taken in their order; and if the transfer completes, it holds all of them and boots next.  They
   are the image and nothing more exactly when the last chunk is as long as what was missing.
   */
  method Deliver(s: Session, cs: seq<seq<byte>>, schedule: seq<nat>)
    requires s.Valid() && s.state == Transfer && s.chunks == [] && Cut(cs, s.imageSize)
    requires forall i :: 0 <= i < |schedule| ==> schedule[i] < |cs|
    modifies s, s.flash, s.flash.dataA, s.flash.dataB, s.identity`pending, s.identity.storage
    ensures Progress(s, cs, Taken(schedule, Takeable(cs)), old(s.flash.target), old(s.flash.boot))
    ensures var k := Taken(schedule, Takeable(cs));
            && s.chunks == cs[..k] && s.bytesReceived == |Concat(cs[..k])| <= s.flash.Data(old(s.flash.target)).Length
            && s.flash.Data(old(s.flash.target))[..s.bytesReceived] == Concat(cs[..k])
            && (s.state == Done <==> k == |cs|) && (s.state == Done ==> s.flash.boot == old(s.flash.target))
    ensures Taken(schedule, Takeable(cs)) < |cs| ==> s.identity.pending == old(s.identity.pending)
    ensures s.state == Done ==>
      (s.bytesReceived == s.imageSize <==> |cs[|cs| - 1]| == s.imageSize - |Concat(cs[..|cs| - 1])|)
    ensures s.flash.Data(old(s.flash.boot))[..] == old(s.flash.Data(s.flash.boot)[..])
    ensures s.identity.device == old(s.identity.device) && s.manifest == old(s.manifest) && s.imageSize == old(s.imageSize)
  {
    hide Progress, Cut, Taken, Takeable, Concat;
    ghost var boot, slot, k := s.flash.boot, s.flash.target, 0;
    StartProgress(s, cs);
    assert schedule[..0] == [];
    for n := 0 to |schedule|
      invariant k == Taken(schedule[..n], Takeable(cs)) && Progress(s, cs, k, slot, boot)
      invariant s.imageSize == old(s.imageSize) && s.manifest == old(s.manifest) && s.identity.device == old(s.identity.device)
      invariant k < |cs| ==> s.identity.pending == old(s.identity.pending)
      invariant s.flash.Data(boot)[..] == old(s.flash.Data(s.flash.boot)[..])
    {
      TakenNext(schedule, n, Takeable(cs));
      k := DeliverOne(s, cs, schedule[n], k, slot, boot);
    }
    assert schedule[..|schedule|] == schedule;
    Finished(s, cs, k, slot, boot);
  }

  lemma Finished(s: Session, cs: seq<seq<byte>>, k: nat, slot: Slot, boot: Slot)
    requires Progress(s, cs, k, slot, boot) && Cut(cs, s.imageSize)
    ensures cs != [] && k <= |cs|
    ensures s.chunks == cs[..k] && s.bytesReceived == |Concat(cs[..k])| <= s.flash.Data(slot).Length
    ensures s.flash.Data(slot)[..s.bytesReceived] == Concat(cs[..k])
    ensures (s.state == Done <==> k == |cs|) && (s.state == Done ==> s.flash.boot == slot)
    ensures s.state == Done ==>
      (s.bytesReceived == s.imageSize <==> |cs[|cs| - 1]| == s.imageSize - |Concat(cs[..|cs| - 1])|)
  {
    hide Concat, Cut;
    CutFacts(cs, s.imageSize, 0);
    CutFacts(cs, s.imageSize, |cs| - 1);
  }

  lemma StartProgress(s: Session, cs: seq<seq<byte>>)
    requires s.Valid() && s.state == Transfer && s.chunks == [] && Cut(cs, s.imageSize)
    ensures Progress(s, cs, 0, s.flash.target, s.flash.boot) && s.flash.target == Other(s.flash.boot)
    ensures Taken([], Takeable(cs)) == 0
  {
    CutFacts(cs, s.imageSize, 0);
    ConcatNone();
    assert cs[..0] == [];
  }

  lemma TakenNext(schedule: seq<nat>, n: nat, m: nat)
    requires n < |schedule|
    ensures var k := Taken(schedule[..n], m); Taken(schedule[..n + 1], m) == if schedule[n] == k < m then k + 1 else k
  {
    assert schedule[..n + 1][..n] == schedule[..n];
  }

  /** In order, every chunk that can be taken is taken. */
  lemma {:induction false} InOrderCompletes(n: nat, m: nat)
    ensures Taken(seq(n, i => i), m) == Min(n, m)
  {
    if n > 0 {
      InOrderCompletes(n - 1, m);
      assert seq(n, i => i)[..n - 1] == seq(n - 1, i => i);
    }
  }

  /** The device takes this manifest, and flash is free. */
  ghost predicate Ready(s: Session, m: Manifest)
    reads s, s.flash, s.flash.dataA, s.flash.dataB, s.identity, s.identity.storage
  {
    && s.Valid() && s.initialised && s.identity.initialised && s.identity.provisioned && s.flash.initialised && !s.flash.inProgress
    && Compatibility(s.identity.device, m) == Compatible
  }

  /**
   A whole update, chunks in order: it completes exactly when the last chunk stays within the largest
   image, whatever the HMAC in the manifest, which nothing compares with what was written.
   */
  method Update(s: Session, m: Manifest, cs: seq<seq<byte>>)
    requires Ready(s, m) && Cut(cs, m.imageSize)
    modifies s, s.flash, s.flash.dataA, s.flash.dataB, s.identity`pending, s.identity.storage
    ensures s.state == Done <==> |Concat(cs)| <= MAX_IMAGE
    ensures s.state == Done ==>
      && s.flash.boot == Other(old(s.flash.boot)) && s.identity.pending == m.fwVersion
      && |Concat(cs)| <= SLOT_SIZE == s.flash.Data(s.flash.boot).Length
      && s.flash.Data(s.flash.boot)[..|Concat(cs)|] == Concat(cs)
    ensures s.flash.Data(old(s.flash.boot))[..] == old(s.flash.Data(s.flash.boot)[..])
  {
    hide Concat, Compatibility;
    CutFacts(cs, m.imageSize, |cs|);
    assert cs[..|cs|] == cs;
    var r := s.Begin(m);
    InOrderCompletes(|cs|, Takeable(cs));
    Deliver(s, cs, seq(|cs|, i => i));
  }

  /** The last chunk may go beyond the image, over flash that was not erased: 100 bytes announced, 256 written. */
  method Overshoot(s: Session, m: Manifest, data: seq<byte>) returns (ghost overwritten: seq<byte>)
    requires Ready(s, m) && m.imageSize == 100 && |data| == 256
    modifies s, s.flash, s.flash.dataA, s.flash.dataB, s.identity`pending, s.identity.storage
    ensures s.state == Done && s.bytesReceived == 256 && s.flash.boot == Other(old(s.flash.boot))
    ensures s.flash.Valid() && s.flash.Data(s.flash.boot)[..256] == data
    ensures overwritten == old(s.flash.Data(Other(s.flash.boot))[100..256])
  {
    hide Concat, Compatibility;
    var r := s.Begin(m);
    ConcatNone();
    ConcatNext([], data);
    assert [] + [data] == [data] && [] + data == data;
    overwritten := s.flash.Data(s.flash.target)[100..][..156];
    r := s.ProcessChunk(Chunk(0, 0, data));
  }

  // ---------------------------------------------------------------- after the transfer

  datatype Call = BeginWith(manifest: Manifest) | Arrives(chunk: Chunk) | AbortNow

  /** Calls on a session that is in error while flash waits for the rest of an update; an abort has no result. */
  method AfterAbort(s: Session, calls: seq<Call>) returns (rs: seq<Option<SessionResult>>)
    requires s.Valid() && s.state == Error && s.flash.inProgress
    modifies s, s.flash, s.flash.dataA, s.flash.dataB, s.identity`pending, s.identity.storage
    ensures |rs| == |calls| && forall i :: 0 <= i < |calls| ==> rs[i] != Some(SessionOk)
    ensures s.Valid() && s.state == Error && s.flash.inProgress
    ensures s.flash.boot == old(s.flash.boot) && s.identity.pending == old(s.identity.pending)
    ensures s.flash.dataA[..] == old(s.flash.dataA[..]) && s.flash.dataB[..] == old(s.flash.dataB[..])
  {
    rs := [];
    for i := 0 to |calls|
      invariant |rs| == i && forall k :: 0 <= k < i ==> rs[k] != Some(SessionOk)
      invariant s.Valid() && s.state == Error && s.flash.inProgress
      invariant s.flash.boot == old(s.flash.boot) && s.identity.pending == old(s.identity.pending)
      invariant s.flash.dataA[..] == old(s.flash.dataA[..]) && s.flash.dataB[..] == old(s.flash.dataB[..])
    {
      var r := RefusedCall(s, calls[i]);
      rs := rs + [r];
    }
  }

  method RefusedCall(s: Session, call: Call) returns (r: Option<SessionResult>)
    requires s.Valid() && s.state == Error && s.flash.inProgress
    modifies s, s.flash, s.flash.dataA, s.flash.dataB, s.identity`pending, s.identity.storage
    ensures r != Some(SessionOk) && s.Valid() && s.state == Error && s.flash.inProgress
    ensures s.flash.boot == old(s.flash.boot) && s.identity.pending == old(s.identity.pending)
    ensures s.flash.dataA[..] == old(s.flash.dataA[..]) && s.flash.dataB[..] == old(s.flash.dataB[..])
  {
    hide Concat, Compatibility, Refusal;
    r := None;
    match call {
      case BeginWith(m) =>
        var result := s.Begin(m);
        r := Some(result);
      case Arrives(c) =>
        var result := s.ProcessChunk(c);
        r := Some(result);
      case AbortNow => s.Abort();
    }
  }

  /**
   An aborted transfer is never cleaned up, although the source says the next begin would do it: no call
   on the session takes anything any more, and neither slot changes, however many calls there are.
   */
  method AbortBlocksRestart(s: Session, calls: seq<Call>) returns (rs: seq<Option<SessionResult>>)
    requires s.Valid() && s.state == Transfer
    modifies s, s.flash, s.flash.dataA, s.flash.dataB, s.identity`pending, s.identity.storage
    ensures |rs| == |calls| && forall i :: 0 <= i < |calls| ==> rs[i] != Some(SessionOk)
    ensures s.flash.boot == old(s.flash.boot) && s.identity.pending == old(s.identity.pending)
    ensures s.flash.dataA[..] == old(s.flash.dataA[..]) && s.flash.dataB[..] == old(s.flash.dataB[..])
  {
    s.Abort();
    rs := AfterAbort(s, calls);
  }

  /** Only initialising flash, which erases both slots, lets an update start again. */
  method InitRestarts(s: Session, m: Manifest) returns (r: SessionResult)
    requires s.Valid() && s.initialised && s.state == Error && s.identity.initialised && s.identity.provisioned
    requires Compatibility(s.identity.device, m) == Compatible && 0 < m.imageSize <= MAX_IMAGE
    modifies s, s.flash, s.flash.dataA, s.flash.dataB
    ensures r == SessionOk && s.Valid() && s.state == Transfer
  {
    s.flash.Init();
    r := s.Begin(m);
  }

  /** ota_session_boot_self_check, given the outcome of the modules' own checks. */
  method BootSelfCheck(flash: Flash, identity: Identity, checksPass: bool) returns (ok: bool)
    requires identity.Valid()
    modifies identity`device, identity`pending, identity.storage, flash`boot, flash`stateA, flash`stateB
    ensures identity.Valid()
    ensures var waiting := identity.initialised && identity.provisioned && old(identity.pending) != NO_VERSION;
            && ok == (!waiting || checksPass)
            && (waiting && checksPass ==> identity.device == old(identity.device).(fwVersion := old(identity.pending)) && identity.pending == NO_VERSION)
            && (!(waiting && checksPass) ==> identity.device == old(identity.device) && identity.pending == old(identity.pending))
            && flash.boot == (if waiting && !checksPass && flash.initialised then flash.originalBoot else old(flash.boot))
  {
    if !(identity.initialised && identity.provisioned && identity.pending != NO_VERSION) {
      return true;
    }
    if checksPass {
      var r := identity.ConfirmBoot();
      return true;
    } else {
      var rolled := flash.Rollback();
      return false;
    }
  }

  /** attestation_init, rule_engine_init, sensor_validation_init and actuator_failsafe_init: each answers true. */
  method InitModules() returns (attestation: bool, rules: bool, validation: bool, failsafe: bool)
    ensures attestation && rules && validation && failsafe
  {
    attestation, rules, validation, failsafe := true, true, true, true;
  }

  /** With these modules the self check always confirms a pending version and never rolls back. */
  method SelfCheckAlwaysConfirms(flash: Flash, identity: Identity) returns (ok: bool)
    requires identity.Valid()
    modifies identity`device, identity`pending, identity.storage, flash`boot, flash`stateA, flash`stateB
    ensures ok && identity.Valid() && flash.boot == old(flash.boot)
    ensures identity.initialised && identity.provisioned ==> identity.pending == NO_VERSION
    ensures identity.initialised && identity.provisioned && old(identity.pending) != NO_VERSION ==>
      identity.device == old(identity.device).(fwVersion := old(identity.pending))
  {
    var checksPass := true;
    var attestation, rules, validation, failsafe := InitModules();
    if !attestation || !rules || !validation || !failsafe {
      checksPass := false;
    }
    ok := BootSelfCheck(flash, identity, checksPass);
  }

  /**
   A reboot between marking a version pending and confirming it forgets the version: initialisation
   discards it, the self check then finds nothing to confirm, and the confirmed version stays.
   */
  method RebootForgets(flash: Flash, identity: Identity, v: U32, checksPass: bool) returns (ok: bool)
    requires identity.Valid() && identity.initialised && identity.provisioned && identity.storage != null
    modifies identity, identity.storage, flash`boot, flash`stateA, flash`stateB
    ensures ok && identity.device == old(identity.device) && identity.pending == NO_VERSION && flash.boot == old(flash.boot)
  {
    var r := identity.SetPending(v);
    identity.Init();
    ok := BootSelfCheck(flash, identity, checksPass);
  }
}
