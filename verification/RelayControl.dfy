/** Policy changes from an administrator: `relay_ctrl_handle_packet`, `apply_ctrl`
    and `check_and_record_nonce` in src/relay_control.cpp. */
module RelayControl {
  import opened Common
  import opened LruTable

  const NONCE_TABLE_SIZE := 16
  const PKT_RELAY_CTRL: byte := 0x0C
  const HEADER_SIZE := 12
  const CTRL_SIZE := 34
  const RELAY_MODE_SELECTIVE: byte := 4

  datatype RelayCtrl = RelayCtrl(nonce: uint32, mode: byte, rssiFloor: int, dutyCapPct: byte, typeMask: uint32,
                                 sfQueueMax: uint16, sfTtlSeconds: uint32, maxHopsAdded: byte)

  datatype Policy = Policy(mode: byte, rssiFloor: int, dutyCapPct: byte, typeMask: uint32,
                           sfQueueMax: uint16, sfTtlS: uint32, maxHopsAdd: byte)

  /** What a relay starts with: flooding, no filters, no caps. */
  const BOOT_POLICY := Policy(1, -128, 0, UINT32_MAX, 8, 1800, 1)

  /** SF_QUEUE_HARD_MAX and SF_TTL_HARD_MAX_S. */
  datatype Limits = Limits(queueHardMax: uint16, ttlHardMaxS: uint32)

  function Min(a: int, b: int): int {
    if a < b then a else b
  }

  function Applied(p: Policy, c: RelayCtrl, lim: Limits): Policy {
    Policy(if c.mode <= RELAY_MODE_SELECTIVE then c.mode else p.mode,
           c.rssiFloor, c.dutyCapPct, c.typeMask,
           Min(c.sfQueueMax, lim.queueHardMax), Min(c.sfTtlSeconds, lim.ttlHardMaxS),
           if c.maxHopsAdded > 0 then c.maxHopsAdded else 1)
  }

  /** A policy that does what a control packet with a valid mode asks for: everything
      as requested, queue and time to live up to the hard limits, at least one hop. */
  ghost predicate Enacts(p: Policy, c: RelayCtrl, lim: Limits) {
    p.mode == c.mode && p.rssiFloor == c.rssiFloor && p.dutyCapPct == c.dutyCapPct && p.typeMask == c.typeMask
    && (c.sfQueueMax <= lim.queueHardMax ==> p.sfQueueMax == c.sfQueueMax)
    && (lim.queueHardMax <= c.sfQueueMax ==> p.sfQueueMax == lim.queueHardMax)
    && (c.sfTtlSeconds <= lim.ttlHardMaxS ==> p.sfTtlS == c.sfTtlSeconds)
    && (lim.ttlHardMaxS <= c.sfTtlSeconds ==> p.sfTtlS == lim.ttlHardMaxS)
    && (0 < c.maxHopsAdded ==> p.maxHopsAdd == c.maxHopsAdded) && (c.maxHopsAdded == 0 ==> p.maxHopsAdd == 1)
  }

  /** A valid request is enacted in full; an invalid mode leaves only the mode as it was. */
  lemma AppliedEnacts(p: Policy, c: RelayCtrl, lim: Limits)
    ensures c.mode <= 4 ==> Enacts(Applied(p, c, lim), c, lim)
    ensures 4 < c.mode ==> Enacts(Applied(p, c, lim).(mode := c.mode), c, lim) && Applied(p, c, lim).mode == p.mode
  {
  }

  // ---- Replay protection ----

  /** A source's slot holds the last nonce accepted from it. */
  type NonceSlot = Slot<uint32>

  predicate Accepts(t: seq<NonceSlot>, src: byte, nonce: uint32)
    requires t != []
  {
    var s := t[SlotFor(t, src)];
    !(s.id == src && s.stamp != 0 && nonce <= s.value)
  }

  function Recorded(t: seq<NonceSlot>, src: byte, nonce: uint32, now: uint32): (t': seq<NonceSlot>)
    requires t != []
    ensures |t'| == |t|
  {
    if Accepts(t, src, nonce) then Put(t, Slot(src, now, nonce)) else t
  }

  /** One nonce presented to the table. */
  datatype Attempt = Attempt(src: byte, nonce: uint32, at: uint32)

  function NoncesAfter(n: nat, attempts: seq<Attempt>): (t: seq<NonceSlot>)
    requires 0 < n
    ensures |t| == n
  {
    if attempts == [] then Blank(n, 0)
    else
      var a := attempts[|attempts| - 1];
      Recorded(NoncesAfter(n, attempts[..|attempts| - 1]), a.src, a.nonce, a.at)
  }

  ghost predicate ClockOk(attempts: seq<Attempt>) {
    (forall i :: 0 <= i < |attempts| ==> attempts[i].at != 0)
    && forall i, j :: 0 <= i < j < |attempts| ==> attempts[i].at <= attempts[j].at
  }

  /** The last nonce accepted from each source, with the time it was accepted, for
      however many sources there are. */
  function LastAccepted(n: nat, attempts: seq<Attempt>): Memory<uint32>
    requires 0 < n
  {
    if attempts == [] then map[]
    else
      var f, a := attempts[..|attempts| - 1], attempts[|attempts| - 1];
      if Accepts(NoncesAfter(n, f), a.src, a.nonce) then LastAccepted(n, f)[a.src := Slot(a.src, a.at, a.nonce)]
      else LastAccepted(n, f)
  }

  lemma {:induction false} LastAcceptedIsPast(n: nat, attempts: seq<Attempt>, src: byte) returns (i: nat)
    requires 0 < n && src in LastAccepted(n, attempts)
    ensures i < |attempts| && attempts[i].src == src
    ensures LastAccepted(n, attempts)[src] == Slot(src, attempts[i].at, attempts[i].nonce)
  {
    i := |attempts| - 1;
    if LastAccepted(n, attempts)[src] != Slot(src, attempts[i].at, attempts[i].nonce) || attempts[i].src != src {
      i := LastAcceptedIsPast(n, attempts[..i], src);
    }
  }

  /** Over every run, with any number of sources, the table is a faithful view of
      the last accepted nonces; what it has forgotten is no more recent than what
      it holds. */
  lemma {:induction false} NonceTableTracks(n: nat, attempts: seq<Attempt>)
    requires 0 < n && ClockOk(attempts)
    ensures Tracks(NoncesAfter(n, attempts), LastAccepted(n, attempts))
  {
    if attempts != [] {
      var f, a := attempts[..|attempts| - 1], attempts[|attempts| - 1];
      var m := LastAccepted(n, f);
      NonceTableTracks(n, f);
      if Accepts(NoncesAfter(n, f), a.src, a.nonce) {
        forall src | src in m ensures m[src].stamp <= a.at {
          var i := LastAcceptedIsPast(n, f, src);
          assert attempts[i] == f[i];
        }
        PutTracks(NoncesAfter(n, f), m, Slot(a.src, a.at, a.nonce));
      }
    }
  }

  lemma TrackedAccepts(t: seq<NonceSlot>, m: Memory<uint32>, src: byte, nonce: uint32)
    requires Tracks(t, m) && t != []
    ensures Holds(t, src) ==> src in m
    ensures Accepts(t, src, nonce) <==> !Holds(t, src) || m[src].value < nonce
  {
    SlotOfHeld(t, m, src);
    var s := t[SlotFor(t, src)];
    if Holds(t, src) {
      assert s == m[src];
    }
  }

  /** After any run, a nonce is refused exactly when its source is still held and
      its last accepted nonce is not exceeded: a forgotten source may replay anything. */
  lemma AcceptsIff(n: nat, attempts: seq<Attempt>, src: byte, nonce: uint32)
    requires 0 < n && ClockOk(attempts)
    ensures Holds(NoncesAfter(n, attempts), src) ==> src in LastAccepted(n, attempts)
    ensures Accepts(NoncesAfter(n, attempts), src, nonce)
            <==> !Holds(NoncesAfter(n, attempts), src) || LastAccepted(n, attempts)[src].value < nonce
  {
    NonceTableTracks(n, attempts);
    TrackedAccepts(NoncesAfter(n, attempts), LastAccepted(n, attempts), src, nonce);
  }

  /** A replay is accepted only if the table is full of other sources, each accepted
      no earlier than the source that is replayed. */
  lemma ReplayNeedsCrowd(n: nat, attempts: seq<Attempt>, src: byte, nonce: uint32)
    requires 0 < n && ClockOk(attempts) && src in LastAccepted(n, attempts)
    requires nonce <= LastAccepted(n, attempts)[src].value && Accepts(NoncesAfter(n, attempts), src, nonce)
    ensures var m := LastAccepted(n, attempts);
            n <= |set x | x in m && x != src && m[src].stamp <= m[x].stamp|
  {
    AcceptsIff(n, attempts, src, nonce);
    NonceTableTracks(n, attempts);
    var m := LastAccepted(n, attempts);
    if |set x | x in m && x != src && m[src].stamp <= m[x].stamp| < n {
      RecentIsHeld(NoncesAfter(n, attempts), m, src);
    }
  }

  // ---- Which sets of sources are protected ----

  ghost predicate Within(attempts: seq<Attempt>, sources: set<byte>) {
    forall i :: 0 <= i < |attempts| ==> attempts[i].src in sources
  }

  /** Greater than every nonce presented before for its source. */
  ghost predicate Exceeds(attempts: seq<Attempt>, src: byte, nonce: uint32) {
    forall i :: 0 <= i < |attempts| && attempts[i].src == src ==> attempts[i].nonce < nonce
  }

  /** A nonce is accepted exactly when it exceeds every earlier one of its source,
      whatever these sources present and in whatever order. */
  ghost predicate ReplayProtected(n: nat, sources: set<byte>)
    requires 0 < n
  {
    forall attempts, src, nonce: uint32 :: ClockOk(attempts) && Within(attempts, sources) && src in sources
      ==> (Accepts(NoncesAfter(n, attempts), src, nonce) <==> Exceeds(attempts, src, nonce))
  }

  /** The last nonces accepted are the greatest presented. */
  ghost predicate Greatest(attempts: seq<Attempt>, m: Memory<uint32>) {
    forall i :: 0 <= i < |attempts| ==> attempts[i].src in m && attempts[i].nonce <= m[attempts[i].src].value
  }

  lemma FewAreHeld(n: nat, attempts: seq<Attempt>, sources: set<byte>)
    requires 0 < n && ClockOk(attempts) && Within(attempts, sources) && |sources| <= n
    ensures forall src :: src in LastAccepted(n, attempts) <==> Holds(NoncesAfter(n, attempts), src)
  {
    var m := LastAccepted(n, attempts);
    forall src | src in m ensures src in sources {
      var i := LastAcceptedIsPast(n, attempts, src);
    }
    SubsetCardinality(m.Keys, sources);
    assert |m.Keys| == |m|;
    NonceTableTracks(n, attempts);
    FewIdsAreHeld(NoncesAfter(n, attempts), m);
  }

  /** While the sources fit the table, nothing but a greater nonce is accepted. */
  lemma {:induction false} FewAreGreatest(n: nat, attempts: seq<Attempt>, sources: set<byte>)
    requires 0 < n && ClockOk(attempts) && Within(attempts, sources) && |sources| <= n
    ensures Greatest(attempts, LastAccepted(n, attempts))
  {
    if attempts != [] {
      var f, a := attempts[..|attempts| - 1], attempts[|attempts| - 1];
      FewAreGreatest(n, f, sources);
      FewAreHeld(n, f, sources);
      AcceptsIff(n, f, a.src, a.nonce);
      GreatestNext(f, LastAccepted(n, f), a, LastAccepted(n, attempts));
      assert f + [a] == attempts;
    }
  }

  lemma GreatestNext(f: seq<Attempt>, m: Memory<uint32>, a: Attempt, m': Memory<uint32>)
    requires Greatest(f, m)
    requires m' == if a.src in m && a.nonce <= m[a.src].value then m else m[a.src := Slot(a.src, a.at, a.nonce)]
    ensures Greatest(f + [a], m')
  {
    forall i | 0 <= i < |f + [a]|
      ensures (f + [a])[i].src in m' && (f + [a])[i].nonce <= m'[(f + [a])[i].src].value
    {
      if i < |f| {
        assert (f + [a])[i] == f[i];
      }
    }
  }

  lemma FewAreProtected(n: nat, attempts: seq<Attempt>, sources: set<byte>, src: byte, nonce: uint32)
    requires 0 < n && ClockOk(attempts) && Within(attempts, sources) && |sources| <= n
    ensures Accepts(NoncesAfter(n, attempts), src, nonce) <==> Exceeds(attempts, src, nonce)
  {
    FewAreGreatest(n, attempts, sources);
    FewAreHeld(n, attempts, sources);
    AcceptsIff(n, attempts, src, nonce);
    if src in LastAccepted(n, attempts) {
      var i := LastAcceptedIsPast(n, attempts, src);
    }
  }

  /** One nonce from each of several sources, a millisecond apart. */
  function Burst(ids: seq<byte>, nonce: uint32): (attempts: seq<Attempt>)
    requires |ids| < UINT32
    ensures |attempts| == |ids|
    ensures forall i :: 0 <= i < |ids| ==> attempts[i] == Attempt(ids[i], nonce, i + 1)
  {
    seq(|ids|, i requires 0 <= i < |ids| => Attempt(ids[i], nonce, i + 1))
  }

  /** The slots such a burst writes. */
  function BurstSlots(ids: seq<byte>, nonce: uint32): (puts: seq<NonceSlot>)
    requires |ids| < UINT32
    ensures |puts| == |ids|
    ensures forall i :: 0 <= i < |ids| ==> puts[i] == Slot(ids[i], i + 1, nonce)
  {
    seq(|ids|, i requires 0 <= i < |ids| => Slot(ids[i], i + 1, nonce))
  }

  /** New sources are all accepted, each into the slot it is due. */
  lemma {:induction false} BurstIsAccepted(n: nat, ids: seq<byte>, nonce: uint32)
    requires 0 < n && Distinct(ids) && |ids| <= n + 1 && |ids| < UINT32
    ensures NoncesAfter(n, Burst(ids, nonce)) == TableAfter(Blank(n, 0), BurstSlots(ids, nonce))
  {
    if ids != [] {
      var k := |ids| - 1;
      var f := ids[..k];
      BurstIsAccepted(n, f, nonce);
      assert Burst(ids, nonce)[..k] == Burst(f, nonce) && BurstSlots(ids, nonce)[..k] == BurstSlots(f, nonce);
      TurnsFill(n, 0, BurstSlots(f, nonce));
      assert Accepts(NoncesAfter(n, Burst(f, nonce)), ids[k], nonce);
    }
  }

  /** One source more than the table has slots: the first is forgotten, and its
      nonce is accepted once more. */
  lemma BurstForgetsFirst(n: nat, ids: seq<byte>, nonce: uint32)
    requires 0 < n && Distinct(ids) && |ids| == n + 1 < UINT32
    ensures Accepts(NoncesAfter(n, Burst(ids, nonce)), ids[0], nonce)
    ensures !Exceeds(Burst(ids, nonce), ids[0], nonce)
  {
    BurstIsAccepted(n, ids, nonce);
    FirstIsForgotten(n, 0, BurstSlots(ids, nonce));
    AcceptsIff(n, Burst(ids, nonce), ids[0], nonce);
    assert Burst(ids, nonce)[0].nonce == nonce;
  }

  /** Seventeen sources present nonce 5 at times 1 to 17; then the first one's
      packet is accepted a second time. */
  lemma SeventeenSourcesReplay() returns (attempts: seq<Attempt>)
    ensures |attempts| == 17 && ClockOk(attempts)
    ensures forall i :: 0 <= i < 17 ==> attempts[i] == Attempt(i, 5, i + 1)
    ensures Accepts(NoncesAfter(NONCE_TABLE_SIZE, attempts), 0, 5)
  {
    var ids := seq(17, i requires 0 <= i < 17 => i as byte);
    attempts := Burst(ids, 5);
    BurstForgetsFirst(NONCE_TABLE_SIZE, ids, 5);
  }

  lemma {:induction false} PickSome(sources: set<byte>, k: nat) returns (ids: seq<byte>)
    requires k <= |sources|
    ensures |ids| == k && Distinct(ids) && forall i :: 0 <= i < k ==> ids[i] in sources
  {
    ids := [];
    if 0 < k {
      var x :| x in sources;
      ids := PickSome(sources - {x}, k - 1);
      ids := ids + [x];
    }
  }

  /** Replay protection holds for a set of sources exactly when the table has a
      slot for each of them. */
  lemma ReplayProtectedIff(n: nat, sources: set<byte>)
    requires 0 < n < UINT32_MAX
    ensures ReplayProtected(n, sources) <==> |sources| <= n
  {
    if |sources| <= n {
      forall attempts, src, nonce: uint32 | ClockOk(attempts) && Within(attempts, sources) && src in sources
        ensures Accepts(NoncesAfter(n, attempts), src, nonce) <==> Exceeds(attempts, src, nonce)
      {
        FewAreProtected(n, attempts, sources, src, nonce);
      }
    } else {
      var ids := PickSome(sources, n + 1);
      BurstForgetsFirst(n, ids, 5);
      assert Within(Burst(ids, 5), sources) && ClockOk(Burst(ids, 5));
    }
  }

  // ---- Packets ----

  /** A received packet as the handler looks at it; `authentic` is the verdict of
      the message authentication code under the relay's key. */
  datatype CtrlPacket = CtrlPacket(ptype: byte, src: byte, dst: byte, headerLen: uint16, totalLen: nat,
                                   ctrl: RelayCtrl, authentic: bool)

  predicate WellShaped(p: CtrlPacket, myId: byte) {
    p.ptype == PKT_RELAY_CTRL && p.headerLen == CTRL_SIZE && HEADER_SIZE + CTRL_SIZE <= p.totalLen
    && (p.dst == myId || p.dst == BROADCAST_ID)
  }

  /** Meant for this relay and verified. */
  predicate Genuine(p: CtrlPacket, myId: byte) {
    WellShaped(p, myId) && p.authentic
  }

  /** What it takes: the type, both lengths, the address and the key. */
  lemma GenuineMeans(p: CtrlPacket, myId: byte)
    ensures Genuine(p, myId) <==> p.ptype == 0x0C && p.headerLen == 34 && 46 <= p.totalLen
                                  && (p.dst == myId || p.dst == 255) && p.authentic
  {
  }

  datatype Relay = Relay(policy: Policy, nonces: seq<NonceSlot>, lastAccepted: uint32, dropped: nat)

  function Handled(r: Relay, p: CtrlPacket, myId: byte, lim: Limits, now: uint32): Relay
    requires r.nonces != []
  {
    if !WellShaped(p, myId) then r
    else if !p.authentic then r.(dropped := r.dropped + 1)
    else if !Accepts(r.nonces, p.src, p.ctrl.nonce) then r
    else
      Relay(Applied(r.policy, p.ctrl, lim), Recorded(r.nonces, p.src, p.ctrl.nonce, now),
            if p.ctrl.nonce > r.lastAccepted then p.ctrl.nonce else r.lastAccepted, r.dropped)
  }

  class RelayController {
    const myId: byte
    const limits: Limits
    const nonces: array<NonceSlot>
    var policy: Policy
    var lastAcceptedNonce: uint32
    var droppedCount: nat

    ghost predicate Valid() {
      nonces.Length == NONCE_TABLE_SIZE
    }

    ghost function Contents(): Relay
      reads this, nonces
    {
      Relay(policy, nonces[..], lastAcceptedNonce, droppedCount)
    }

    constructor (id: byte, lim: Limits)
      ensures Valid() && fresh(nonces) && myId == id && limits == lim
      ensures Contents() == Relay(BOOT_POLICY, Blank(NONCE_TABLE_SIZE, 0), 0, 0)
      ensures policy.mode == 1 && policy.rssiFloor == -128 && policy.dutyCapPct == 0 && policy.typeMask == 0xFFFF_FFFF
      ensures policy.sfQueueMax == 8 && policy.sfTtlS == 1800 && policy.maxHopsAdd == 1
    {
      myId, limits := id, lim;
      nonces := new NonceSlot[NONCE_TABLE_SIZE](i => Slot(0, 0, 0));
      policy := BOOT_POLICY;
      lastAcceptedNonce, droppedCount := 0, 0;
    }

    method CheckAndRecordNonce(src: byte, nonce: uint32, now: uint32) returns (accepted: bool)
      requires Valid()
      modifies this`lastAcceptedNonce, nonces
      ensures accepted == Accepts(old(nonces[..]), src, nonce)
      ensures nonces[..] == Recorded(old(nonces[..]), src, nonce, now)
      ensures lastAcceptedNonce == if accepted && nonce > old(lastAcceptedNonce) then nonce else old(lastAcceptedNonce)
    {
      var slot := FindSlot(nonces, src);
      if nonces[slot].id == src && nonces[slot].stamp != 0 {
        if nonce <= nonces[slot].value {
          return false;
        }
      }
      nonces[slot] := Slot(src, now, nonce);
      if nonce > lastAcceptedNonce {
        lastAcceptedNonce := nonce;
      }
      return true;
    }

    method ApplyCtrl(c: RelayCtrl)
      modifies this`policy
      ensures policy == Applied(old(policy), c, limits)
      ensures policy.mode == if c.mode <= 4 then c.mode else old(policy.mode)
      ensures policy.rssiFloor == c.rssiFloor && policy.dutyCapPct == c.dutyCapPct && policy.typeMask == c.typeMask
      ensures policy.sfQueueMax <= c.sfQueueMax && policy.sfQueueMax <= limits.queueHardMax
      ensures policy.sfQueueMax == c.sfQueueMax || policy.sfQueueMax == limits.queueHardMax
      ensures policy.sfTtlS <= c.sfTtlSeconds && policy.sfTtlS <= limits.ttlHardMaxS
      ensures policy.sfTtlS == c.sfTtlSeconds || policy.sfTtlS == limits.ttlHardMaxS
      ensures policy.maxHopsAdd != 0 && (c.maxHopsAdded != 0 ==> policy.maxHopsAdd == c.maxHopsAdded)
      ensures c.maxHopsAdded == 0 ==> policy.maxHopsAdd == 1
    {
      if c.mode <= RELAY_MODE_SELECTIVE {
        policy := policy.(mode := c.mode);
      }
      policy := policy.(rssiFloor := c.rssiFloor);
      policy := policy.(dutyCapPct := c.dutyCapPct);
      policy := policy.(typeMask := c.typeMask);
      policy := policy.(sfQueueMax := if c.sfQueueMax < limits.queueHardMax then c.sfQueueMax else limits.queueHardMax);
      policy := policy.(sfTtlS := if c.sfTtlSeconds < limits.ttlHardMaxS then c.sfTtlSeconds else limits.ttlHardMaxS);
      policy := policy.(maxHopsAdd := if c.maxHopsAdded > 0 then c.maxHopsAdded else 1);
    }

    /** `consumed` if the packet was a control packet; `report` if a status packet
        goes out in answer. */
    method HandlePacket(p: CtrlPacket, now: uint32) returns (consumed: bool, report: bool)
      requires Valid()
      modifies this`policy, this`lastAcceptedNonce, this`droppedCount, nonces
      ensures consumed == (p.ptype == PKT_RELAY_CTRL)
      ensures var shaped := p.ptype == 0x0C && p.headerLen == 34 && 46 <= p.totalLen && (p.dst == myId || p.dst == 255);
              report == (shaped && p.authentic && Accepts(old(nonces[..]), p.src, p.ctrl.nonce))
              && droppedCount == old(droppedCount) + (if shaped && !p.authentic then 1 else 0)
      ensures report && p.ctrl.mode <= 4 ==> Enacts(policy, p.ctrl, limits)
      ensures !report ==> policy == old(policy) && nonces[..] == old(nonces[..])
      ensures Contents() == Handled(old(Contents()), p, myId, limits, now)
    {
      AppliedEnacts(policy, p.ctrl, limits);
      if p.ptype != PKT_RELAY_CTRL {
        return false, false;
      }
      if p.headerLen != CTRL_SIZE {
        return true, false;
      }
      if p.totalLen < HEADER_SIZE + CTRL_SIZE {
        return true, false;
      }
      if p.dst != myId && p.dst != BROADCAST_ID {
        return true, false;
      }
      if !p.authentic {
        droppedCount := droppedCount + 1;
        return true, false;
      }
      var accepted := CheckAndRecordNonce(p.src, p.ctrl.nonce, now);
      if !accepted {
        return true, false;
      }
      ApplyCtrl(p.ctrl);
      return true, true;
    }
  }

  // ---- Latest wins ----

  /** A packet arriving at a time. */
  datatype Delivery = Delivery(packet: CtrlPacket, at: uint32)

  function RelayAfter(policy: Policy, myId: byte, lim: Limits, ds: seq<Delivery>): (r: Relay)
    ensures |r.nonces| == NONCE_TABLE_SIZE
  {
    if ds == [] then Relay(policy, Blank(NONCE_TABLE_SIZE, 0), 0, 0)
    else
      var d := ds[|ds| - 1];
      Handled(RelayAfter(policy, myId, lim, ds[..|ds| - 1]), d.packet, myId, lim, d.at)
  }

  ghost predicate SameNonce(p: CtrlPacket, q: CtrlPacket, myId: byte) {
    Genuine(p, myId) && Genuine(q, myId) && p.ctrl.nonce == q.ctrl.nonce
  }

  /** A single administrator with valid modes, whose nonces are its packets' identities,
      and a nonzero clock; anything else may arrive in between. */
  ghost predicate OneAdmin(ds: seq<Delivery>, myId: byte, src: byte) {
    (forall i :: 0 <= i < |ds| && Genuine(ds[i].packet, myId) ==>
       ds[i].packet.src == src && ds[i].packet.ctrl.mode <= RELAY_MODE_SELECTIVE && ds[i].at != 0)
    && forall i, j :: 0 <= i < |ds| && 0 <= j < |ds| && SameNonce(ds[i].packet, ds[j].packet, myId) ==>
         ds[i].packet.ctrl == ds[j].packet.ctrl
  }

  ghost predicate Delivered(ds: seq<Delivery>, myId: byte, c: RelayCtrl) {
    exists i :: 0 <= i < |ds| && Genuine(ds[i].packet, myId) && ds[i].packet.ctrl == c
  }

  /** `c` is the genuine delivery with the greatest nonce. */
  ghost predicate Latest(ds: seq<Delivery>, myId: byte, c: RelayCtrl) {
    Delivered(ds, myId, c)
    && forall i :: 0 <= i < |ds| && Genuine(ds[i].packet, myId) ==> ds[i].packet.ctrl.nonce <= c.nonce
  }

  ghost predicate NoneGenuine(ds: seq<Delivery>, myId: byte) {
    forall i :: 0 <= i < |ds| ==> !Genuine(ds[i].packet, myId)
  }

  /** The nonce table of a relay that has accepted one administrator's packets. */
  ghost predicate OnlySlot(t: seq<NonceSlot>, src: byte, nonce: uint32) {
    |t| == NONCE_TABLE_SIZE && t[0].id == src && t[0].stamp != 0 && t[0].value == nonce
  }

  lemma {:induction false} LatestIsApplied(policy: Policy, myId: byte, lim: Limits, ds: seq<Delivery>, src: byte)
    returns (c: RelayCtrl)
    requires OneAdmin(ds, myId, src)
    ensures NoneGenuine(ds, myId) ==>
              RelayAfter(policy, myId, lim, ds).policy == policy
              && RelayAfter(policy, myId, lim, ds).nonces == Blank(NONCE_TABLE_SIZE, 0)
              && RelayAfter(policy, myId, lim, ds).lastAccepted == 0
    ensures !NoneGenuine(ds, myId) ==>
              Latest(ds, myId, c) && RelayAfter(policy, myId, lim, ds).policy == Applied(policy, c, lim)
              && RelayAfter(policy, myId, lim, ds).lastAccepted == c.nonce
              && OnlySlot(RelayAfter(policy, myId, lim, ds).nonces, src, c.nonce)
  {
    if ds == [] {
      c := RelayCtrl(0, 0, 0, 0, 0, 0, 0, 0);
    } else {
      var f, d := ds[..|ds| - 1], ds[|ds| - 1];
      assert forall i :: 0 <= i < |f| ==> f[i] == ds[i];
      var c0 := LatestIsApplied(policy, myId, lim, f, src);
      var before := RelayAfter(policy, myId, lim, f);
      assert f + [d] == ds && RelayAfter(policy, myId, lim, ds) == Handled(before, d.packet, myId, lim, d.at);
      c := c0;
      if Genuine(d.packet, myId) {
        FirstSlotOnly(before.nonces, src);
        if NoneGenuine(f, myId) || c0.nonce < d.packet.ctrl.nonce {
          c := d.packet.ctrl;
          NewLatest(f, d, myId, c);
        } else {
          KeepLatest(f, d, myId, c);
        }
      } else if !NoneGenuine(f, myId) {
        KeepLatest(f, d, myId, c);
      }
    }
  }

  /** After any lossy, duplicated and reordered delivery the relay does, field by
      field, what the packet with the greatest nonce delivered asks for, and that nonce
      is the one it reports. */
  lemma LatestWins(policy: Policy, myId: byte, lim: Limits, ds: seq<Delivery>, src: byte) returns (c: RelayCtrl)
    requires OneAdmin(ds, myId, src)
    ensures NoneGenuine(ds, myId) ==> RelayAfter(policy, myId, lim, ds).policy == policy
    ensures !NoneGenuine(ds, myId) ==>
              var r := RelayAfter(policy, myId, lim, ds);
              Latest(ds, myId, c) && Enacts(r.policy, c, lim) && r.policy == Applied(policy, c, lim)
              && r.lastAccepted == c.nonce
  {
    c := LatestIsApplied(policy, myId, lim, ds, src);
    if !NoneGenuine(ds, myId) {
      var i :| 0 <= i < |ds| && Genuine(ds[i].packet, myId) && ds[i].packet.ctrl == c;
      AppliedEnacts(policy, c, lim);
    }
  }

  lemma NewLatest(f: seq<Delivery>, d: Delivery, myId: byte, c: RelayCtrl)
    requires Genuine(d.packet, myId) && c == d.packet.ctrl
    requires forall i :: 0 <= i < |f| && Genuine(f[i].packet, myId) ==> f[i].packet.ctrl.nonce <= c.nonce
    ensures Latest(f + [d], myId, c)
  {
    assert (f + [d])[|f|] == d;
  }

  lemma KeepLatest(f: seq<Delivery>, d: Delivery, myId: byte, c: RelayCtrl)
    requires Latest(f, myId, c) && (Genuine(d.packet, myId) ==> d.packet.ctrl.nonce <= c.nonce)
    ensures Latest(f + [d], myId, c)
  {
    var i :| 0 <= i < |f| && Genuine(f[i].packet, myId) && f[i].packet.ctrl == c;
    assert (f + [d])[i] == f[i];
  }

  lemma FirstSlotOnly(t: seq<NonceSlot>, src: byte)
    requires |t| == NONCE_TABLE_SIZE && Hit(t[0], src)
    ensures SlotFor(t, src) == 0
  {
  }

  /** Two relays that were given the same genuine packets, however often and in
      whatever order, run the same policy. */
  lemma OrderDoesNotMatter(policy: Policy, idA: byte, idB: byte, lim: Limits,
                           da: seq<Delivery>, db: seq<Delivery>, src: byte)
    requires OneAdmin(da, idA, src) && OneAdmin(db, idB, src)
    requires forall c :: Delivered(da, idA, c) <==> Delivered(db, idB, c)
    ensures RelayAfter(policy, idA, lim, da).policy == RelayAfter(policy, idB, lim, db).policy
  {
    var a := LatestWins(policy, idA, lim, da, src);
    var b := LatestWins(policy, idB, lim, db, src);
    if NoneGenuine(da, idA) {
      assert !Delivered(db, idB, b);
    } else {
      assert Delivered(da, idA, a) && Delivered(db, idB, a) && Delivered(db, idB, b) && Delivered(da, idA, b);
      SameLatest(da, idA, src, a, b);
      SameLatest(db, idB, src, b, a);
    }
  }

  lemma SameLatest(ds: seq<Delivery>, myId: byte, src: byte, c: RelayCtrl, d: RelayCtrl)
    requires OneAdmin(ds, myId, src) && Latest(ds, myId, c) && Delivered(ds, myId, d)
    ensures d.nonce <= c.nonce && (d.nonce == c.nonce ==> c == d)
  {
    var i :| 0 <= i < |ds| && Genuine(ds[i].packet, myId) && ds[i].packet.ctrl == c;
    var j :| 0 <= j < |ds| && Genuine(ds[j].packet, myId) && ds[j].packet.ctrl == d;
    assert d.nonce == c.nonce ==> SameNonce(ds[i].packet, ds[j].packet, myId);
  }
}
