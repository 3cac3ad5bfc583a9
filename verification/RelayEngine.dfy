/** The relay decision and how it plays together with the neighbour table and the
    queue: `relay_should_relay` and `relay_ctrl_on_hello` in src/relay_control.cpp. */
module RelayEngine {
  import opened Common
  import opened Neighbours
  import opened LruTable
  import opened RelayControl
  import Duty
  import SF = StoreForward

  const MODE_OFF: byte := 0
  const MODE_FLOOD: byte := 1
  const MODE_ROUTED: byte := 2
  const MODE_STORE_FWD: byte := 3
  const MODE_SELECTIVE: byte := 4
  const PKT_MSG: byte := 0x0A

  /** What happens to a packet: relayed now, put into the queue, refused and
      counted, or passed over without counting. */
  datatype Decision = RelayNow | Hold | Refuse | Ignore

  /** Bit `k` of a mask. */
  predicate Bit(mask: nat, k: nat) {
    if k == 0 then mask % 2 == 1 else Bit(mask / 2, k - 1)
  }

  /** Is the packet type's bit set in the mask? */
  predicate TypeAllowed(mask: uint32, ptype: byte) {
    Bit(mask, ptype % 32)
  }

  function Decide(p: Policy, ptype: byte, dst: byte, rssi: int, dutyOk: bool, known: bool): Decision {
    if p.mode == MODE_OFF || rssi < p.rssiFloor || !dutyOk then Refuse
    else if p.mode == MODE_FLOOD then RelayNow
    else if p.mode == MODE_SELECTIVE then (if TypeAllowed(p.typeMask, ptype) then RelayNow else Refuse)
    else if p.mode == MODE_ROUTED then (if dst == BROADCAST_ID || known then RelayNow else Refuse)
    else if p.mode == MODE_STORE_FWD then
      if dst == BROADCAST_ID || known then RelayNow
      else if ptype == PKT_MSG then Hold
      else Ignore
    else Ignore
  }

  /** A mask with bit `k` set as well. */
  function WithBit(mask: nat, k: nat): nat {
    if k == 0 then (if mask % 2 == 1 then mask else mask + 1) else 2 * WithBit(mask / 2, k - 1) + mask % 2
  }

  /** The mask an administrator composes from the types to admit. */
  function MaskOf(types: seq<byte>): nat {
    if types == [] then 0 else WithBit(MaskOf(types[..|types| - 1]), types[|types| - 1] % 32)
  }

  lemma {:induction false} WithBitSets(mask: nat, k: nat, j: nat)
    ensures Bit(WithBit(mask, k), j) <==> Bit(mask, j) || j == k
  {
    if 0 < k && 0 < j {
      WithBitSets(mask / 2, k - 1, j - 1);
    }
  }

  function Pow2(n: nat): (r: nat)
    ensures 0 < r
  {
    if n == 0 then 1 else 2 * Pow2(n - 1)
  }

  lemma {:induction false} WithBitFits(mask: nat, k: nat, n: nat)
    requires k < n && mask < Pow2(n)
    ensures WithBit(mask, k) < Pow2(n)
  {
    var half, bit, p := mask / 2, mask % 2, Pow2(n - 1);
    assert mask == 2 * half + bit && half < p;
    if 0 < k {
      WithBitFits(half, k - 1, n - 1);
    }
  }

  lemma {:induction false} MaskFits(types: seq<byte>)
    ensures MaskOf(types) < UINT32
  {
    assert Pow2(8) == 0x100 && Pow2(16) == 0x1_0000 && Pow2(24) == 0x100_0000 && Pow2(32) == UINT32;
    if types != [] {
      MaskFits(types[..|types| - 1]);
      WithBitFits(MaskOf(types[..|types| - 1]), types[|types| - 1] % 32, 32);
    }
  }

  lemma NoBits(k: nat)
    ensures !Bit(0, k)
  {
  }

  /** A mask composed from types admits exactly those types, up to multiples of 32. */
  lemma {:induction false} MaskAdmits(types: seq<byte>, t: byte)
    ensures MaskOf(types) < UINT32
    ensures TypeAllowed(MaskOf(types), t) <==> exists i :: 0 <= i < |types| && types[i] % 32 == t % 32
  {
    MaskFits(types);
    if types == [] {
      NoBits(t % 32);
    } else {
      var f, n := types[..|types| - 1], |types| - 1;
      MaskAdmits(f, t);
      WithBitSets(MaskOf(f), types[n] % 32, t % 32);
      if i :| 0 <= i < |f| && f[i] % 32 == t % 32 {
        assert types[i] % 32 == t % 32;
      }
      if i :| 0 <= i < |types| && types[i] % 32 == t % 32 {
        assert i < n ==> f[i] % 32 == t % 32;
      }
    }
  }

  class RelayEngine {
    const ctrl: RelayController
    const nbrs: NeighbourTable
    const queue: SF.SfQueue
    const duty: Duty.DutyMeter
    const txSet: bool
    var droppedCount: nat

    ghost predicate Valid() {
      ctrl.Valid() && nbrs.Valid() && queue.Valid() && queue.slots.Length == ctrl.limits.queueHardMax
    }

    ghost function Contents(): Engine
      reads ctrl, nbrs.nbrs, queue, queue.slots
    {
      Engine(ctrl.policy, nbrs.nbrs[..], queue.Contents())
    }

    constructor (id: byte, lim: Limits, bootMs: uint32, tx: bool)
      requires 0 < lim.queueHardMax
      ensures Valid() && fresh(ctrl) && fresh(nbrs) && fresh(queue) && fresh(duty)
      ensures fresh(ctrl.nonces) && fresh(nbrs.nbrs) && fresh(queue.slots)
      ensures ctrl.myId == id && ctrl.limits == lim && Contents() == Started(lim)
      ensures duty.Contents() == Duty.Window(bootMs, 0) && txSet == tx && droppedCount == 0
    {
      ctrl := new RelayController(id, lim);
      nbrs := new NeighbourTable();
      queue := new SF.SfQueue(lim.queueHardMax);
      duty := new Duty.DutyMeter(bootMs);
      txSet, droppedCount := tx, 0;
    }

    ghost function Verdict(ptype: byte, dst: byte, rssi: int, now: uint32): Decision
      reads ctrl, nbrs.nbrs, duty
    {
      Decide(ctrl.policy, ptype, dst, rssi, Duty.Allows(duty.Contents(), ctrl.policy.dutyCapPct, now),
             Known(nbrs.nbrs[..], dst, now))
    }

    method ShouldRelay(ptype: byte, dst: byte, pkt: seq<byte>, rssi: int, now: uint32) returns (relay: bool)
      requires Valid()
      modifies this`droppedCount, queue`depth, queue.slots
      ensures relay == old(Verdict(ptype, dst, rssi, now)).RelayNow?
      ensures var p, known := ctrl.policy, Known(nbrs.nbrs[..], dst, now);
              var open := p.mode != 0 && p.rssiFloor <= rssi && Duty.Allows(duty.Contents(), p.dutyCapPct, now);
              (relay <==> open && (p.mode == 1 || (p.mode == 4 && TypeAllowed(p.typeMask, ptype))
                                   || (2 <= p.mode <= 3 && (dst == 255 || known))))
              && droppedCount == old(droppedCount)
                                 + (if !open || (p.mode == 4 && !relay) || (p.mode == 2 && !relay) then 1 else 0)
      ensures Contents() == Step(ctrl.limits, txSet, old(Contents()),
                                 Present(ptype, dst, pkt, rssi,
                                         Duty.Allows(old(duty.Contents()), ctrl.policy.dutyCapPct, now), now))
      ensures droppedCount == old(droppedCount) + if old(Verdict(ptype, dst, rssi, now)).Refuse? then 1 else 0
    {
      if ctrl.policy.mode == MODE_OFF {
        droppedCount := droppedCount + 1;
        return false;
      }
      if rssi < ctrl.policy.rssiFloor {
        droppedCount := droppedCount + 1;
        return false;
      }
      var dutyOk := duty.DutyAllows(ctrl.policy.dutyCapPct, now);
      if !dutyOk {
        droppedCount := droppedCount + 1;
        return false;
      }
      if ctrl.policy.mode == MODE_FLOOD {
        return true;
      } else if ctrl.policy.mode == MODE_SELECTIVE {
        if !TypeAllowed(ctrl.policy.typeMask, ptype) {
          droppedCount := droppedCount + 1;
          return false;
        }
        return true;
      } else if ctrl.policy.mode == MODE_ROUTED {
        if dst == BROADCAST_ID {
          return true;
        }
        var known := nbrs.NeighbourKnown(dst, now);
        if known {
          return true;
        }
        droppedCount := droppedCount + 1;
        return false;
      } else if ctrl.policy.mode == MODE_STORE_FWD {
        if dst == BROADCAST_ID {
          return true;
        }
        var known := nbrs.NeighbourKnown(dst, now);
        if known {
          return true;
        }
        if ptype == PKT_MSG {
          queue.Enqueue(pkt, dst, ctrl.policy.sfQueueMax, now);
        }
        return false;
      }
      return false;
    }

    /** A flush neither asks for the duty budget nor notes anything in it: what it
        frees, and how many transmissions it counts, does not depend on the budget. */
    method OnHello(src: byte, now: uint32, txOk: seq<bool>)
      requires Valid() && |txOk| == queue.slots.Length
      modifies nbrs.nbrs, queue`depth, queue`relayedCount, queue.slots
      ensures Contents() == Step(ctrl.limits, txSet, old(Contents()), Hello(src, now))
      ensures duty.Contents() == old(duty.Contents())
      ensures queue.relayedCount == old(queue.relayedCount)
                                    + if Flushes(old(Contents()), txSet) then
                                        SF.SfQueue.Taken(old(queue.slots[..]), src, txOk, queue.slots.Length)
                                      else 0
    {
      nbrs.RememberNeighbour(src, now);
      if ctrl.policy.mode == MODE_STORE_FWD && queue.depth > 0 {
        queue.FlushFor(src, txSet, txOk);
      }
    }

    /** The queue's part of the periodic work. */
    method Collect(now: uint32)
      requires Valid()
      modifies queue`depth, queue`droppedCount, queue.slots
      ensures Contents() == Step(ctrl.limits, txSet, old(Contents()), Event.Collect(now))
    {
      queue.Gc(ctrl.policy.sfTtlS, now);
    }

    /** A control packet changes the policy, and nothing else of the relay's behaviour. */
    method OnCtrl(p: CtrlPacket, now: uint32) returns (consumed: bool, report: bool)
      requires Valid()
      modifies ctrl`policy, ctrl`lastAcceptedNonce, ctrl`droppedCount, ctrl.nonces
      ensures report == (Genuine(p, ctrl.myId) && Accepts(old(ctrl.nonces[..]), p.src, p.ctrl.nonce))
      ensures Contents() == if report then Step(ctrl.limits, txSet, old(Contents()), Ctrl(p.ctrl, now))
                            else old(Contents())
    {
      consumed, report := ctrl.HandlePacket(p, now);
    }
  }

  // ---- Runs ----

  datatype Engine = Engine(policy: Policy, nbrs: seq<NbrSlot>, queue: SF.Queue)

  /** A packet is considered for relaying, a neighbour is heard, expired packets are
      collected, or a control packet is accepted. */
  datatype Event =
    | Present(ptype: byte, dst: byte, pkt: seq<byte>, rssi: int, dutyOk: bool, at: uint32)
    | Hello(src: byte, at: uint32)
    | Collect(at: uint32)
    | Ctrl(c: RelayCtrl, at: uint32)

  predicate Holding(e: Engine, ev: Event)
    requires ev.Present?
  {
    Decide(e.policy, ev.ptype, ev.dst, ev.rssi, ev.dutyOk, Known(e.nbrs, ev.dst, ev.at)).Hold?
  }

  /** Whether a hello makes the queue hand over its sender's packets. */
  predicate Flushes(e: Engine, tx: bool) {
    e.policy.mode == MODE_STORE_FWD && 0 < e.queue.depth && tx
  }

  function Step(lim: Limits, tx: bool, e: Engine, ev: Event): (e': Engine)
    requires e.nbrs != [] && e.queue.slots != []
    ensures |e'.nbrs| == |e.nbrs| && |e'.queue.slots| == |e.queue.slots|
  {
    match ev
    case Present(_, dst, pkt, _, _, at) =>
      if Holding(e, ev) then e.(queue := SF.Enqueued(e.queue, e.policy.sfQueueMax, SF.Item(dst, at, pkt))) else e
    case Hello(src, at) =>
      e.(nbrs := Put(e.nbrs, Heard(src, at)),
         queue := if Flushes(e, tx) then SF.Dropped(e.queue, SF.ForDst(src)) else e.queue)
    case Collect(at) =>
      e.(queue := SF.Dropped(e.queue, SF.Expired(at, e.policy.sfTtlS * 1000 % UINT32)))
    case Ctrl(c, _) => e.(policy := Applied(e.policy, c, lim))
  }

  function Started(lim: Limits): Engine {
    Engine(BOOT_POLICY, Blank(NBR_TABLE_SIZE, ()), SF.Empty(lim.queueHardMax))
  }

  function EngineAfter(lim: Limits, tx: bool, evs: seq<Event>): (e: Engine)
    requires 0 < lim.queueHardMax
    ensures |e.nbrs| == NBR_TABLE_SIZE && |e.queue.slots| == lim.queueHardMax
  {
    if evs == [] then Started(lim) else Step(lim, tx, EngineAfter(lim, tx, evs[..|evs| - 1]), evs[|evs| - 1])
  }

  /** The hearings of a run, as the neighbour table is told of them. */
  function Hearings(evs: seq<Event>): seq<NbrSlot> {
    if evs == [] then []
    else
      var ev := evs[|evs| - 1];
      Hearings(evs[..|evs| - 1]) + if ev.Hello? then [Heard(ev.src, ev.at)] else []
  }

  lemma {:induction false} NeighboursAreHearings(lim: Limits, tx: bool, evs: seq<Event>)
    requires 0 < lim.queueHardMax
    ensures EngineAfter(lim, tx, evs).nbrs == TableAfter(Blank(NBR_TABLE_SIZE, ()), Hearings(evs))
  {
    if evs != [] {
      var f, ev := evs[..|evs| - 1], evs[|evs| - 1];
      NeighboursAreHearings(lim, tx, f);
      if ev.Hello? {
        assert (Hearings(f) + [Heard(ev.src, ev.at)])[..|Hearings(f)|] == Hearings(f);
      } else {
        assert Hearings(f) + [] == Hearings(f);
      }
    }
  }

  lemma {:induction false} HearingsInOrder(evs: seq<Event>, now: uint32)
    requires ProperRun(evs) && forall i :: 0 <= i < |evs| ==> evs[i].at <= now
    ensures InOrder(Hearings(evs)) && forall i :: 0 <= i < |Hearings(evs)| ==> Hearings(evs)[i].stamp <= now
  {
    if evs != [] {
      var f, ev := evs[..|evs| - 1], evs[|evs| - 1];
      forall i | 0 <= i < |f| ensures f[i].at <= ev.at {
        assert f[i] == evs[i];
      }
      HearingsInOrder(f, ev.at);
    }
  }

  /** The verdicts, with `known` still open: what is refused is dropped and counted. */
  lemma DecisionMeans(p: Policy, ptype: byte, dst: byte, rssi: int, dutyOk: bool, known: bool)
    ensures var d := Decide(p, ptype, dst, rssi, dutyOk, known);
            var open := p.mode != 0 && p.rssiFloor <= rssi && dutyOk;
            (d.RelayNow? <==> open && (p.mode == 1 || (p.mode == 4 && TypeAllowed(p.typeMask, ptype))
                                       || (2 <= p.mode <= 3 && (dst == 255 || known))))
            && (d.Refuse? <==> !open || (p.mode == 4 && !TypeAllowed(p.typeMask, ptype))
                               || (p.mode == 2 && dst != 255 && !known))
            && (d.Hold? <==> open && p.mode == 3 && dst != 255 && !known && ptype == 0x0A)
  {
  }

  /** After any run from power-on: in routed and in store-and-forward mode a packet
      that passes the gates is relayed exactly if it is for everyone, or for a node
      that the table still holds and that was last heard within ten minutes. */
  lemma RelaysToRecentlyHeard(lim: Limits, tx: bool, evs: seq<Event>, ptype: byte, dst: byte, rssi: int, dutyOk: bool,
                              now: uint32)
    requires 0 < lim.queueHardMax && ProperRun(evs) && forall i :: 0 <= i < |evs| ==> evs[i].at <= now
    requires 2 <= EngineAfter(lim, tx, evs).policy.mode <= 3
    requires EngineAfter(lim, tx, evs).policy.rssiFloor <= rssi && dutyOk
    ensures var e, m := EngineAfter(lim, tx, evs), MemoryAfter(Hearings(evs));
            Decide(e.policy, ptype, dst, rssi, dutyOk, Known(e.nbrs, dst, now)).RelayNow?
            <==> dst == 255 || (dst in m && Holds(e.nbrs, dst) && now - m[dst].stamp <= 600000)
  {
    var e := EngineAfter(lim, tx, evs);
    NeighboursAreHearings(lim, tx, evs);
    HearingsInOrder(evs, now);
    KnownIff(Hearings(evs), dst, now);
    DecisionMeans(e.policy, ptype, dst, rssi, dutyOk, Known(e.nbrs, dst, now));
  }

  /** A node heard within ten minutes with fewer than 32 others since is relayed to. */
  lemma RelaysToActiveNeighbour(lim: Limits, tx: bool, evs: seq<Event>, ptype: byte, dst: byte, rssi: int,
                                now: uint32)
    requires 0 < lim.queueHardMax && ProperRun(evs) && forall i :: 0 <= i < |evs| ==> evs[i].at <= now
    requires var p := EngineAfter(lim, tx, evs).policy; 1 <= p.mode <= 3 && p.rssiFloor <= rssi
    requires var m := MemoryAfter(Hearings(evs));
             dst in m && now - m[dst].stamp <= 600000
             && |set x | x in m && x != dst && m[dst].stamp <= m[x].stamp| < 32
    ensures var e := EngineAfter(lim, tx, evs);
            Decide(e.policy, ptype, dst, rssi, true, Known(e.nbrs, dst, now)).RelayNow?
  {
    NeighboursAreHearings(lim, tx, evs);
    HearingsInOrder(evs, now);
    RecentIsKnown(Hearings(evs), dst, now);
  }

  // ---- What one event does ----

  /** A collection drops exactly what is older than the policy's time to live. */
  lemma CollectDropsExpired(lim: Limits, tx: bool, e: Engine, at: uint32, x: SF.Item)
    requires e.nbrs != [] && SF.Consistent(e.queue)
    ensures var e' := Step(lim, tx, e, Collect(at));
            e'.policy == e.policy && e'.nbrs == e.nbrs && SF.Consistent(e'.queue)
            && SF.Held(e'.queue, x) == if Sub32(at, x.enqueuedAt) > e.policy.sfTtlS * 1000 % 0x1_0000_0000 then 0
                                       else SF.Held(e.queue, x)
  {
    SF.DropConserves(e.queue, SF.Expired(at, e.policy.sfTtlS * 1000 % UINT32), x);
  }

  /** A hello makes its sender known, and in store-and-forward mode with a transmitter
      exactly its sender's packets leave the queue. */
  lemma HelloFlushes(lim: Limits, tx: bool, e: Engine, src: byte, at: uint32, x: SF.Item)
    requires e.nbrs != [] && SF.Consistent(e.queue) && at != 0
    ensures var e' := Step(lim, tx, e, Hello(src, at));
            e'.policy == e.policy && Known(e'.nbrs, src, at) && SF.Consistent(e'.queue)
            && SF.Held(e'.queue, x) == if e.policy.mode == 3 && tx && x.dst == src then 0 else SF.Held(e.queue, x)
  {
    HeardIsKnown(e.nbrs, src, at);
    SF.DropConserves(e.queue, SF.ForDst(src), x);
    if 0 < SF.Held(e.queue, x) {
      HeldIsCounted(e.queue, x);
    }
  }

  /** A packet considered for relaying changes the queue only if it is a message for an
      unknown node in store-and-forward mode, past all gates: then it is held, and at
      the limit an oldest packet makes room. */
  lemma PresentHolds(lim: Limits, tx: bool, e: Engine, ev: Event, x: SF.Item)
    requires ev.Present? && e.nbrs != [] && SF.Consistent(e.queue) && ev.pkt != [] && ev.at < UINT32_MAX
    requires 0 < e.policy.sfQueueMax <= |e.queue.slots|
    ensures var e', p := Step(lim, tx, e, ev), e.policy;
            var held := p.mode == 3 && p.rssiFloor <= ev.rssi && ev.dutyOk && ev.dst != 255 && ev.ptype == 0x0A
                        && !Known(e.nbrs, ev.dst, ev.at);
            e'.policy == p && e'.nbrs == e.nbrs && (!held ==> e'.queue == e.queue)
            && (held ==> SF.Held(e'.queue, x) == SF.Held(e.queue, x) + SF.Bit(x == SF.Item(ev.dst, ev.at, ev.pkt))
                         - SF.Bit(p.sfQueueMax <= e.queue.depth && x == SF.Victim(e.queue)))
  {
    DecisionMeans(e.policy, ev.ptype, ev.dst, ev.rssi, ev.dutyOk, Known(e.nbrs, ev.dst, ev.at));
    SF.EnqueueConserves(e.queue, e.policy.sfQueueMax, SF.Item(ev.dst, ev.at, ev.pkt), x);
  }

  /** A control packet changes the policy as it asks, and no table. */
  lemma CtrlEnacts(lim: Limits, tx: bool, e: Engine, c: RelayCtrl, at: uint32)
    requires e.nbrs != [] && e.queue.slots != [] && c.mode <= 4
    ensures var e' := Step(lim, tx, e, Ctrl(c, at));
            Enacts(e'.policy, c, lim) && e'.nbrs == e.nbrs && e'.queue == e.queue
  {
    AppliedEnacts(e.policy, c, lim);
  }

  /** The queue holds nothing for a node that is, or will without being heard again
      be, a known neighbour. */
  ghost predicate NoneForKnown(e: Engine, now: uint32) {
    forall x, t: uint32 :: 0 < SF.Held(e.queue, x) && now <= t ==> !Known(e.nbrs, x.dst, t)
  }

  /** The tables have their sizes, the depth counts what is held, and nothing is
      held for a known neighbour. */
  ghost predicate Sound(lim: Limits, e: Engine, now: uint32) {
    |e.nbrs| == NBR_TABLE_SIZE && |e.queue.slots| == lim.queueHardMax && e.policy.sfQueueMax <= lim.queueHardMax
    && SF.Consistent(e.queue)
    && (forall i :: 0 <= i < |e.nbrs| ==> e.nbrs[i].stamp <= now)
    && NoneForKnown(e, now)
  }

  predicate ProperEvent(ev: Event) {
    ev.at != 0 && ev.at < UINT32_MAX && (ev.Present? ==> ev.pkt != [])
  }

  predicate HoldsFor(q: SF.Queue, dst: byte) {
    0 < SF.Count(q.slots, SF.ForDst(dst))
  }

  /** What has to be true before an event for it to do no harm: a packet is held only
      if the limit is not 0 or something is queued already, and a node is heard only
      while its packets would be flushed or none are held. */
  predicate Careful(tx: bool, e: Engine, ev: Event) {
    match ev
    case Present(_, _, _, _, _, _) => Holding(e, ev) ==> 0 < e.policy.sfQueueMax || 0 < e.queue.depth
    case Hello(src, _) => (e.policy.mode == MODE_STORE_FWD && tx) || !HoldsFor(e.queue, src)
    case Collect(_) => true
    case Ctrl(_, _) => true
  }

  /** Who is known later without being heard again is known now. */
  lemma KnownEarlier(nbrs: seq<NbrSlot>, id: byte, now: uint32, later: uint32)
    requires Known(nbrs, id, later) && now <= later
    requires forall i :: 0 <= i < |nbrs| ==> nbrs[i].stamp <= now
    ensures Known(nbrs, id, now)
  {
    var i :| 0 <= i < |nbrs| && FreshAt(nbrs[i], id, later);
    assert FreshAt(nbrs[i], id, now);
  }

  /** Hearing one node makes no other known. */
  lemma HearingIsLocal(nbrs: seq<NbrSlot>, src: byte, now: uint32, id: byte, t: uint32)
    requires nbrs != [] && id != src && Known(Put(nbrs, Heard(src, now)), id, t)
    ensures Known(nbrs, id, t)
  {
    var i :| 0 <= i < |nbrs| && FreshAt(Put(nbrs, Heard(src, now))[i], id, t);
    assert FreshAt(nbrs[i], id, t);
  }

  /** A destination with held packets is one some held packet names. */
  lemma HeldForWitness(q: SF.Queue, dst: byte) returns (x: SF.Item)
    requires HoldsFor(q, dst)
    ensures x.dst == dst && 0 < SF.Held(q, x)
  {
    var i := SF.CountedInSlot(q.slots, SF.ForDst(dst));
    x := SF.ItemOf(q.slots[i]);
    SF.CountUpdate(q.slots, i, q.slots[i], SF.Just(x));
  }

  lemma HeldIsCounted(q: SF.Queue, x: SF.Item)
    requires 0 < SF.Held(q, x)
    ensures HoldsFor(q, x.dst) && 0 < SF.Count(q.slots, SF.Any())
  {
    var i := SF.CountedInSlot(q.slots, SF.Just(x));
    SF.CountUpdate(q.slots, i, q.slots[i], SF.ForDst(x.dst));
    SF.CountUpdate(q.slots, i, q.slots[i], SF.Any());
  }

  lemma HeardIsKnown(nbrs: seq<NbrSlot>, src: byte, now: uint32)
    requires nbrs != [] && now != 0
    ensures Known(Put(nbrs, Heard(src, now)), src, now)
  {
    assert FreshAt(Put(nbrs, Heard(src, now))[SlotFor(nbrs, src)], src, now);
  }

  lemma PresentIsSoundIff(lim: Limits, tx: bool, e: Engine, ev: Event, before: uint32)
    requires Sound(lim, e, before) && ProperEvent(ev) && before <= ev.at && ev.Present?
    ensures Sound(lim, Step(lim, tx, e, ev), ev.at) <==> Careful(tx, e, ev)
  {
    if Holding(e, ev) {
      SF.DepthSurvivesIff(e.queue, e.policy.sfQueueMax, SF.Item(ev.dst, ev.at, ev.pkt));
      if Careful(tx, e, ev) {
        HoldingIsSound(lim, tx, e, ev, before);
      }
    }
  }

  lemma HoldingIsSound(lim: Limits, tx: bool, e: Engine, ev: Event, before: uint32)
    requires Sound(lim, e, before) && ProperEvent(ev) && before <= ev.at && ev.Present?
    requires Holding(e, ev) && Careful(tx, e, ev)
    ensures Sound(lim, Step(lim, tx, e, ev), ev.at)
  {
    var e', new' := Step(lim, tx, e, ev), SF.Item(ev.dst, ev.at, ev.pkt);
    SF.EnqueueConserves(e.queue, e.policy.sfQueueMax, new', new');
    forall x, t: uint32 | 0 < SF.Held(e'.queue, x) && ev.at <= t ensures !Known(e'.nbrs, x.dst, t) {
      SF.EnqueueConserves(e.queue, e.policy.sfQueueMax, new', x);
      if x == new' && Known(e.nbrs, ev.dst, t) {
        KnownEarlier(e.nbrs, ev.dst, ev.at, t);
      }
    }
  }

  lemma HelloIsSoundIff(lim: Limits, tx: bool, e: Engine, ev: Event, before: uint32)
    requires Sound(lim, e, before) && ProperEvent(ev) && before <= ev.at && ev.Hello?
    ensures Sound(lim, Step(lim, tx, e, ev), ev.at) <==> Careful(tx, e, ev)
  {
    var e' := Step(lim, tx, e, ev);
    SF.DropConserves(e.queue, SF.ForDst(ev.src), SF.Item(ev.src, ev.at, []));
    if Careful(tx, e, ev) {
      forall x, t: uint32 | 0 < SF.Held(e'.queue, x) && ev.at <= t ensures !Known(e'.nbrs, x.dst, t) {
        SF.DropConserves(e.queue, SF.ForDst(ev.src), x);
        HeldIsCounted(e.queue, x);
        if Known(e'.nbrs, x.dst, t) {
          HearingIsLocal(e.nbrs, ev.src, ev.at, x.dst, t);
        }
      }
    } else {
      var x := HeldForWitness(e.queue, ev.src);
      HeardIsKnown(e.nbrs, ev.src, ev.at);
      assert e'.queue == e.queue;
    }
  }

  lemma CollectIsSound(lim: Limits, tx: bool, e: Engine, ev: Event, before: uint32)
    requires Sound(lim, e, before) && ProperEvent(ev) && before <= ev.at && ev.Collect?
    ensures Sound(lim, Step(lim, tx, e, ev), ev.at)
  {
    var e', ttlMs: uint32 := Step(lim, tx, e, ev), e.policy.sfTtlS * 1000 % UINT32;
    SF.DropConserves(e.queue, SF.Expired(ev.at, ttlMs), SF.Item(0, 0, []));
    forall x, t: uint32 | 0 < SF.Held(e'.queue, x) && ev.at <= t ensures !Known(e'.nbrs, x.dst, t) {
      SF.DropConserves(e.queue, SF.Expired(ev.at, ttlMs), x);
    }
  }

  /** One event keeps the relay sound exactly when it was careful. Policy changes and
      collections always are. */
  lemma StepIsSoundIff(lim: Limits, tx: bool, e: Engine, ev: Event, before: uint32)
    requires Sound(lim, e, before) && ProperEvent(ev) && before <= ev.at
    ensures Sound(lim, Step(lim, tx, e, ev), ev.at) <==> Careful(tx, e, ev)
  {
    match ev
    case Present(_, _, _, _, _, _) => PresentIsSoundIff(lim, tx, e, ev, before);
    case Hello(_, _) => HelloIsSoundIff(lim, tx, e, ev, before);
    case Collect(_) => CollectIsSound(lim, tx, e, ev, before);
    case Ctrl(_, _) =>
  }

  ghost predicate ProperRun(evs: seq<Event>) {
    (forall i :: 0 <= i < |evs| ==> ProperEvent(evs[i]))
    && forall i, j :: 0 <= i < j < |evs| ==> evs[i].at <= evs[j].at
  }

  /** The clock after the first `k` events. */
  function Clock(evs: seq<Event>, k: nat): uint32
    requires k <= |evs|
  {
    if k == 0 then 0 else evs[k - 1].at
  }

  ghost predicate SoundAt(lim: Limits, tx: bool, evs: seq<Event>, k: nat)
    requires 0 < lim.queueHardMax && k <= |evs|
  {
    Sound(lim, EngineAfter(lim, tx, evs[..k]), Clock(evs, k))
  }

  predicate CarefulAt(lim: Limits, tx: bool, evs: seq<Event>, k: nat)
    requires 0 < lim.queueHardMax && k < |evs|
  {
    Careful(tx, EngineAfter(lim, tx, evs[..k]), evs[k])
  }

  lemma StartIsSound(lim: Limits)
    requires BOOT_POLICY.sfQueueMax <= lim.queueHardMax
    ensures Sound(lim, Started(lim), 0)
  {
    SF.EmptyHoldsNothing(lim.queueHardMax, SF.Any());
    forall x ensures SF.Held(SF.Empty(lim.queueHardMax), x) == 0 {
      SF.EmptyHoldsNothing(lim.queueHardMax, SF.Just(x));
    }
  }

  lemma NextIsSoundIff(lim: Limits, tx: bool, evs: seq<Event>, k: nat)
    requires 0 < lim.queueHardMax && ProperRun(evs) && k < |evs| && SoundAt(lim, tx, evs, k)
    ensures SoundAt(lim, tx, evs, k + 1) <==> CarefulAt(lim, tx, evs, k)
  {
    assert evs[..k + 1][..k] == evs[..k];
    StepIsSoundIff(lim, tx, EngineAfter(lim, tx, evs[..k]), evs[k], Clock(evs, k));
  }

  lemma {:induction false} SoundIffCareful(lim: Limits, tx: bool, evs: seq<Event>, n: nat)
    requires BOOT_POLICY.sfQueueMax <= lim.queueHardMax && ProperRun(evs) && n <= |evs|
    ensures (forall k: nat :: k <= n ==> SoundAt(lim, tx, evs, k))
            <==> forall k: nat :: k < n ==> CarefulAt(lim, tx, evs, k)
  {
    if n == 0 {
      StartIsSound(lim);
      assert evs[..0] == [];
    } else {
      SoundIffCareful(lim, tx, evs, n - 1);
      if SoundAt(lim, tx, evs, n - 1) {
        NextIsSoundIff(lim, tx, evs, n - 1);
      }
    }
  }

  /** Over every run from power-on, through every change of policy: at every moment
      the queue holds nothing for a neighbour the relay then knows and its depth
      counts what it holds, exactly when every event was careful. */
  lemma QueueOnlyForUnknown(lim: Limits, tx: bool, evs: seq<Event>)
    requires BOOT_POLICY.sfQueueMax <= lim.queueHardMax && ProperRun(evs)
    ensures (forall k: nat :: k <= |evs| ==> SoundAt(lim, tx, evs, k))
            <==> forall k: nat :: k < |evs| ==> CarefulAt(lim, tx, evs, k)
  {
    SoundIffCareful(lim, tx, evs, |evs|);
  }

  /** Whatever is held for a node is stranded when the policy leaves store-and-forward
      mode, the node is heard, and the mode comes back: it stays held although the
      node is known. */
  lemma PolicyChangeStrands(lim: Limits, tx: bool, e: Engine, d: byte, away: RelayCtrl, back: RelayCtrl,
                            t: uint32, u: uint32)
    returns (e': Engine)
    requires e.nbrs != [] && e.queue.slots != [] && HoldsFor(e.queue, d)
    requires away.mode <= MODE_SELECTIVE && away.mode != MODE_STORE_FWD && back.mode == MODE_STORE_FWD
    requires 0 < t <= u <= t + 600000
    ensures e' == Step(lim, tx, Step(lim, tx, Step(lim, tx, e, Ctrl(away, t)), Hello(d, t)), Ctrl(back, u))
    ensures e'.policy.mode == MODE_STORE_FWD && HoldsFor(e'.queue, d) && Known(e'.nbrs, d, u)
  {
    e' := Step(lim, tx, Step(lim, tx, Step(lim, tx, e, Ctrl(away, t)), Hello(d, t)), Ctrl(back, u));
    assert FreshAt(e'.nbrs[SlotFor(e.nbrs, d)], d, u);
  }

  /** Switched on and told to store and forward, a relay holds a message for a node
      it has not heard. */
  lemma HeldFromPowerOn(lim: Limits, tx: bool, store: RelayCtrl, pkt: seq<byte>)
    requires BOOT_POLICY.sfQueueMax <= lim.queueHardMax && pkt != []
    requires store == RelayCtrl(1, MODE_STORE_FWD, -128, 0, 0, 8, 1800, 1)
    ensures HoldsFor(EngineAfter(lim, tx, [Ctrl(store, 1), Present(PKT_MSG, 7, pkt, -60, true, 2)]).queue, 7)
  {
    var evs := [Ctrl(store, 1), Present(PKT_MSG, 7, pkt, -60, true, 2)];
    var e0 := Started(lim);
    var e1 := Step(lim, tx, e0, evs[0]);
    assert evs[..1][..0] == [] && EngineAfter(lim, tx, evs[..1]) == e1;
    assert Holding(e1, evs[1]);
    StartIsSound(lim);
    var x := SF.Item(7, 2, pkt);
    SF.EnqueueConserves(e0.queue, e1.policy.sfQueueMax, x, x);
    HeldIsCounted(EngineAfter(lim, tx, evs).queue, x);
  }

  lemma NextEngine(lim: Limits, tx: bool, evs: seq<Event>, ev: Event)
    requires 0 < lim.queueHardMax
    ensures EngineAfter(lim, tx, evs + [ev]) == Step(lim, tx, EngineAfter(lim, tx, evs), ev)
  {
    assert (evs + [ev])[..|evs|] == evs;
  }

  /** Such a run exists from power-on: hold a message for node 7, flood, hear node 7,
      store and forward again. */
  lemma StrandedFromPowerOn(lim: Limits, tx: bool, pkt: seq<byte>) returns (evs: seq<Event>)
    requires BOOT_POLICY.sfQueueMax <= lim.queueHardMax && pkt != []
    ensures ProperRun(evs) && |evs| == 5 && evs[1] == Present(PKT_MSG, 7, pkt, -60, true, 2)
    ensures var e := EngineAfter(lim, tx, evs);
            e.policy.mode == MODE_STORE_FWD && HoldsFor(e.queue, 7) && Known(e.nbrs, 7, 4)
  {
    var store := RelayCtrl(1, MODE_STORE_FWD, -128, 0, 0, 8, 1800, 1);
    var flood := RelayCtrl(2, MODE_FLOOD, -128, 0, 0, 8, 1800, 1);
    var first := [Ctrl(store, 1), Present(PKT_MSG, 7, pkt, -60, true, 2)];
    evs := first + [Ctrl(flood, 3)] + [Hello(7, 3)] + [Ctrl(store, 4)];
    HeldFromPowerOn(lim, tx, store, pkt);
    NextEngine(lim, tx, first, Ctrl(flood, 3));
    NextEngine(lim, tx, first + [Ctrl(flood, 3)], Hello(7, 3));
    NextEngine(lim, tx, first + [Ctrl(flood, 3)] + [Hello(7, 3)], Ctrl(store, 4));
    var e := PolicyChangeStrands(lim, tx, EngineAfter(lim, tx, first), 7, flood, store, 3, 4);
  }
}
