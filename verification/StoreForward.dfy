/** The store-and-forward queue: `sf_enqueue`, `sf_flush_for` and `sf_gc` in
    src/relay_control.cpp. The number of slots is SF_QUEUE_HARD_MAX. */
module StoreForward {
  import opened Common

  /** A slot; `len` 0 marks it free. */
  datatype SfEntry = SfEntry(dst: byte, enqueuedAt: uint32, len: nat, pkt: seq<byte>)

  /** A packet in the queue's care. */
  datatype Item = Item(dst: byte, enqueuedAt: uint32, pkt: seq<byte>)

  function Wrap16(x: int): uint16 {
    x % 0x1_0000
  }

  function ItemOf(e: SfEntry): Item {
    Item(e.dst, e.enqueuedAt, e.pkt)
  }

  datatype Queue = Queue(slots: seq<SfEntry>, depth: uint16)

  /** Whether a slot holds a packet the selection picks. */
  predicate Picks(e: SfEntry, p: Item -> bool) {
    e.len != 0 && p(ItemOf(e))
  }

  /** How many occupied slots the selection picks. */
  function Count(slots: seq<SfEntry>, p: Item -> bool): nat {
    if slots == [] then 0
    else Count(slots[..|slots| - 1], p) + if Picks(slots[|slots| - 1], p) then 1 else 0
  }

  function Any(): Item -> bool {
    (x: Item) => true
  }

  function Just(x: Item): Item -> bool {
    (y: Item) => y == x
  }

  /** How often a packet is held. */
  function Held(q: Queue, x: Item): nat {
    Count(q.slots, Just(x))
  }

  /** The counter tells the truth, and every stamp is below the scan's start value. */
  ghost predicate Consistent(q: Queue) {
    0 < |q.slots| < 0x1_0000 && q.depth == Count(q.slots, Any())
    && forall i :: 0 <= i < |q.slots| && q.slots[i].len != 0 ==> q.slots[i].enqueuedAt < UINT32_MAX
  }

  // ---- The operations ----

  /** The age an eviction scan sees; free slots are skipped. */
  function Stamp(e: SfEntry): uint32 {
    if e.len == 0 then UINT32_MAX else e.enqueuedAt
  }

  /** The first of the oldest packets among the first `n` slots. */
  function Oldest(slots: seq<SfEntry>, n: nat): (k: nat)
    requires 0 < n <= |slots|
    ensures k < n && forall j :: 0 <= j < n ==> Stamp(slots[k]) <= Stamp(slots[j])
    ensures forall j :: 0 <= j < k ==> Stamp(slots[k]) < Stamp(slots[j])
  {
    if n == 1 then 0
    else
      var k := Oldest(slots, n - 1);
      if Stamp(slots[n - 1]) < Stamp(slots[k]) then n - 1 else k
  }

  function FirstFree(slots: seq<SfEntry>, i: nat): (k: nat)
    requires i <= |slots|
    ensures i <= k <= |slots|
    ensures k < |slots| ==> slots[k].len == 0
    ensures forall j :: i <= j < k ==> slots[j].len != 0
    decreases |slots| - i
  {
    if i == |slots| || slots[i].len == 0 then i else FirstFree(slots, i + 1)
  }

  function Freed(e: SfEntry): SfEntry {
    e.(len := 0)
  }

  /** Room is made by dropping one oldest packet when the queue is at its limit. */
  function MadeRoom(q: Queue, queueMax: nat): Queue
    requires q.slots != []
  {
    if q.depth >= queueMax then
      var k := Oldest(q.slots, |q.slots|);
      Queue(q.slots[k := Freed(q.slots[k])], Wrap16(q.depth - 1))
    else q
  }

  function Stored(q: Queue, x: Item): Queue {
    var k := FirstFree(q.slots, 0);
    if k < |q.slots| then
      Queue(q.slots[k := SfEntry(x.dst, x.enqueuedAt, |x.pkt|, x.pkt)], Wrap16(q.depth + 1))
    else q
  }

  function Enqueued(q: Queue, queueMax: nat, x: Item): Queue
    requires q.slots != []
  {
    Stored(MadeRoom(q, queueMax), x)
  }

  /** Free every slot the selection picks. */
  function Drop(slots: seq<SfEntry>, p: Item -> bool): (r: seq<SfEntry>)
    ensures |r| == |slots|
    ensures forall i :: 0 <= i < |slots| ==> r[i] == if Picks(slots[i], p) then Freed(slots[i]) else slots[i]
  {
    seq(|slots|, i requires 0 <= i < |slots| => if Picks(slots[i], p) then Freed(slots[i]) else slots[i])
  }

  function Dropped(q: Queue, p: Item -> bool): Queue {
    Queue(Drop(q.slots, p), Wrap16(q.depth - Count(q.slots, p)))
  }

  function ForDst(dst: byte): Item -> bool {
    (x: Item) => x.dst == dst
  }

  function Expired(now: uint32, ttlMs: uint32): Item -> bool {
    (x: Item) => Sub32(now, x.enqueuedAt) > ttlMs
  }

  // ---- Bookkeeping ----

  function One(e: SfEntry, p: Item -> bool): nat {
    if Picks(e, p) then 1 else 0
  }

  lemma {:induction false} CountUpdate(slots: seq<SfEntry>, i: nat, e: SfEntry, p: Item -> bool)
    requires i < |slots|
    ensures One(slots[i], p) <= Count(slots, p)
    ensures Count(slots[i := e], p) == Count(slots, p) - One(slots[i], p) + One(e, p)
  {
    var n := |slots| - 1;
    if i < n {
      CountUpdate(slots[..n], i, e, p);
      assert slots[i := e][..n] == slots[..n][i := e];
    } else {
      assert slots[i := e][..n] == slots[..n];
    }
  }

  /** Either some slot is free, or every slot counts. */
  lemma {:induction false} FullCount(slots: seq<SfEntry>)
    ensures Count(slots, Any()) <= |slots|
    ensures FirstFree(slots, 0) == |slots| ==> Count(slots, Any()) == |slots|
  {
    if slots != [] {
      var n := |slots| - 1;
      FullCount(slots[..n]);
      if FirstFree(slots, 0) == |slots| {
        assert forall j :: 0 <= j < n ==> slots[..n][j] == slots[j] && slots[j].len != 0;
        assert FirstFree(slots[..n], 0) == n;
      }
    }
  }

  /** A positive count has a slot to show. */
  lemma {:induction false} CountedInSlot(slots: seq<SfEntry>, p: Item -> bool) returns (i: nat)
    requires 0 < Count(slots, p)
    ensures i < |slots| && Picks(slots[i], p)
  {
    var n := |slots| - 1;
    if Picks(slots[n], p) {
      i := n;
    } else {
      i := CountedInSlot(slots[..n], p);
    }
  }

  /** The packet an eviction would drop. */
  function Victim(q: Queue): Item
    requires q.slots != []
  {
    ItemOf(q.slots[Oldest(q.slots, |q.slots|)])
  }

  /** A consistent, non-empty queue gives up one held packet, older or as old as all others. */
  lemma EvictionTakesOldest(q: Queue)
    requires Consistent(q) && 0 < q.depth
    ensures q.slots[Oldest(q.slots, |q.slots|)].len != 0 && 0 < Held(q, Victim(q))
    ensures forall x :: 0 < Held(q, x) ==> Victim(q).enqueuedAt <= x.enqueuedAt
  {
    var k := Oldest(q.slots, |q.slots|);
    var i := CountedInSlot(q.slots, Any());
    assert Stamp(q.slots[k]) <= Stamp(q.slots[i]) < UINT32_MAX;
    CountUpdate(q.slots, k, q.slots[k], Just(Victim(q)));
    forall x | 0 < Held(q, x) ensures Victim(q).enqueuedAt <= x.enqueuedAt {
      var j := CountedInSlot(q.slots, Just(x));
      assert Stamp(q.slots[k]) <= Stamp(q.slots[j]);
    }
  }

  function Bit(b: bool): nat {
    if b then 1 else 0
  }

  /** Freeing the oldest slot loses exactly the victim. */
  lemma EvictionLosesVictim(q: Queue, queueMax: nat, x: Item)
    requires Consistent(q) && 0 < q.depth && queueMax <= q.depth
    ensures Consistent(MadeRoom(q, queueMax)) && MadeRoom(q, queueMax).depth == q.depth - 1
    ensures Held(MadeRoom(q, queueMax), x) == Held(q, x) - Bit(x == Victim(q))
  {
    EvictionTakesOldest(q);
    var k := Oldest(q.slots, |q.slots|);
    CountUpdate(q.slots, k, Freed(q.slots[k]), Any());
    CountUpdate(q.slots, k, Freed(q.slots[k]), Just(x));
  }

  /** Storing into a queue with a free slot adds exactly the packet. */
  lemma StoreAdds(q: Queue, new': Item, x: Item)
    requires Consistent(q) && q.depth < |q.slots| && new'.pkt != [] && new'.enqueuedAt < UINT32_MAX
    ensures Consistent(Stored(q, new')) && Stored(q, new').depth == q.depth + 1
    ensures |Stored(q, new').slots| == |q.slots|
    ensures Held(Stored(q, new'), x) == Held(q, x) + Bit(x == new')
  {
    FullCount(q.slots);
    var k := FirstFree(q.slots, 0);
    var e := SfEntry(new'.dst, new'.enqueuedAt, |new'.pkt|, new'.pkt);
    CountUpdate(q.slots, k, e, Any());
    CountUpdate(q.slots, k, e, Just(x));
  }

  /** Whether an enqueue evicts. */
  predicate Evicts(q: Queue, queueMax: nat) {
    q.depth >= queueMax
  }

  /** With a limit of at least 1, an enqueue always finds a slot: the new packet is
      held, and nothing is lost but the victim when the queue is at its limit. */
  lemma EnqueueConserves(q: Queue, queueMax: nat, new': Item, x: Item)
    requires Consistent(q) && new'.pkt != [] && new'.enqueuedAt < UINT32_MAX
    requires queueMax <= |q.slots| && (0 < queueMax || 0 < q.depth)
    ensures Consistent(Enqueued(q, queueMax, new')) && |Enqueued(q, queueMax, new').slots| == |q.slots|
    ensures Held(Enqueued(q, queueMax, new'), x)
            == Held(q, x) + Bit(x == new') - Bit(Evicts(q, queueMax) && x == Victim(q))
    ensures Enqueued(q, queueMax, new').depth == if Evicts(q, queueMax) then q.depth else q.depth + 1
  {
    FullCount(q.slots);
    if Evicts(q, queueMax) {
      EvictionLosesVictim(q, queueMax, x);
    }
    StoreAdds(MadeRoom(q, queueMax), new', x);
  }

  /** The counter survives an enqueue exactly unless the limit is 0 and nothing is
      queued: then the decrement has nothing to count. */
  lemma DepthSurvivesIff(q: Queue, queueMax: nat, new': Item)
    requires Consistent(q) && new'.pkt != [] && new'.enqueuedAt < UINT32_MAX && queueMax <= |q.slots|
    ensures Consistent(Enqueued(q, queueMax, new')) <==> !(queueMax == 0 && q.depth == 0)
  {
    if queueMax == 0 && q.depth == 0 {
      LimitZeroLosesCount(q, new');
    } else {
      EnqueueConserves(q, queueMax, new', new');
    }
  }

  /** The failing case: one packet is held, and the counter says none. */
  lemma LimitZeroLosesCount(q: Queue, new': Item)
    requires Consistent(q) && new'.pkt != [] && q.depth == 0
    ensures Enqueued(q, 0, new').depth == 0 && Count(Enqueued(q, 0, new').slots, Any()) == 1
  {
    var k := Oldest(q.slots, |q.slots|);
    CountUpdate(q.slots, k, Freed(q.slots[k]), Any());
    var room := MadeRoom(q, 0);
    assert room.depth == 0xFFFF && Count(room.slots, Any()) == 0;
    FullCount(room.slots);
    StoreWraps(room, new');
  }

  lemma StoreWraps(room: Queue, new': Item)
    requires room.depth == 0xFFFF && FirstFree(room.slots, 0) < |room.slots| && new'.pkt != []
    ensures Stored(room, new').depth == 0
    ensures Count(Stored(room, new').slots, Any()) == Count(room.slots, Any()) + 1
  {
    var f := FirstFree(room.slots, 0);
    CountUpdate(room.slots, f, SfEntry(new'.dst, new'.enqueuedAt, |new'.pkt|, new'.pkt), Any());
  }

  /** Dropping a selection removes precisely the selected packets, and counts them. */
  lemma {:induction false} DropCounts(slots: seq<SfEntry>, p: Item -> bool, x: Item)
    ensures Count(Drop(slots, p), Any()) == Count(slots, Any()) - Count(slots, p)
    ensures Count(Drop(slots, p), Just(x)) == if p(x) then 0 else Count(slots, Just(x))
  {
    if slots != [] {
      var n := |slots| - 1;
      DropCounts(slots[..n], p, x);
      assert Drop(slots, p)[..n] == Drop(slots[..n], p);
    }
  }

  lemma DropConserves(q: Queue, p: Item -> bool, x: Item)
    requires Consistent(q)
    ensures Consistent(Dropped(q, p)) && |Dropped(q, p).slots| == |q.slots|
    ensures Held(Dropped(q, p), x) == if p(x) then 0 else Held(q, x)
  {
    DropCounts(q.slots, p, x);
  }

  // ---- Runs ----

  datatype Op =
    | Enqueue(x: Item, queueMax: nat)
    | FlushFor(dst: byte, txSet: bool)
    | Gc(now: uint32, ttlMs: uint32)

  function Apply(q: Queue, op: Op): Queue
    requires q.slots != []
  {
    match op
    case Enqueue(x, queueMax) => Enqueued(q, queueMax, x)
    case FlushFor(dst, txSet) => if txSet then Dropped(q, ForDst(dst)) else q
    case Gc(now, ttlMs) => Dropped(q, Expired(now, ttlMs))
  }

  /** Packets of 12 to 240 bytes, a limit of at least 1, a clock below UINT32_MAX. */
  ghost predicate Proper(op: Op, n: nat) {
    op.Enqueue? ==> 12 <= |op.x.pkt| <= 240 && op.x.enqueuedAt < UINT32_MAX && 1 <= op.queueMax <= n
  }

  function Empty(n: nat): Queue {
    Queue(seq(n, i => SfEntry(0, 0, 0, [])), 0)
  }

  lemma {:induction false} EmptyHoldsNothing(n: nat, p: Item -> bool)
    ensures Count(Empty(n).slots, p) == 0
  {
    if n > 0 {
      EmptyHoldsNothing(n - 1, p);
      assert Empty(n).slots[..n - 1] == Empty(n - 1).slots;
    }
  }

  function QueueAfter(n: nat, ops: seq<Op>): (q: Queue)
    requires 0 < n
    ensures |q.slots| == n
  {
    if ops == [] then Empty(n) else Apply(QueueAfter(n, ops[..|ops| - 1]), ops[|ops| - 1])
  }

  /** What became of the packets `x` that were ever accepted. */
  datatype Ledger = Ledger(accepted: nat, flushed: nat, expired: nat, evicted: nat)

  /** The entries one operation makes, in a queue `q`. */
  function Entry(q: Queue, op: Op, x: Item, l: Ledger): Ledger
    requires q.slots != []
  {
    match op
    case Enqueue(new', queueMax) =>
      l.(accepted := l.accepted + Bit(x == new'),
         evicted := l.evicted + Bit(Evicts(q, queueMax) && x == Victim(q)))
    case FlushFor(dst, txSet) =>
      l.(flushed := l.flushed + if txSet && x.dst == dst then Held(q, x) else 0)
    case Gc(now, ttlMs) =>
      l.(expired := l.expired + if Sub32(now, x.enqueuedAt) > ttlMs then Held(q, x) else 0)
  }

  function LedgerAfter(n: nat, ops: seq<Op>, x: Item): Ledger
    requires 0 < n
  {
    if ops == [] then Ledger(0, 0, 0, 0)
    else
      var f := ops[..|ops| - 1];
      Entry(QueueAfter(n, f), ops[|ops| - 1], x, LedgerAfter(n, f, x))
  }

  lemma StepConserves(q: Queue, op: Op, x: Item, l: Ledger, l': Ledger)
    requires Consistent(q) && Proper(op, |q.slots|) && l' == Entry(q, op, x, l)
    requires l.accepted == Held(q, x) + l.flushed + l.expired + l.evicted
    ensures Consistent(Apply(q, op))
    ensures l'.accepted == Held(Apply(q, op), x) + l'.flushed + l'.expired + l'.evicted
  {
    match op
    case Enqueue(new', queueMax) => EnqueueConserves(q, queueMax, new', x);
    case FlushFor(dst, txSet) => DropConserves(q, ForDst(dst), x);
    case Gc(now, ttlMs) => DropConserves(q, Expired(now, ttlMs), x);
  }

  /** Conservation over every run: the depth is the number of occupied slots, and
      every accepted packet is exactly one of held, flushed, expired or evicted. */
  lemma {:induction false} RunConserves(n: nat, ops: seq<Op>, x: Item)
    requires 0 < n < 0x1_0000
    requires forall i :: 0 <= i < |ops| ==> Proper(ops[i], n)
    ensures Consistent(QueueAfter(n, ops))
    ensures var l := LedgerAfter(n, ops, x);
            l.accepted == Held(QueueAfter(n, ops), x) + l.flushed + l.expired + l.evicted
  {
    if ops == [] {
      EmptyHoldsNothing(n, Any());
      EmptyHoldsNothing(n, Just(x));
    } else {
      var f := ops[..|ops| - 1];
      RunConserves(n, f, x);
      StepConserves(QueueAfter(n, f), ops[|ops| - 1], x, LedgerAfter(n, f, x), LedgerAfter(n, ops, x));
    }
  }

  // ---- The tables in place ----

  /** A sweep over the slots that has come to `i`. */
  function Sweep(slots: seq<SfEntry>, p: Item -> bool, i: nat): (r: seq<SfEntry>)
    ensures |r| == |slots|
    ensures forall j :: 0 <= j < |slots| ==> r[j] == if j < i && Picks(slots[j], p) then Freed(slots[j]) else slots[j]
  {
    seq(|slots|, j requires 0 <= j < |slots| => if j < i && Picks(slots[j], p) then Freed(slots[j]) else slots[j])
  }

  lemma SweepStep(slots: seq<SfEntry>, p: Item -> bool, i: nat)
    requires i < |slots|
    ensures Sweep(slots, p, i)[i] == slots[i]
    ensures Sweep(slots, p, i + 1)
            == if Picks(slots[i], p) then Sweep(slots, p, i)[i := Freed(slots[i])] else Sweep(slots, p, i)
    ensures Count(slots[..i + 1], p) == Count(slots[..i], p) + One(slots[i], p)
  {
    assert slots[..i + 1][..i] == slots[..i];
  }

  lemma WrapStep(d: int, c: nat)
    ensures Wrap16(Wrap16(d - c) - 1) == Wrap16(d - (c + 1))
  {
  }

  lemma SweepEnds(slots: seq<SfEntry>, p: Item -> bool)
    ensures Sweep(slots, p, 0) == slots && Sweep(slots, p, |slots|) == Drop(slots, p)
    ensures slots[..|slots|] == slots && slots[..0] == []
  {
  }

  lemma {:induction false} TakenIsBounded(entries: seq<SfEntry>, dst: byte, txOk: seq<bool>, n: nat)
    requires n <= |entries| <= |txOk|
    ensures SfQueue.Taken(entries, dst, txOk, n) <= Count(entries[..n], ForDst(dst))
    ensures (forall i :: 0 <= i < n ==> txOk[i]) ==>
              SfQueue.Taken(entries, dst, txOk, n) == Count(entries[..n], ForDst(dst))
    ensures (forall i :: 0 <= i < n ==> !txOk[i]) ==> SfQueue.Taken(entries, dst, txOk, n) == 0
  {
    if 0 < n {
      TakenIsBounded(entries, dst, txOk, n - 1);
      assert entries[..n][..n - 1] == entries[..n - 1];
    }
  }

  class SfQueue {
    const slots: array<SfEntry>
    var depth: uint16
    var relayedCount: nat
    var droppedCount: nat

    ghost predicate Valid() {
      0 < slots.Length < 0x1_0000
    }

    ghost function Contents(): Queue
      reads this, slots
    {
      Queue(slots[..], depth)
    }

    constructor (hardMax: nat)
      requires 0 < hardMax < 0x1_0000
      ensures Valid() && fresh(slots) && slots.Length == hardMax
      ensures Contents() == Empty(hardMax) && relayedCount == droppedCount == 0
    {
      slots := new SfEntry[hardMax](i => SfEntry(0, 0, 0, []));
      depth, relayedCount, droppedCount := 0, 0, 0;
    }

    method FreeSlot(i: nat)
      requires i < slots.Length
      modifies this`depth, slots
      ensures slots[..] == old(slots[..])[i := Freed(old(slots[i]))]
      ensures depth == Wrap16(old(depth) - 1)
    {
      slots[i] := slots[i].(len := 0);
      depth := Wrap16(depth - 1);
    }

    method EvictOldest()
      requires Valid()
      modifies this`depth, slots
      ensures Contents() == Queue(old(slots[..])[Oldest(old(slots[..]), slots.Length) :=
                                    Freed(old(slots[..])[Oldest(old(slots[..]), slots.Length)])],
                                  Wrap16(old(depth) - 1))
    {
      var oldest: uint32 := UINT32_MAX;
      var idx := 0;
      var i := 0;
      while i < slots.Length
        invariant i <= slots.Length && idx < slots.Length
        invariant slots[..] == old(slots[..]) && depth == old(depth)
        invariant i == 0 ==> idx == 0 && oldest == UINT32_MAX
        invariant 0 < i ==> idx == Oldest(slots[..], i) && oldest == Stamp(slots[idx])
      {
        if slots[i].len != 0 {
          if slots[i].enqueuedAt < oldest {
            oldest := slots[i].enqueuedAt;
            idx := i;
          }
        }
        i := i + 1;
      }
      FreeSlot(idx);
    }

    method Enqueue(pkt: seq<byte>, dst: byte, queueMax: nat, now: uint32)
      requires Valid()
      modifies this`depth, slots
      ensures Contents() == Enqueued(old(Contents()), queueMax, Item(dst, now, pkt))
    {
      if depth >= queueMax {
        EvictOldest();
      }
      var i := 0;
      while i < slots.Length
        invariant i <= slots.Length
        invariant Contents() == MadeRoom(old(Contents()), queueMax)
        invariant FirstFree(slots[..], 0) == FirstFree(slots[..], i)
      {
        if slots[i].len == 0 {
          slots[i] := SfEntry(dst, now, |pkt|, pkt);
          depth := Wrap16(depth + 1);
          return;
        }
        i := i + 1;
      }
    }

    /** How many of the destination's packets among the first `n` the radio took. */
    static function Taken(entries: seq<SfEntry>, dst: byte, txOk: seq<bool>, n: nat): nat
      requires n <= |entries| <= |txOk|
    {
      if n == 0 then 0
      else Taken(entries, dst, txOk, n - 1) + Bit(Picks(entries[n - 1], ForDst(dst)) && txOk[n - 1])
    }

    /** How far a sweep that freed what `p` picks has come. */
    ghost predicate SweptTo(before: seq<SfEntry>, d0: int, p: Item -> bool, i: nat)
      requires i <= |before|
      reads this, slots
    {
      slots[..] == Sweep(before, p, i) && depth == Wrap16(d0 - Count(before[..i], p))
    }

    /** The body of the flush loop. */
    method FlushSlot(i: nat, dst: byte, ok: bool, ghost before: seq<SfEntry>, ghost d0: int)
      requires i < slots.Length == |before| && SweptTo(before, d0, ForDst(dst), i)
      modifies this`depth, this`relayedCount, slots
      ensures SweptTo(before, d0, ForDst(dst), i + 1)
      ensures relayedCount == old(relayedCount) + Bit(Picks(before[i], ForDst(dst)) && ok)
    {
      SweepStep(before, ForDst(dst), i);
      WrapStep(d0, Count(before[..i], ForDst(dst)));
      assert slots[i] == slots[..][i] == before[i];
      if slots[i].len == 0 {
        return;
      }
      if slots[i].dst != dst {
        return;
      }
      if ok {
        relayedCount := relayedCount + 1;
      }
      FreeSlot(i);
    }

    /** `txOk[i]` is what the transmit function answers for slot i. */
    method FlushFor(dst: byte, txSet: bool, txOk: seq<bool>)
      requires Valid() && |txOk| == slots.Length
      modifies this`depth, this`relayedCount, slots
      ensures Contents() == Apply(old(Contents()), Op.FlushFor(dst, txSet))
      ensures relayedCount == old(relayedCount)
                              + if txSet then Taken(old(slots[..]), dst, txOk, slots.Length) else 0
    {
      if !txSet {
        return;
      }
      ghost var before, d0, r0 := slots[..], depth, relayedCount;
      SweepEnds(before, ForDst(dst));
      var i := 0;
      while i < slots.Length
        invariant i <= slots.Length && SweptTo(before, d0, ForDst(dst), i)
        invariant relayedCount == r0 + Taken(before, dst, txOk, i)
      {
        FlushSlot(i, dst, txOk[i], before, d0);
        i := i + 1;
      }
    }

    /** The body of the collection loop. */
    method GcSlot(i: nat, now: uint32, ttlMs: uint32, ghost before: seq<SfEntry>, ghost d0: int)
      requires i < slots.Length == |before| && SweptTo(before, d0, Expired(now, ttlMs), i)
      modifies this`depth, this`droppedCount, slots
      ensures SweptTo(before, d0, Expired(now, ttlMs), i + 1)
      ensures droppedCount == old(droppedCount) + Bit(Picks(before[i], Expired(now, ttlMs)))
    {
      SweepStep(before, Expired(now, ttlMs), i);
      WrapStep(d0, Count(before[..i], Expired(now, ttlMs)));
      assert slots[i] == slots[..][i] == before[i];
      if slots[i].len == 0 {
        return;
      }
      if Sub32(now, slots[i].enqueuedAt) > ttlMs {
        FreeSlot(i);
        droppedCount := droppedCount + 1;
      }
    }

    method Gc(ttlSeconds: uint32, now: uint32)
      requires Valid()
      modifies this`depth, this`droppedCount, slots
      ensures Contents() == Apply(old(Contents()), Op.Gc(now, ttlSeconds * 1000 % UINT32))
      ensures droppedCount == old(droppedCount)
                              + Count(old(slots[..]), Expired(now, ttlSeconds * 1000 % UINT32))
    {
      var ttlMs: uint32 := ttlSeconds * 1000 % UINT32;
      ghost var before, d0 := slots[..], depth;
      SweepEnds(before, Expired(now, ttlMs));
      var i := 0;
      while i < slots.Length
        invariant i <= slots.Length && SweptTo(before, d0, Expired(now, ttlMs), i)
        invariant droppedCount == old(droppedCount) + Count(before[..i], Expired(now, ttlMs))
      {
        SweepStep(before, Expired(now, ttlMs), i);
        GcSlot(i, now, ttlMs, before, d0);
        i := i + 1;
      }
    }
  }
}
