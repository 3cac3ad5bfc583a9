/** The fixed-size tables of src/relay_control.cpp that remember the most recent
    ids: neighbours, and nonces by source. A slot with stamp 0 is empty. */
module LruTable {
  import opened Common

  datatype Slot<V> = Slot(id: byte, stamp: uint32, value: V)

  predicate Hit<V>(s: Slot<V>, id: byte) {
    s.id == id || s.stamp == 0
  }

  /** The first slot at or after `i` that holds the id or is empty; |t| if none. */
  function FirstHit<V>(t: seq<Slot<V>>, id: byte, i: nat): (k: nat)
    requires i <= |t|
    ensures i <= k <= |t|
    ensures k < |t| ==> Hit(t[k], id)
    ensures forall j :: i <= j < k ==> !Hit(t[j], id)
    decreases |t| - i
  {
    if i == |t| || Hit(t[i], id) then i else FirstHit(t, id, i + 1)
  }

  /** The first of the least recent slots among the first `n`. */
  function Oldest<V>(t: seq<Slot<V>>, n: nat): (k: nat)
    requires 0 < n <= |t|
    ensures k < n && forall j :: 0 <= j < n ==> t[k].stamp <= t[j].stamp
    ensures forall j :: 0 <= j < k ==> t[k].stamp < t[j].stamp
  {
    if n == 1 then 0
    else
      var k := Oldest(t, n - 1);
      if t[n - 1].stamp < t[k].stamp then n - 1 else k
  }

  /** Where an id goes: its own slot, else the first empty one, else the oldest. */
  function SlotFor<V>(t: seq<Slot<V>>, id: byte): (k: nat)
    requires t != []
    ensures k < |t|
  {
    var k := FirstHit(t, id, 0);
    if k < |t| then k else Oldest(t, |t|)
  }

  function Put<V>(t: seq<Slot<V>>, s: Slot<V>): (t': seq<Slot<V>>)
    requires t != []
    ensures |t'| == |t|
  {
    t[SlotFor(t, s.id) := s]
  }

  /** The scanning loop both tables share. */
  method FindSlot<V>(a: array<Slot<V>>, id: byte) returns (slot: nat)
    requires 0 < a.Length
    ensures slot == SlotFor(a[..], id)
  {
    var oldest: uint32 := UINT32_MAX;
    var oldestSlot := 0;
    var i := 0;
    while i < a.Length
      invariant i <= a.Length && oldestSlot < a.Length
      invariant FirstHit(a[..], id, 0) == FirstHit(a[..], id, i)
      invariant 0 < i ==> oldestSlot == Oldest(a[..], i) && oldest == a[oldestSlot].stamp
      invariant i == 0 ==> oldestSlot == 0 && oldest == UINT32_MAX
    {
      if a[i].id == id {
        return i;
      }
      if a[i].stamp == 0 {
        return i;
      }
      if a[i].stamp < oldest {
        oldest := a[i].stamp;
        oldestSlot := i;
      }
      i := i + 1;
    }
    return oldestSlot;
  }

  // ---- The table is a bounded view of an unbounded memory ----

  /** For every id ever put, the latest slot contents. */
  type Memory<V> = map<byte, Slot<V>>

  predicate Holds<V>(t: seq<Slot<V>>, id: byte) {
    exists i :: 0 <= i < |t| && t[i].stamp != 0 && t[i].id == id
  }

  predicate Full<V>(t: seq<Slot<V>>) {
    forall i :: 0 <= i < |t| ==> t[i].stamp != 0
  }

  /** Occupied slots come first, hold distinct ids and their latest contents; what
      is no longer held is no more recent than anything held in a full table. */
  ghost predicate Tracks<V>(t: seq<Slot<V>>, m: Memory<V>) {
    (forall i, j :: 0 <= i < j < |t| && t[j].stamp != 0 ==> t[i].stamp != 0 && t[i].id != t[j].id)
    && (forall i :: 0 <= i < |t| && t[i].stamp != 0 ==> t[i].id in m && m[t[i].id] == t[i])
    && (forall id :: id in m ==> m[id].stamp != 0)
    && (forall id :: id in m && !Holds(t, id) ==>
          forall i :: 0 <= i < |t| ==> t[i].stamp != 0 && m[id].stamp <= t[i].stamp)
  }

  lemma HeldAt<V>(t: seq<Slot<V>>, k: nat)
    requires k < |t| && t[k].stamp != 0
    ensures Holds(t, t[k].id)
  {
  }

  /** An id that is held is hit at its own slot. */
  lemma SlotOfHeld<V>(t: seq<Slot<V>>, m: Memory<V>, id: byte)
    requires Tracks(t, m) && t != []
    ensures Holds(t, id) ==> t[SlotFor(t, id)].id == id && t[SlotFor(t, id)].stamp != 0
    ensures !Holds(t, id) && t[SlotFor(t, id)].stamp != 0
            ==> Full(t) && forall i :: 0 <= i < |t| ==> t[SlotFor(t, id)].stamp <= t[i].stamp
  {
    var k := FirstHit(t, id, 0);
    if Holds(t, id) {
      var i :| 0 <= i < |t| && t[i].stamp != 0 && t[i].id == id;
      assert k <= i;
      assert t[k].stamp != 0;
    }
  }

  /** Putting the most recent contents keeps the table a faithful view. */
  lemma PutTracks<V>(t: seq<Slot<V>>, m: Memory<V>, s: Slot<V>)
    requires Tracks(t, m) && t != [] && s.stamp != 0
    requires forall id :: id in m ==> m[id].stamp <= s.stamp
    ensures Tracks(Put(t, s), m[s.id := s])
  {
    var k, t', m' := SlotFor(t, s.id), Put(t, s), m[s.id := s];
    SlotOfHeld(t, m, s.id);
    assert t' == t[k := s];
    PutPlacesOnce(t, m, s, k);
    forall id | id in m' && !Holds(t', id)
      ensures forall i :: 0 <= i < |t'| ==> t'[i].stamp != 0 && m'[id].stamp <= t'[i].stamp
    {
      HeldAt(t', k);
      assert id != s.id;
      ForgottenIsOld(t, m, s, k, t', id);
    }
  }

  lemma PutPlacesOnce<V>(t: seq<Slot<V>>, m: Memory<V>, s: Slot<V>, k: nat)
    requires Tracks(t, m) && t != [] && s.stamp != 0 && k == SlotFor(t, s.id)
    ensures var t' := t[k := s];
            forall i, j :: 0 <= i < j < |t'| && t'[j].stamp != 0 ==> t'[i].stamp != 0 && t'[i].id != t'[j].id
  {
    var t' := t[k := s];
    SlotOfHeld(t, m, s.id);
    forall i, j | 0 <= i < j < |t'| && t'[j].stamp != 0
      ensures t'[i].stamp != 0 && t'[i].id != t'[j].id
    {
      if j == k {
        assert i < FirstHit(t, s.id, 0);
        assert !Hit(t[i], s.id);
      }
    }
  }

  lemma ForgottenIsOld<V>(t: seq<Slot<V>>, m: Memory<V>, s: Slot<V>, k: nat, t': seq<Slot<V>>, id: byte)
    requires Tracks(t, m) && t != [] && s.stamp != 0 && k == SlotFor(t, s.id) && t' == t[k := s]
    requires forall x :: x in m ==> m[x].stamp <= s.stamp
    requires id in m && id != s.id && !Holds(t', id)
    ensures forall i :: 0 <= i < |t'| ==> t'[i].stamp != 0 && m[id].stamp <= t'[i].stamp
  {
    SlotOfHeld(t, m, s.id);
    if Holds(t, id) {
      var i :| 0 <= i < |t| && t[i].stamp != 0 && t[i].id == id;
      assert t'[i] == t[i] || i == k;
    }
  }

  /** An id is still held unless as many others as the table has slots have been
      put since: those held are others, distinct, and no older. */
  lemma RecentIsHeld<V>(t: seq<Slot<V>>, m: Memory<V>, id: byte)
    requires Tracks(t, m) && id in m
    requires |set x | x in m && x != id && m[id].stamp <= m[x].stamp| < |t|
    ensures Holds(t, id)
  {
    if !Holds(t, id) {
      var others := set x | x in m && x != id && m[id].stamp <= m[x].stamp;
      var ids := seq(|t|, i requires 0 <= i < |t| => t[i].id);
      forall i | 0 <= i < |t| ensures ids[i] in others {
        HeldAt(t, i);
      }
      DistinctCardinality(ids);
      SubsetCardinality((set x | x in ids), others);
      assert false;
    }
  }

  /** With no more ids than slots, nothing is ever forgotten. */
  lemma FewIdsAreHeld<V>(t: seq<Slot<V>>, m: Memory<V>)
    requires Tracks(t, m) && |m| <= |t|
    ensures forall id :: id in m ==> Holds(t, id)
  {
    forall id | id in m ensures Holds(t, id) {
      var others := set x | x in m && x != id && m[id].stamp <= m[x].stamp;
      SubsetCardinality(others + {id}, m.Keys);
      assert |others + {id}| == |others| + 1 && |m.Keys| == |m|;
      RecentIsHeld(t, m, id);
    }
  }

  // ---- Runs ----

  function Blank<V>(n: nat, v: V): (t: seq<Slot<V>>)
    ensures |t| == n && forall i :: 0 <= i < n ==> t[i] == Slot(0, 0, v)
  {
    seq(n, i => Slot(0, 0, v))
  }

  /** Stamps are nonzero and never decrease. */
  ghost predicate InOrder<V>(puts: seq<Slot<V>>) {
    (forall i :: 0 <= i < |puts| ==> puts[i].stamp != 0)
    && forall i, j :: 0 <= i < j < |puts| ==> puts[i].stamp <= puts[j].stamp
  }

  function TableAfter<V>(t: seq<Slot<V>>, puts: seq<Slot<V>>): (t': seq<Slot<V>>)
    requires t != []
    ensures |t'| == |t|
  {
    if puts == [] then t else Put(TableAfter(t, puts[..|puts| - 1]), puts[|puts| - 1])
  }

  function MemoryAfter<V>(puts: seq<Slot<V>>): Memory<V> {
    if puts == [] then map[]
    else MemoryAfter(puts[..|puts| - 1])[puts[|puts| - 1].id := puts[|puts| - 1]]
  }

  /** What is remembered of an id was once put. */
  lemma {:induction false} MemoryIsPast<V>(puts: seq<Slot<V>>, id: byte) returns (i: nat)
    requires id in MemoryAfter(puts)
    ensures i < |puts| && puts[i] == MemoryAfter(puts)[id]
  {
    i := |puts| - 1;
    if id != puts[i].id {
      i := MemoryIsPast(puts[..i], id);
    }
  }

  /** Over every run from a blank table. */
  lemma {:induction false} RunTracks<V>(n: nat, v: V, puts: seq<Slot<V>>)
    requires 0 < n && InOrder(puts)
    ensures Tracks(TableAfter(Blank(n, v), puts), MemoryAfter(puts))
  {
    if puts != [] {
      var f, s := puts[..|puts| - 1], puts[|puts| - 1];
      RunTracks(n, v, f);
      forall id | id in MemoryAfter(f) ensures MemoryAfter(f)[id].stamp <= s.stamp {
        var i := MemoryIsPast(f, id);
      }
      PutTracks(TableAfter(Blank(n, v), f), MemoryAfter(f), s);
    }
  }

  // ---- How little it takes to be forgotten ----

  /** Different ids at strictly later and later times. */
  ghost predicate InTurn<V>(puts: seq<Slot<V>>) {
    (forall i :: 0 <= i < |puts| ==> 0 < puts[i].stamp)
    && forall i, j :: 0 <= i < j < |puts| ==> puts[i].id != puts[j].id && puts[i].stamp < puts[j].stamp
  }

  /** New ids fill the table from the front. */
  lemma {:induction false} TurnsFill<V>(n: nat, v: V, puts: seq<Slot<V>>)
    requires 0 < n && InTurn(puts) && |puts| <= n
    ensures forall i :: 0 <= i < n ==>
              TableAfter(Blank(n, v), puts)[i] == if i < |puts| then puts[i] else Slot(0, 0, v)
  {
    if puts != [] {
      var k := |puts| - 1;
      TurnsFill(n, v, puts[..k]);
      NextFreeSlot(TableAfter(Blank(n, v), puts[..k]), puts, k);
    }
  }

  lemma NextFreeSlot<V>(t: seq<Slot<V>>, puts: seq<Slot<V>>, k: nat)
    requires k < |puts| && k < |t| && InTurn(puts)
    requires forall i :: 0 <= i < k ==> t[i] == puts[i]
    requires t[k].stamp == 0
    ensures SlotFor(t, puts[k].id) == k
  {
    assert Hit(t[k], puts[k].id);
    assert FirstHit(t, puts[k].id, 0) == k;
  }

  /** One id more than the table has slots, in turn: the first one is forgotten. */
  lemma FirstIsForgotten<V>(n: nat, v: V, puts: seq<Slot<V>>)
    requires 0 < n && InTurn(puts) && |puts| == n + 1
    ensures !Holds(TableAfter(Blank(n, v), puts), puts[0].id)
  {
    TurnsFill(n, v, puts[..n]);
    var before := TableAfter(Blank(n, v), puts[..n]);
    assert forall i :: 0 <= i < n ==> before[i] == puts[i];
    assert FirstHit(before, puts[n].id, 0) == n;
    assert Oldest(before, n) == 0;
    assert TableAfter(Blank(n, v), puts) == before[0 := puts[n]];
  }
}
