/** Recently heard neighbours: `remember_neighbour` and `neighbour_known` in
    src/relay_control.cpp. */
module Neighbours {
  import opened Common
  import opened LruTable

  const NBR_TABLE_SIZE := 32
  const NBR_TTL_MS: uint32 := 600000

  type NbrSlot = Slot<()>

  function Heard(id: byte, now: uint32): NbrSlot {
    Slot(id, now, ())
  }

  predicate FreshAt(s: NbrSlot, id: byte, now: uint32) {
    s.id == id && s.stamp != 0 && Sub32(now, s.stamp) <= NBR_TTL_MS
  }

  predicate Known(t: seq<NbrSlot>, id: byte, now: uint32) {
    exists i :: 0 <= i < |t| && FreshAt(t[i], id, now)
  }

  class NeighbourTable {
    const nbrs: array<NbrSlot>

    ghost predicate Valid() {
      nbrs.Length == NBR_TABLE_SIZE
    }

    constructor ()
      ensures Valid() && fresh(nbrs) && nbrs[..] == Blank(NBR_TABLE_SIZE, ())
    {
      nbrs := new NbrSlot[NBR_TABLE_SIZE](i => Slot(0, 0, ()));
    }

    method RememberNeighbour(id: byte, now: uint32)
      requires Valid()
      modifies nbrs
      ensures nbrs[..] == Put(old(nbrs[..]), Heard(id, now))
    {
      var slot := FindSlot(nbrs, id);
      nbrs[slot] := Slot(id, now, ());
    }

    method NeighbourKnown(id: byte, now: uint32) returns (known: bool)
      requires Valid()
      ensures known == Known(nbrs[..], id, now)
    {
      var i := 0;
      while i < nbrs.Length
        invariant i <= nbrs.Length
        invariant forall j :: 0 <= j < i ==> !FreshAt(nbrs[j], id, now)
      {
        if nbrs[i].id == id && nbrs[i].stamp != 0 && Sub32(now, nbrs[i].stamp) <= NBR_TTL_MS {
          assert FreshAt(nbrs[..][i], id, now);
          return true;
        }
        i := i + 1;
      }
      return false;
    }
  }

  /** After any run of hearings and a clock that has not gone back, a neighbour is
      known exactly when its slot survived and it was heard within the last ten minutes. */
  lemma KnownIff(heard: seq<NbrSlot>, id: byte, now: uint32)
    requires InOrder(heard) && forall i :: 0 <= i < |heard| ==> heard[i].stamp <= now
    ensures var t, m := TableAfter(Blank(NBR_TABLE_SIZE, ()), heard), MemoryAfter(heard);
            Known(t, id, now) <==> id in m && Holds(t, id) && now - m[id].stamp <= 600000
  {
    var t, m := TableAfter(Blank(NBR_TABLE_SIZE, ()), heard), MemoryAfter(heard);
    RunTracks(NBR_TABLE_SIZE, (), heard);
    if id in m {
      var i := MemoryIsPast(heard, id);
    }
    if id in m && Holds(t, id) && now - m[id].stamp <= 600000 {
      var i :| 0 <= i < |t| && t[i].stamp != 0 && t[i].id == id;
      assert FreshAt(t[i], id, now);
    }
  }

  /** A neighbour heard within ten minutes, with fewer than 32 others heard at or
      after it, is always known. */
  lemma RecentIsKnown(heard: seq<NbrSlot>, id: byte, now: uint32)
    requires InOrder(heard) && forall i :: 0 <= i < |heard| ==> heard[i].stamp <= now
    requires id in MemoryAfter(heard) && now - MemoryAfter(heard)[id].stamp <= 600000
    requires var m := MemoryAfter(heard);
             |set x | x in m && x != id && m[id].stamp <= m[x].stamp| < 32
    ensures Known(TableAfter(Blank(NBR_TABLE_SIZE, ()), heard), id, now)
  {
    RunTracks(NBR_TABLE_SIZE, (), heard);
    RecentIsHeld(TableAfter(Blank(NBR_TABLE_SIZE, ()), heard), MemoryAfter(heard), id);
    KnownIff(heard, id, now);
  }

  /** And no more can be promised: 32 others heard after a node, all of them within
      the ten minutes, push it out. */
  lemma CrowdPushesOut(heard: seq<NbrSlot>, now: uint32)
    requires InTurn(heard) && |heard| == 33 && heard[32].stamp <= now && now - heard[0].stamp <= 600000
    ensures !Known(TableAfter(Blank(NBR_TABLE_SIZE, ()), heard), heard[0].id, now)
  {
    FirstIsForgotten(NBR_TABLE_SIZE, (), heard);
  }

  /** What the memory of a run is: the latest hearing of each id. */
  lemma {:induction false} MemoryIsLatest(heard: seq<NbrSlot>, id: byte, i: nat)
    requires i < |heard| && heard[i].id == id
    requires forall j :: i < j < |heard| ==> heard[j].id != id
    ensures id in MemoryAfter(heard) && MemoryAfter(heard)[id] == heard[i]
  {
    if i < |heard| - 1 {
      MemoryIsLatest(heard[..|heard| - 1], id, i);
    }
  }
}
