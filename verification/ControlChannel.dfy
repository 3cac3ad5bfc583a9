/** The control protocol end to end: an administrator with a state file, a network
    that loses, repeats, reorders and carries other traffic, and a relay. */
module ControlChannel {
  import opened Common
  import RelayAdmin
  import opened RelayControl

  /** Packet i carries the i-th nonce the administrator handed out. */
  ghost predicate Issued(packets: seq<CtrlPacket>, emitted: seq<uint32>, src: byte) {
    |packets| == |emitted|
    && forall i :: 0 <= i < |packets| ==>
         packets[i].src == src && packets[i].ctrl.nonce == emitted[i] && packets[i].ctrl.mode <= RELAY_MODE_SELECTIVE
  }

  /** Which issued packet each genuine delivery is; anything else may arrive too:
      other traffic, packets for other relays, forgeries. */
  ghost predicate Arrivals(ds: seq<Delivery>, packets: seq<CtrlPacket>, which: seq<nat>, myId: byte) {
    |which| == |ds|
    && forall k :: 0 <= k < |ds| && Genuine(ds[k].packet, myId) ==>
         which[k] < |packets| && ds[k].packet == packets[which[k]] && ds[k].at != 0
  }

  lemma IssuedIsOneAdmin(ds: seq<Delivery>, packets: seq<CtrlPacket>, which: seq<nat>, emitted: seq<uint32>,
                         myId: byte, src: byte)
    requires Issued(packets, emitted, src) && RelayAdmin.Increasing(emitted) && Arrivals(ds, packets, which, myId)
    ensures OneAdmin(ds, myId, src)
  {
    forall i, j | 0 <= i < |ds| && 0 <= j < |ds| && SameNonce(ds[i].packet, ds[j].packet, myId)
      ensures ds[i].packet.ctrl == ds[j].packet.ctrl
    {
      assert emitted[which[i]] == emitted[which[j]];
      assert which[i] == which[j];
    }
  }

  /** Whatever the administrator's restarts and crashes, and whatever the network
      loses, repeats, reorders or mixes in, the relay does what the most recently
      issued of the packets that reached it and were meant for it asks for. */
  lemma LastIssuedWins(file: Option<nat>, clock: nat, ops: seq<RelayAdmin.Op>, packets: seq<CtrlPacket>, src: byte,
                       policy: Policy, myId: byte, lim: Limits, ds: seq<Delivery>, which: seq<nat>, last: nat)
    requires RelayAdmin.NoWrap(RelayAdmin.AdminAfter(RelayAdmin.Started(true, file, clock), ops))
    requires Issued(packets, RelayAdmin.Emitted(RelayAdmin.Started(true, file, clock), ops), src)
    requires Arrivals(ds, packets, which, myId)
    requires last < |ds| && Genuine(ds[last].packet, myId)
    requires forall k :: 0 <= k < |ds| && Genuine(ds[k].packet, myId) ==> which[k] <= which[last]
    ensures Enacts(RelayAfter(policy, myId, lim, ds).policy, ds[last].packet.ctrl, lim)
    ensures RelayAfter(policy, myId, lim, ds).policy == Applied(policy, ds[last].packet.ctrl, lim)
  {
    var start := RelayAdmin.Started(true, file, clock);
    var emitted := RelayAdmin.Emitted(start, ops);
    RelayAdmin.StartedInSync(file, clock);
    RelayAdmin.NoncesIncrease(start, ops);
    IssuedIsOneAdmin(ds, packets, which, emitted, myId, src);
    var c := LatestWins(policy, myId, lim, ds, src);
    var i :| 0 <= i < |ds| && Genuine(ds[i].packet, myId) && ds[i].packet.ctrl == c;
    assert emitted[which[i]] == c.nonce && emitted[which[last]] <= c.nonce;
    assert which[i] == which[last];
  }
}
