/** Packets and table payloads: header, LINK and RT packing in protocol/protocol.py. */
module Codec {
  import opened Common

  const MAGIC: byte := 0xDA
  const VERSION: byte := 1
  const HEADER_SIZE := 12

  datatype Header = Header(src: byte, dst: byte, ptype: byte, hops: byte, ttl: byte, flags: byte, mid: uint16)

  datatype Packet = Packet(header: Header, payload: seq<byte>)

  function Lo(n: uint16): byte {
    n % 256
  }

  function Hi(n: uint16): byte {
    n / 256
  }

  function Join(lo: byte, hi: byte): uint16 {
    lo + 256 * hi
  }

  lemma JoinSplit(n: uint16, lo: byte, hi: byte)
    ensures Join(Lo(n), Hi(n)) == n
    ensures Lo(Join(lo, hi)) == lo && Hi(Join(lo, hi)) == hi
  {
  }

  function PackHeader(h: Header, len: uint16): (s: seq<byte>)
    ensures |s| == HEADER_SIZE
  {
    [MAGIC, VERSION, h.src, h.dst, h.ptype, h.hops, h.ttl, h.flags, Lo(h.mid), Hi(h.mid), Lo(len), Hi(len)]
  }

  /** A complete packet; None where packing a length over 16 bits raises. */
  function BuildPacket(p: Packet): Option<seq<byte>> {
    if |p.payload| < 0x1_0000 then Some(PackHeader(p.header, |p.payload|) + p.payload) else None
  }

  /** The packet at the front of a buffer; bytes after it are ignored. */
  function UnpackPacket(buf: seq<byte>): Option<Packet> {
    if |buf| < HEADER_SIZE then None
    else if buf[0] != MAGIC || buf[1] != VERSION then None
    else
      var len := Join(buf[10], buf[11]);
      if HEADER_SIZE + len > |buf| then None
      else Some(Packet(Header(buf[2], buf[3], buf[4], buf[5], buf[6], buf[7], Join(buf[8], buf[9])),
                       buf[HEADER_SIZE..HEADER_SIZE + len]))
  }

  /** Whatever was built is read back, whatever follows it. */
  lemma UnpackBuilt(p: Packet, rest: seq<byte>)
    requires BuildPacket(p).Some?
    ensures UnpackPacket(BuildPacket(p).value + rest) == Some(p)
  {
    JoinSplit(|p.payload|, 0, 0);
    JoinSplit(p.header.mid, 0, 0);
    var buf := BuildPacket(p).value + rest;
    assert buf[HEADER_SIZE..HEADER_SIZE + |p.payload|] == p.payload;
  }

  /** Whatever is read was built: the buffer starts with the packet's own encoding. */
  lemma UnpackedWasBuilt(buf: seq<byte>)
    requires UnpackPacket(buf).Some?
    ensures BuildPacket(UnpackPacket(buf).value).Some?
    ensures BuildPacket(UnpackPacket(buf).value).value <= buf
  {
    var p, len := UnpackPacket(buf).value, Join(buf[10], buf[11]);
    JoinSplit(len, buf[10], buf[11]);
    JoinSplit(p.header.mid, buf[8], buf[9]);
    assert PackHeader(p.header, len) == buf[..HEADER_SIZE];
    assert buf[..HEADER_SIZE] + buf[HEADER_SIZE..HEADER_SIZE + len] == buf[..HEADER_SIZE + len];
  }

  /** What is where in a packet; two-byte fields come low byte first. */
  lemma PacketLayout(p: Packet)
    requires |p.payload| < 0x1_0000
    ensures BuildPacket(p).Some? && |BuildPacket(p).value| == 12 + |p.payload|
    ensures var s, h := BuildPacket(p).value, p.header;
            s[0] == 0xDA && s[1] == 1 && s[2] == h.src && s[3] == h.dst && s[4] == h.ptype
            && s[5] == h.hops && s[6] == h.ttl && s[7] == h.flags && s[8] as int + 256 * (s[9] as int) == h.mid
            && s[10] as int + 256 * (s[11] as int) == |p.payload| && s[12..] == p.payload
  {
  }

  /** A buffer is refused exactly if it is shorter than a header or than its packet,
      or does not start with the magic number and the version. */
  lemma UnpackIff(buf: seq<byte>)
    ensures UnpackPacket(buf).Some?
            <==> 12 <= |buf| && buf[0] == 0xDA && buf[1] == 1 && 12 + buf[10] + 256 * buf[11] <= |buf|
  {
  }

  // ---- Three-byte entries ----

  datatype Triple = Triple(a: byte, b: byte, c: byte)

  function EncodeTriples(ts: seq<Triple>): (s: seq<byte>)
    ensures |s| == 3 * |ts|
  {
    if ts == [] then []
    else
      var t := ts[|ts| - 1];
      EncodeTriples(ts[..|ts| - 1]) + [t.a, t.b, t.c]
  }

  /** The first `k` entries from offset `off`. */
  function DecodeTriples(s: seq<byte>, off: nat, k: nat): (ts: seq<Triple>)
    requires off + 3 * k <= |s|
    ensures |ts| == k
    ensures forall i :: 0 <= i < k ==> ts[i] == Triple(s[off + 3 * i], s[off + 3 * i + 1], s[off + 3 * i + 2])
  {
    if k == 0 then []
    else
      var i := off + 3 * (k - 1);
      DecodeTriples(s, off, k - 1) + [Triple(s[i], s[i + 1], s[i + 2])]
  }

  /** The three bytes at `k` are the entry. */
  predicate EntryAt(s: seq<byte>, k: nat, t: Triple) {
    k + 2 < |s| && s[k] == t.a && s[k + 1] == t.b && s[k + 2] == t.c
  }

  /** Entries lie one after the other, three bytes each. */
  lemma {:induction false} EncodedAt(ts: seq<Triple>, i: nat)
    requires i < |ts|
    ensures EntryAt(EncodeTriples(ts), 3 * i, ts[i])
  {
    if i < |ts| - 1 {
      EncodedAt(ts[..|ts| - 1], i);
    }
  }

  lemma EntryWithin(s: seq<byte>, off: nat, e: seq<byte>, k: nat, t: Triple)
    requires off + |e| <= |s| && s[off..off + |e|] == e && EntryAt(e, k, t)
    ensures EntryAt(s, off + k, t)
  {
    assert s[off + k] == e[k] && s[off + k + 1] == e[k + 1] && s[off + k + 2] == e[k + 2];
  }

  /** Wherever the entries stand, they are found there ... */
  lemma EncodedWithin(s: seq<byte>, off: nat, ts: seq<Triple>, i: nat)
    requires i < |ts| && off + 3 * |ts| <= |s| && s[off..off + 3 * |ts|] == EncodeTriples(ts)
    ensures EntryAt(s, off + 3 * i, ts[i])
  {
    EncodedAt(ts, i);
    EntryWithin(s, off, EncodeTriples(ts), 3 * i, ts[i]);
  }

  /** ... and read back. */
  lemma DecodeEncoded(prefix: seq<byte>, ts: seq<Triple>, rest: seq<byte>)
    ensures DecodeTriples(prefix + EncodeTriples(ts) + rest, |prefix|, |ts|) == ts
  {
    var s := prefix + EncodeTriples(ts) + rest;
    var back := DecodeTriples(s, |prefix|, |ts|);
    assert s[|prefix|..|prefix| + 3 * |ts|] == EncodeTriples(ts);
    forall i | 0 <= i < |ts| ensures back[i] == ts[i] {
      EncodedWithin(s, |prefix|, ts, i);
    }
  }

  /** How many whole entries follow offset `off`: as many as announced and present. */
  function Available(s: seq<byte>, off: nat, announced: nat): (k: nat)
    requires off <= |s|
    ensures k <= announced && off + 3 * k <= |s|
    ensures k < announced ==> |s| < off + 3 * (k + 1)
  {
    if 3 * announced <= |s| - off then announced else (|s| - off) / 3
  }

  // ---- RT ----

  const MAX_RT := (MAX_PKT_SIZE - HEADER_SIZE - 2) / 3

  datatype RtRoute = RtRoute(nextHop: byte, hops: byte)

  datatype RtTable = RtTable(gateway: byte, routes: map<byte, RtRoute>)

  /** Entries in dictionary order, destination first. */
  function Limited<T>(items: seq<T>, limit: nat): seq<T> {
    if |items| <= limit then items else items[..limit]
  }

  /** A dictionary filled in order: later entries overwrite earlier ones. */
  function TableOf(ts: seq<Triple>): map<byte, RtRoute> {
    if ts == [] then map[]
    else
      var t := ts[|ts| - 1];
      TableOf(ts[..|ts| - 1])[t.a := RtRoute(t.b, t.c)]
  }

  function PackedRt(gateway: byte, items: seq<Triple>): seq<byte> {
    var kept := Limited(items, MAX_RT);
    [gateway, |kept|] + EncodeTriples(kept)
  }

  function UnpackedRt(payload: seq<byte>): Option<RtTable> {
    if |payload| < 2 then None
    else Some(RtTable(payload[0], TableOf(DecodeTriples(payload, 2, Available(payload, 2, payload[1])))))
  }

  lemma TableSnoc(ts: seq<Triple>, t: Triple)
    ensures TableOf(ts + [t]) == TableOf(ts)[t.a := RtRoute(t.b, t.c)]
  {
    assert (ts + [t])[..|ts|] == ts;
  }

  method PackRt(gateway: byte, items: seq<Triple>) returns (payload: seq<byte>)
    ensures payload == PackedRt(gateway, items)
  {
    var kept := if |items| <= MAX_RT then items else items[..MAX_RT];
    payload := [gateway, |kept|];
    for i := 0 to |kept|
      invariant payload == [gateway, |kept|] + EncodeTriples(kept[..i])
    {
      payload := payload + [kept[i].a, kept[i].b, kept[i].c];
      assert kept[..i + 1][..i] == kept[..i];
    }
    assert kept[..|kept|] == kept;
  }

  method UnpackRt(payload: seq<byte>) returns (table: Option<RtTable>)
    ensures table == UnpackedRt(payload)
  {
    if |payload| < 2 {
      return None;
    }
    var gateway, n := payload[0], payload[1];
    var routes: map<byte, RtRoute> := map[];
    var off: nat, i: nat := 2, 0;
    ghost var seen: seq<Triple> := [];
    ghost var k := Available(payload, 2, n);
    while i < n
      invariant i <= k <= n && off == 2 + 3 * i
      invariant seen == DecodeTriples(payload, 2, i) && routes == TableOf(seen)
      decreases n - i
    {
      if off + 3 > |payload| {
        break;
      }
      ghost var t := Triple(payload[off], payload[off + 1], payload[off + 2]);
      TableSnoc(seen, t);
      seen := seen + [t];
      routes := routes[payload[off] := RtRoute(payload[off + 1], payload[off + 2])];
      off := off + 3;
      i := i + 1;
    }
    return Some(RtTable(gateway, routes));
  }

  /** A packed table is read back as the dictionary of its first 75 routes. */
  lemma RtRoundTrip(gateway: byte, items: seq<Triple>)
    ensures UnpackedRt(PackedRt(gateway, items)) == Some(RtTable(gateway, TableOf(Limited(items, MAX_RT))))
  {
    var kept := Limited(items, MAX_RT);
    var payload := PackedRt(gateway, items);
    DecodeEncoded([gateway, |kept|], kept, []);
    AppendEmpty(payload);
  }

  /** What is where in an RT payload. */
  lemma RtLayout(gateway: byte, items: seq<Triple>)
    ensures var s, k := PackedRt(gateway, items), if |items| <= 75 then |items| else 75;
            |s| == 2 + 3 * k && s[0] == gateway && s[1] == k
            && forall i :: 0 <= i < k ==> EntryAt(s, 2 + 3 * i, items[i])
  {
    var s, kept := PackedRt(gateway, items), Limited(items, 75);
    assert s[2..2 + 3 * |kept|] == EncodeTriples(kept);
    forall i | 0 <= i < |kept| ensures EntryAt(s, 2 + 3 * i, items[i]) {
      EncodedWithin(s, 2, kept, i);
    }
  }

  /** For each destination the dictionary holds its last entry. */
  lemma {:induction false} LastEntryWins(ts: seq<Triple>, i: nat)
    requires i < |ts| && forall j :: i < j < |ts| ==> ts[j].a != ts[i].a
    ensures ts[i].a in TableOf(ts) && TableOf(ts)[ts[i].a] == RtRoute(ts[i].b, ts[i].c)
  {
    var n := |ts| - 1;
    if i < n {
      LastEntryWins(ts[..n], i);
      assert ts[n].a != ts[i].a;
    }
  }

  /** And it holds no other destinations than those that have an entry. */
  lemma {:induction false} KeysAreEntries(ts: seq<Triple>, d: byte)
    ensures d in TableOf(ts) <==> exists i :: 0 <= i < |ts| && ts[i].a == d
  {
    if ts != [] {
      var f, n := ts[..|ts| - 1], |ts| - 1;
      KeysAreEntries(f, d);
      if i :| 0 <= i < |f| && f[i].a == d {
        assert ts[i].a == d;
      }
      if i :| 0 <= i < |ts| && ts[i].a == d {
        assert i < n ==> f[i].a == d;
      }
    }
  }

  /** What reading means for any payload: refused below two bytes, else the gateway
      first, then as many whole entries as announced and present, the last of each
      destination counting. */
  lemma RtReads(payload: seq<byte>)
    ensures UnpackedRt(payload).None? <==> |payload| < 2
    ensures 2 <= |payload| ==>
              var t, n := UnpackedRt(payload).value, Available(payload, 2, payload[1]);
              t.gateway == payload[0]
              && (forall i :: 0 <= i < n && LastOf(payload, 2, n, i) ==>
                    payload[2 + 3 * i] in t.routes
                    && t.routes[payload[2 + 3 * i]] == RtRoute(payload[3 + 3 * i], payload[4 + 3 * i]))
              && (forall d :: d in t.routes <==> exists i :: 0 <= i < n && payload[2 + 3 * i] == d)
  {
    if 2 <= |payload| {
      var n := Available(payload, 2, payload[1]);
      var ts := DecodeTriples(payload, 2, n);
      assert UnpackedRt(payload).value.routes == TableOf(ts);
      forall i | 0 <= i < n && LastOf(payload, 2, n, i)
        ensures ts[i].a in TableOf(ts) && TableOf(ts)[ts[i].a] == RtRoute(payload[3 + 3 * i], payload[4 + 3 * i])
      {
        assert forall j :: i < j < n ==> ts[j].a == payload[2 + 3 * j];
        LastEntryWins(ts, i);
      }
      forall d ensures d in TableOf(ts) <==> exists i :: 0 <= i < n && payload[2 + 3 * i] == d {
        KeysAreEntries(ts, d);
        if i :| 0 <= i < n && payload[2 + 3 * i] == d {
          assert ts[i].a == d;
        }
      }
    }
  }

  /** No later entry starts with the same byte. */
  ghost predicate LastOf(s: seq<byte>, off: nat, n: nat, i: nat)
    requires off + 3 * n <= |s| && i < n
  {
    forall j :: i < j < n ==> s[off + 3 * j] != s[off + 3 * i]
  }

  ghost predicate DistinctKeys(ts: seq<Triple>) {
    forall i, j :: 0 <= i < j < |ts| ==> ts[i].a != ts[j].a
  }

  /** With distinct destinations the dictionary holds exactly the entries. */
  lemma TableHoldsEntries(ts: seq<Triple>)
    requires DistinctKeys(ts)
    ensures forall i :: 0 <= i < |ts| ==> ts[i].a in TableOf(ts) && TableOf(ts)[ts[i].a] == RtRoute(ts[i].b, ts[i].c)
    ensures forall d :: d in TableOf(ts) ==> exists i :: 0 <= i < |ts| && ts[i].a == d
  {
    forall i | 0 <= i < |ts|
      ensures ts[i].a in TableOf(ts) && TableOf(ts)[ts[i].a] == RtRoute(ts[i].b, ts[i].c)
    {
      LastEntryWins(ts, i);
    }
    forall d | d in TableOf(ts) ensures exists i :: 0 <= i < |ts| && ts[i].a == d {
      KeysAreEntries(ts, d);
    }
  }

  // ---- LINK ----

  const MAX_LINK := (MAX_PKT_SIZE - HEADER_SIZE - 1) / 3

  datatype Neighbour = Neighbour(id: byte, rssi: int, snr: int)

  function Clamp(x: int): (r: int)
    ensures -128 <= r <= 127
    ensures -128 <= x <= 127 ==> r == x
    ensures x < -128 ==> r == -128
    ensures 127 < x ==> r == 127
  {
    if x < -128 then -128 else if 127 < x then 127 else x
  }

  /** A signed byte on the wire. */
  function ToSigned(b: byte): int {
    if b < 128 then b else b - 256
  }

  function FromSigned(x: int): byte
    requires -128 <= x <= 127
  {
    if x < 0 then x + 256 else x
  }

  function NeighbourTriple(n: Neighbour): Triple {
    Triple(n.id, FromSigned(Clamp(n.rssi)), FromSigned(Clamp(n.snr)))
  }

  function TripleNeighbour(t: Triple): Neighbour {
    Neighbour(t.a, ToSigned(t.b), ToSigned(t.c))
  }

  function MapSeq<T, U>(f: T -> U, s: seq<T>): (r: seq<U>)
    ensures |r| == |s| && forall i :: 0 <= i < |s| ==> r[i] == f(s[i])
  {
    seq(|s|, i requires 0 <= i < |s| => f(s[i]))
  }

  function PackedLink(ns: seq<Neighbour>): seq<byte> {
    var kept := Limited(ns, MAX_LINK);
    [|kept|] + EncodeTriples(MapSeq(NeighbourTriple, kept))
  }

  function UnpackedLink(payload: seq<byte>): Option<seq<Neighbour>> {
    if |payload| < 1 then None
    else Some(MapSeq(TripleNeighbour, DecodeTriples(payload, 1, Available(payload, 1, payload[0]))))
  }

  method PackLink(ns: seq<Neighbour>) returns (payload: seq<byte>)
    ensures payload == PackedLink(ns)
  {
    var kept := if |ns| <= MAX_LINK then ns else ns[..MAX_LINK];
    ghost var ts := MapSeq(NeighbourTriple, kept);
    payload := [|kept|];
    for i := 0 to |kept|
      invariant payload == [|kept|] + EncodeTriples(ts[..i])
    {
      var rssi, snr := Clamp(kept[i].rssi), Clamp(kept[i].snr);
      payload := payload + [kept[i].id, FromSigned(rssi), FromSigned(snr)];
      assert ts[..i + 1][..i] == ts[..i];
    }
    assert ts[..|ts|] == ts;
  }

  method UnpackLink(payload: seq<byte>) returns (ns: Option<seq<Neighbour>>)
    ensures ns == UnpackedLink(payload)
  {
    if |payload| < 1 {
      return None;
    }
    var n := payload[0];
    var out: seq<Neighbour> := [];
    var off: nat, i: nat := 1, 0;
    ghost var k := Available(payload, 1, n);
    while i < n
      invariant i <= k <= n && off == 1 + 3 * i
      invariant out == MapSeq(TripleNeighbour, DecodeTriples(payload, 1, i))
      decreases n - i
    {
      if off + 3 > |payload| {
        break;
      }
      out := out + [Neighbour(payload[off], ToSigned(payload[off + 1]), ToSigned(payload[off + 2]))];
      off := off + 3;
      i := i + 1;
    }
    return Some(out);
  }

  lemma TwosComplement(x: int)
    requires -128 <= x <= 127
    ensures FromSigned(x) == x % 256
  {
  }

  /** What is where in a LINK payload; signed values are in two's complement. */
  lemma LinkLayout(ns: seq<Neighbour>)
    ensures var s, k := PackedLink(ns), if |ns| <= 75 then |ns| else 75;
            |s| == 1 + 3 * k && s[0] == k
            && forall i :: 0 <= i < k ==>
                 EntryAt(s, 1 + 3 * i, Triple(ns[i].id, Clamp(ns[i].rssi) % 256, Clamp(ns[i].snr) % 256))
  {
    var s, kept := PackedLink(ns), Limited(ns, 75);
    var ts := MapSeq(NeighbourTriple, kept);
    assert s[1..1 + 3 * |ts|] == EncodeTriples(ts);
    forall i | 0 <= i < |kept|
      ensures EntryAt(s, 1 + 3 * i, Triple(ns[i].id, Clamp(ns[i].rssi) % 256, Clamp(ns[i].snr) % 256))
    {
      EncodedWithin(s, 1, ts, i);
      TwosComplement(Clamp(ns[i].rssi));
      TwosComplement(Clamp(ns[i].snr));
    }
  }

  /** What reading means for any payload: refused if empty, else as many whole
      entries as announced and present, in order. */
  lemma LinkReads(payload: seq<byte>)
    ensures UnpackedLink(payload).None? <==> payload == []
    ensures payload != [] ==>
              var ns := UnpackedLink(payload).value;
              |ns| == Available(payload, 1, payload[0])
              && forall i :: 0 <= i < |ns| ==>
                   ns[i].id == payload[1 + 3 * i] && -128 <= ns[i].rssi < 128 && -128 <= ns[i].snr < 128
                   && ns[i].rssi % 256 == payload[2 + 3 * i] && ns[i].snr % 256 == payload[3 + 3 * i]
  {
  }

  /** A reported neighbour list comes back in order, at most 75 entries, with
      signal values clamped to signed bytes. */
  lemma LinkRoundTrip(ns: seq<Neighbour>)
    ensures UnpackedLink(PackedLink(ns)) == Some(MapSeq(Clamped, Limited(ns, MAX_LINK)))
  {
    var kept := Limited(ns, MAX_LINK);
    var ts := MapSeq(NeighbourTriple, kept);
    DecodeEncoded([|kept|], ts, []);
    AppendEmpty(PackedLink(ns));
    var back := MapSeq(TripleNeighbour, ts);
    forall i | 0 <= i < |kept| ensures back[i] == Clamped(kept[i]) {
      SignedRoundTrip(Clamp(kept[i].rssi));
      SignedRoundTrip(Clamp(kept[i].snr));
    }
    assert back == MapSeq(Clamped, kept);
  }

  function Clamped(n: Neighbour): Neighbour {
    Neighbour(n.id, Clamp(n.rssi), Clamp(n.snr))
  }

  lemma SignedRoundTrip(x: int)
    requires -128 <= x <= 127
    ensures ToSigned(FromSigned(x)) == x
  {
  }
}
