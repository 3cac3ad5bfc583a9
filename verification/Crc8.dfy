/** The CRC of the serial link: `crc8` in protocol/protocol.py and src/main.cpp. */
module Crc8 {
  import opened Common
  import opened Gf2

  /** The generator x^8 + x^2 + x + 1, the header error control polynomial of
      ITU-T I.432.1 section 4.3.2. */
  const G: Poly := [true, false, false, false, false, false, true, true, true]

  /** One turn of the inner loop. */
  function Shift(r: bv8): bv8 {
    if r & 0x80 != 0 then (r << 1) ^ 0x07 else r << 1
  }

  function Shifts(r: bv8, n: nat): bv8 {
    if n == 0 then r else Shift(Shifts(r, n - 1))
  }

  function Octet(b: byte): bv8 {
    b as bv8
  }

  /** The register after the outer loop has consumed `data`. */
  function Register(data: seq<byte>): bv8 {
    if data == [] then 0
    else Shifts(Register(data[..|data| - 1]) ^ Octet(data[|data| - 1]), 8)
  }

  function Crc(data: seq<byte>): byte {
    Register(data) as byte
  }

  method ComputeCrc(data: seq<byte>) returns (crc: byte)
    ensures crc == Crc(data)
  {
    var r: bv8 := 0;
    for i := 0 to |data|
      invariant r == Register(data[..i])
    {
      r := r ^ Octet(data[i]);
      ghost var start := r;
      for k := 0 to 8
        invariant r == Shifts(start, k)
      {
        r := if r & 0x80 != 0 then (r << 1) ^ 0x07 else r << 1;
      }
      assert data[..i + 1][..i] == data[..i];
    }
    assert data[..|data|] == data;
    crc := r as byte;
  }

  /** The value that tells the generator: the byte 01 leaves x^2 + x + 1. */
  lemma KnownValues()
    ensures Crc([]) == 0x00 && Crc([0x01]) == 0x07 && Crc([0x80]) == 0x89
  {
    assert Register([0x01][..0]) == 0 && Register([0x80][..0]) == 0;
    KnownShifts();
  }

  lemma KnownShifts()
    ensures Shifts(0x01, 8) == 0x07 && Shifts(0x80, 8) == 0x89
  {
    assert Shifts(0x01, 1) == 0x02 && Shifts(0x01, 4) == 0x10 && Shifts(0x01, 7) == 0x80;
    assert Shifts(0x80, 1) == 0x07 && Shifts(0x80, 4) == 0x38 && Shifts(0x80, 6) == 0xE0;
  }

  // ---- Bytes as polynomials ----

  /** Bit `i` of a byte, 0 for the highest. */
  function BitAt(r: bv8, i: nat): bool {
    if i == 0 then r & 0x80 != 0 else if i == 1 then r & 0x40 != 0
    else if i == 2 then r & 0x20 != 0 else if i == 3 then r & 0x10 != 0
    else if i == 4 then r & 0x08 != 0 else if i == 5 then r & 0x04 != 0
    else if i == 6 then r & 0x02 != 0 else r & 0x01 != 0
  }

  function BitsOf(r: bv8): (p: Poly)
    ensures |p| == 8 && forall i :: 0 <= i < 8 ==> p[i] == BitAt(r, i)
  {
    seq(8, i requires 0 <= i < 8 => BitAt(r, i))
  }

  /** A byte string as a polynomial, first bit of the first byte highest. */
  function Bits(data: seq<byte>): (p: Poly)
    ensures |p| == 8 * |data|
  {
    if data == [] then [] else Bits(data[..|data| - 1]) + BitsOf(Octet(data[|data| - 1]))
  }

  lemma SameBits(r: bv8, r': bv8)
    requires forall i :: 0 <= i < 8 ==> BitAt(r, i) == BitAt(r', i)
    ensures r == r'
  {
    assert BitAt(r, 0) == BitAt(r', 0) && BitAt(r, 1) == BitAt(r', 1) && BitAt(r, 2) == BitAt(r', 2)
        && BitAt(r, 3) == BitAt(r', 3) && BitAt(r, 4) == BitAt(r', 4) && BitAt(r, 5) == BitAt(r', 5)
        && BitAt(r, 6) == BitAt(r', 6) && BitAt(r, 7) == BitAt(r', 7);
  }

  lemma BitsOfInjective(r: bv8, r': bv8)
    requires BitsOf(r) == BitsOf(r')
    ensures r == r'
  {
    assert forall i :: 0 <= i < 8 ==> BitAt(r, i) == BitsOf(r)[i] == BitsOf(r')[i] == BitAt(r', i);
    SameBits(r, r');
  }

  lemma OctetInjective(a: byte, b: byte)
    requires Octet(a) == Octet(b)
    ensures a == b
  {
    RoundTrip(a);
    RoundTrip(b);
  }

  lemma RoundTripModulo(x: int)
    requires 0 <= x < 256
    ensures (x as bv8) as int == x % 256
  {
  }

  lemma RoundTrip(x: int)
    requires 0 <= x < 256
    ensures (x as bv8) as int == x
  {
    RoundTripModulo(x);
    SmallModulo(x);
  }

  lemma SmallModulo(x: int)
    requires 0 <= x < 256
    ensures x % 256 == x
  {
  }

  // ---- The bit loop is the shift register of the generator ----

  lemma ShiftBits(r: bv8, i: nat)
    requires i < 8
    ensures BitAt(Shift(r), i) == ((if i < 7 then BitAt(r, i + 1) else false) != (BitAt(r, 0) && 5 <= i))
  {
  }

  lemma ShiftIsFeed(r: bv8)
    ensures BitsOf(Shift(r)) == Feed(BitsOf(r), false, G)
  {
    var p := BitsOf(r);
    forall i | 0 <= i < 8 ensures BitsOf(Shift(r))[i] == Feed(p, false, G)[i] {
      ShiftBits(r, i);
    }
  }

  lemma XorHighBits(a: bv8, b: bv8)
    ensures BitAt(a ^ b, 0) == (BitAt(a, 0) != BitAt(b, 0)) && BitAt(a ^ b, 1) == (BitAt(a, 1) != BitAt(b, 1))
    ensures BitAt(a ^ b, 2) == (BitAt(a, 2) != BitAt(b, 2)) && BitAt(a ^ b, 3) == (BitAt(a, 3) != BitAt(b, 3))
  {
  }

  lemma XorLowBits(a: bv8, b: bv8)
    ensures BitAt(a ^ b, 4) == (BitAt(a, 4) != BitAt(b, 4)) && BitAt(a ^ b, 5) == (BitAt(a, 5) != BitAt(b, 5))
    ensures BitAt(a ^ b, 6) == (BitAt(a, 6) != BitAt(b, 6)) && BitAt(a ^ b, 7) == (BitAt(a, 7) != BitAt(b, 7))
  {
  }

  lemma XorBit(a: bv8, b: bv8, i: nat)
    requires i < 8
    ensures BitAt(a ^ b, i) == (BitAt(a, i) != BitAt(b, i))
  {
    if i < 4 {
      XorHighBits(a, b);
      if i == 0 {} else if i == 1 {} else if i == 2 {}
    } else {
      XorLowBits(a, b);
      if i == 4 {} else if i == 5 {} else if i == 6 {}
    }
  }

  lemma XorIsAdd(a: bv8, b: bv8)
    ensures BitsOf(a ^ b) == Add(BitsOf(a), BitsOf(b))
  {
    forall i | 0 <= i < 8 ensures BitsOf(a ^ b)[i] == Add(BitsOf(a), BitsOf(b))[i] {
      XorBit(a, b, i);
    }
  }

  lemma {:induction false} ShiftsIsFeeds(r: bv8, n: nat)
    ensures BitsOf(Shifts(r, n)) == Feeds(BitsOf(r), n, G)
  {
    if n > 0 {
      ShiftsIsFeeds(r, n - 1);
      ShiftIsFeed(Shifts(r, n - 1));
    }
  }

  lemma ZeroBits()
    ensures BitsOf(0) == Zeros(8)
  {
  }

  lemma RemByte(x: Poly, w: Poly)
    requires |w| == 8
    ensures Rem(x + w, G) == Add(Feeds(Rem(x, G), 8, G), w)
  {
    RemAppend(x, w, G);
    assert Zeros(0) + w == w;
  }

  lemma RegisterStep(before: bv8, x: Poly, last: bv8)
    requires BitsOf(before) == Feeds(Rem(x, G), 8, G)
    ensures BitsOf(Shifts(before ^ last, 8)) == Feeds(Rem(x + BitsOf(last), G), 8, G)
  {
    XorIsAdd(before, last);
    RemByte(x, BitsOf(last));
    ShiftsIsFeeds(before ^ last, 8);
  }

  /** The byte loop computes the remainder with eight further clocks. */
  lemma {:induction false} RegisterIsRem(data: seq<byte>)
    ensures BitsOf(Register(data)) == Feeds(Rem(Bits(data), G), 8, G)
  {
    if data == [] {
      ZeroBits();
      FeedsOfZero(8, G);
    } else {
      RegisterIsRem(data[..|data| - 1]);
      RegisterStep(Register(data[..|data| - 1]), Bits(data[..|data| - 1]), Octet(data[|data| - 1]));
    }
  }

  // ---- What that means ----

  /** Adding a byte to the eight clocked coefficients that follow the data. */
  lemma RemWithByte(data: seq<byte>, w: Poly)
    requires |w| == 8
    ensures Rem(Bits(data) + w, G) == Add(BitsOf(Register(data)), w)
  {
    RegisterIsRem(data);
    RemByte(Bits(data), w);
  }

  lemma AddZeros(a: Poly)
    ensures Add(a, Zeros(|a|)) == a
  {
  }

  lemma AddIsZero(a: Poly, b: Poly)
    requires |a| == |b|
    ensures Add(a, b) == Zeros(|a|) <==> a == b
  {
    if Add(a, b) == Zeros(|a|) {
      forall i | 0 <= i < |a| ensures a[i] == b[i] {
        assert !Add(a, b)[i];
      }
    }
  }

  /** The CRC is the remainder of data * x^8 modulo G, and the only polynomial of
      degree below 8 that is. */
  lemma CrcIsRemainder(data: seq<byte>, q: Poly, r: bv8)
    requires |q| == 8 * |data| + 8
    ensures Divides(Zeros(8) + (Bits(data) + Zeros(8)), G, q, BitsOf(r))
            <==> (q == Quotient(Bits(data) + Zeros(8), G) && r == Register(data))
  {
    var p := Bits(data) + Zeros(8);
    RemWithByte(data, Zeros(8));
    AddZeros(BitsOf(Register(data)));
    RemDivides(p, G);
    if Divides(Zeros(8) + p, G, q, BitsOf(r)) {
      DivisionUnique(Zeros(8) + p, G, q, BitsOf(r), Quotient(p, G), Rem(p, G));
      BitsOfInjective(r, Register(data));
    }
  }

  lemma CrcOctet(data: seq<byte>)
    ensures Octet(Crc(data)) == Register(data)
  {
  }

  lemma BitsSnoc(data: seq<byte>, b: byte)
    ensures Bits(data + [b]) == Bits(data) + BitsOf(Octet(b))
  {
    assert (data + [b])[..|data|] == data;
  }

  /** A payload and CRC byte belong together exactly when, read as one polynomial,
      they are a multiple of G. */
  lemma AcceptedIffMultiple(data: seq<byte>, crc: byte)
    ensures crc == Crc(data) <==> Rem(Bits(data + [crc]), G) == Zeros(8)
  {
    var a, b := BitsOf(Register(data)), BitsOf(Octet(crc));
    BitsSnoc(data, crc);
    RemWithByte(data, b);
    CrcOctet(data);
    AddIsZero(a, b);
    if a == b {
      BitsOfInjective(Register(data), Octet(crc));
      OctetInjective(crc, Crc(data));
    }
  }

  /** On messages of equal length the CRC of a sum is the sum of the CRCs. */
  lemma CrcLinear(a: seq<byte>, b: seq<byte>, c: seq<byte>)
    requires |a| == |b| == |c| && Bits(c) == Add(Bits(a), Bits(b))
    ensures Register(c) == Register(a) ^ Register(b)
  {
    RegisterIsRem(a);
    RegisterIsRem(b);
    RegisterIsRem(c);
    RemLinear(Bits(a), Bits(b), G);
    FeedsLinear(Rem(Bits(a), G), Rem(Bits(b), G), 8, G);
    XorIsAdd(Register(a), Register(b));
    BitsOfInjective(Register(c), Register(a) ^ Register(b));
  }

  /** What was sent and what arrived, both accepted, differ by a multiple of G. */
  lemma UndetectedIsMultiple(data: seq<byte>, data': seq<byte>, crc': byte)
    requires |data'| == |data| && crc' == Crc(data')
    ensures Rem(Add(Bits(data + [Crc(data)]), Bits(data' + [crc'])), G) == Zeros(8)
  {
    AcceptedIffMultiple(data, Crc(data));
    AcceptedIffMultiple(data', crc');
    RemLinear(Bits(data + [Crc(data)]), Bits(data' + [crc']), G);
    assert Add(Zeros(8), Zeros(8)) == Zeros(8);
  }

  /** Any corruption confined to eight neighbouring bits of payload and CRC is rejected. */
  lemma BurstRejected(data: seq<byte>, data': seq<byte>, crc': byte, i: nat)
    requires |data'| == |data| && i + 8 <= 8 * |data| + 8
    requires Bits(data + [Crc(data)]) != Bits(data' + [crc'])
    requires forall k :: 0 <= k < 8 * |data| + 8 && !(i <= k < i + 8)
               ==> Bits(data + [Crc(data)])[k] == Bits(data' + [crc'])[k]
    ensures crc' != Crc(data')
  {
    if crc' == Crc(data') {
      var a, b := Bits(data + [Crc(data)]), Bits(data' + [crc']);
      UndetectedIsMultiple(data, data', crc');
      BurstOfDifference(a, b, i);
    }
  }

  lemma {:induction false} Difference(a: Poly, b: Poly) returns (k: nat)
    requires |a| == |b| && a != b
    ensures k < |a| && a[k] != b[k]
  {
    k := |a| - 1;
    if a[k] == b[k] {
      assert a == a[..k] + [a[k]] && b == b[..k] + [b[k]];
      k := Difference(a[..k], b[..k]);
    }
  }

  lemma BurstOfDifference(a: Poly, b: Poly, i: nat)
    requires |a| == |b| && i + 8 <= |a| && a != b
    requires forall k :: 0 <= k < |a| && !(i <= k < i + 8) ==> a[k] == b[k]
    ensures Rem(Add(a, b), G) != Zeros(8)
  {
    var e := Add(a, b);
    var w := e[i..i + 8];
    var j := |a| - i - 8;
    assert e == Zeros(i) + w + Zeros(j);
    var k := Difference(a, b);
    assert w[k - i];
    BurstIsNoMultiple(e, i, w, j, G);
  }

  /** Any odd number of flipped bits in payload and CRC is rejected. */
  lemma OddFlipsRejected(data: seq<byte>, data': seq<byte>, crc': byte)
    requires |data'| == |data|
    requires Odd(Add(Bits(data + [Crc(data)]), Bits(data' + [crc'])))
    ensures crc' != Crc(data')
  {
    if crc' == Crc(data') {
      UndetectedIsMultiple(data, data', crc');
      GeneratorIsEven();
      RemKeepsParity(Add(Bits(data + [Crc(data)]), Bits(data' + [crc'])), G);
      OddOfZeros(8);
    }
  }

  lemma GeneratorIsEven()
    ensures !Odd(G)
  {
    assert G[..8] == [true, false, false, false, false, false, true, true];
    assert G[..8][..7] == [true, false, false, false, false, false, true];
    assert G[..8][..7][..6] == [true] + Zeros(5);
    OddFromFront([true] + Zeros(5));
    assert ([true] + Zeros(5))[1..] == Zeros(5);
    OddOfZeros(5);
  }

  /** A single changed byte, in the payload or the CRC, is rejected. */
  lemma ByteChangeRejected(sent: seq<byte>, received: seq<byte>, at: nat)
    requires |received| == |sent| > 0 && at < |sent|
    requires sent[|sent| - 1] == Crc(sent[..|sent| - 1])
    requires received == sent[at := received[at]] && received[at] != sent[at]
    ensures received[|received| - 1] != Crc(received[..|received| - 1])
  {
    var data, data', crc' := sent[..|sent| - 1], received[..|sent| - 1], received[|sent| - 1];
    assert data + [Crc(data)] == sent && data' + [crc'] == received;
    BitsWithin(sent, received, at);
    BurstRejected(data, data', crc', 8 * at);
  }

  lemma {:induction false} BitsWithin(s: seq<byte>, t: seq<byte>, at: nat)
    requires |t| == |s| && at < |s| && t == s[at := t[at]] && t[at] != s[at]
    ensures Bits(s) != Bits(t)
    ensures forall k :: 0 <= k < 8 * |s| && !(8 * at <= k < 8 * at + 8) ==> Bits(s)[k] == Bits(t)[k]
  {
    var n := |s| - 1;
    var s', t' := BitsOf(Octet(s[n])), BitsOf(Octet(t[n]));
    if at == n {
      assert s[..n] == t[..n];
      if Bits(s) == Bits(t) {
        assert s' == Bits(s)[8 * n..] && t' == Bits(t)[8 * n..];
        BitsOfInjective(Octet(s[n]), Octet(t[n]));
        OctetInjective(s[n], t[n]);
      }
    } else {
      BitsWithin(s[..n], t[..n], at);
      assert Bits(s)[..8 * n] == Bits(s[..n]) && Bits(t)[..8 * n] == Bits(t[..n]);
    }
  }
}
