/** The serial link's frames and the state machine that recovers them from a byte
    stream: `FrameParser` in protocol/protocol.py and `processSerialByte` in src/main.cpp. */
module Frames {
  import opened Common
  import opened Crc8

  const START_1: byte := 0xAA
  const START_2: byte := 0x55

  datatype Frame = Frame(ftype: byte, payload: seq<byte>)

  /** AA 55 <type> <len_lo> <len_hi> <payload> <crc>. */
  function Encode(f: Frame): (s: seq<byte>)
    ensures |s| == |f.payload| + 6
  {
    Header(f.ftype, |f.payload|) + f.payload + [Crc(f.payload)]
  }

  function Header(ftype: byte, n: nat): (s: seq<byte>)
    ensures |s| == 5
  {
    [START_1, START_2, ftype, n % 256, n / 256 % 256]
  }

  /** What is where in a frame. */
  lemma EncodeLayout(f: Frame)
    requires |f.payload| < 0x1_0000
    ensures var s := Encode(f);
            s[0] == 0xAA && s[1] == 0x55 && s[2] == f.ftype && s[3] as int + 256 * (s[4] as int) == |f.payload|
            && s[5..|s| - 1] == f.payload && s[|s| - 1] == Crc(f.payload)
  {
  }

  /** The two parsers differ in their length limit, and in whether a second AA
      keeps them waiting for the 55. */
  datatype Variant = Variant(maxLen: nat, resync: bool)

  datatype State =
    | Wait1
    | Wait2
    | Type
    | LenLo(ftype: byte)
    | LenHi(ftype: byte, lo: byte)
    | Payload(ftype: byte, len: nat, buf: seq<byte>)
    | Checksum(ftype: byte, buf: seq<byte>)

  predicate Valid(v: Variant, st: State) {
    (st.Payload? ==> |st.buf| < st.len <= v.maxLen && st.len < 0x1_0000)
    && (st.Checksum? ==> |st.buf| <= v.maxLen && |st.buf| < 0x1_0000)
  }

  function Next(v: Variant, st: State, b: byte): State {
    match st
    case Wait1 => if b == START_1 then Wait2 else Wait1
    case Wait2 =>
      if b == START_2 then Type
      else if v.resync && b == START_1 then Wait2
      else Wait1
    case Type => LenLo(b)
    case LenLo(t) => LenHi(t, b)
    case LenHi(t, lo) =>
      var n := lo + 256 * b;
      if n > v.maxLen then Wait1
      else if n == 0 then Checksum(t, [])
      else Payload(t, n, [])
    case Payload(t, n, buf) =>
      if |buf| + 1 >= n then Checksum(t, buf + [b]) else Payload(t, n, buf + [b])
    case Checksum(_, _) => Wait1
  }

  function Emits(st: State, b: byte): Option<Frame> {
    if st.Checksum? && b == Crc(st.buf) then Some(Frame(st.ftype, st.buf)) else None
  }

  /** The state after a byte string. */
  function After(v: Variant, st: State, s: seq<byte>): State {
    if s == [] then st else Next(v, After(v, st, s[..|s| - 1]), s[|s| - 1])
  }

  function AsSeq<T>(o: Option<T>): seq<T> {
    if o.Some? then [o.value] else []
  }

  /** The frames emitted over a byte string. */
  function Out(v: Variant, st: State, s: seq<byte>): seq<Frame> {
    if s == [] then []
    else Out(v, st, s[..|s| - 1]) + AsSeq(Emits(After(v, st, s[..|s| - 1]), s[|s| - 1]))
  }

  lemma {:induction false} ValidAfter(v: Variant, st: State, s: seq<byte>)
    requires Valid(v, st)
    ensures Valid(v, After(v, st, s))
  {
    if s != [] {
      ValidAfter(v, st, s[..|s| - 1]);
    }
  }

  lemma Snoc(v: Variant, st: State, s: seq<byte>, b: byte)
    ensures After(v, st, s + [b]) == Next(v, After(v, st, s), b)
    ensures Out(v, st, s + [b]) == Out(v, st, s) + AsSeq(Emits(After(v, st, s), b))
  {
    assert (s + [b])[..|s|] == s;
  }

  lemma {:induction false} AfterAppend(v: Variant, st: State, a: seq<byte>, b: seq<byte>)
    ensures After(v, st, a + b) == After(v, After(v, st, a), b)
  {
    if b == [] {
      assert a + b == a;
    } else {
      var f := b[..|b| - 1];
      AfterAppend(v, st, a, f);
      assert (a + b)[..|a + b| - 1] == a + f && (a + b)[|a + b| - 1] == b[|b| - 1];
    }
  }

  /** Cutting a stream into chunks changes nothing. */
  lemma {:induction false} RunAppend(v: Variant, st: State, a: seq<byte>, b: seq<byte>)
    ensures After(v, st, a + b) == After(v, After(v, st, a), b)
    ensures Out(v, st, a + b) == Out(v, st, a) + Out(v, After(v, st, a), b)
  {
    AfterAppend(v, st, a, b);
    if b == [] {
      assert a + b == a;
    } else {
      var f := b[..|b| - 1];
      RunAppend(v, st, a, f);
      assert (a + b)[..|a + b| - 1] == a + f && (a + b)[|a + b| - 1] == b[|b| - 1];
      var last := AsSeq(Emits(After(v, st, a + f), b[|b| - 1]));
      assert Out(v, st, a + b) == (Out(v, st, a) + Out(v, After(v, st, a), f)) + last;
      assert Out(v, After(v, st, a), b) == Out(v, After(v, st, a), f) + last;
    }
  }

  // ---- Soundness: what is emitted was on the wire ----

  /** The bytes of the frame under way. */
  function Pending(st: State): seq<byte> {
    match st
    case Wait1 => []
    case Wait2 => [START_1]
    case Type => [START_1, START_2]
    case LenLo(t) => [START_1, START_2, t]
    case LenHi(t, lo) => [START_1, START_2, t, lo]
    case Payload(t, n, buf) => Header(t, n) + buf
    case Checksum(t, buf) => Header(t, |buf|) + buf
  }

  lemma LengthBytes(lo: byte, hi: byte)
    ensures (lo + 256 * hi) % 256 == lo && (lo + 256 * hi) / 256 % 256 == hi
  {
  }

  ghost predicate Extends(p: seq<byte>, b: byte, p': seq<byte>) {
    p' == p + [b] || p' == [] || (p' == [START_1] && b == START_1)
  }

  /** A byte extends what is pending, restarts it, or drops it. */
  lemma PendingStep(v: Variant, st: State, b: byte)
    requires Valid(v, st)
    ensures Extends(Pending(st), b, Pending(Next(v, st, b)))
  {
    match st
    case LenHi(t, lo) =>
      LengthBytes(lo, b);
      assert Header(t, lo + 256 * b) == Pending(st) + [b];
    case Payload(t, n, buf) =>
      assert Header(t, n) + (buf + [b]) == Pending(st) + [b];
    case _ =>
  }

  lemma EmissionStep(v: Variant, st: State, b: byte)
    requires Emits(st, b).Some?
    ensures Pending(st) + [b] == Encode(Emits(st, b).value) && Next(v, st, b) == Wait1
  {
  }

  /** Gaps and frames in turn: gap 0, frame 0, gap 1, ..., last gap. */
  function Weave(gaps: seq<seq<byte>>, frames: seq<Frame>): seq<byte>
    requires |gaps| == |frames| + 1
  {
    if frames == [] then gaps[0]
    else
      Weave(gaps[..|gaps| - 1], frames[..|frames| - 1]) + Encode(frames[|frames| - 1]) + gaps[|gaps| - 1]
  }

  lemma WeaveLastGap(before: seq<seq<byte>>, h: seq<byte>, t: seq<byte>, frames: seq<Frame>)
    requires |before| == |frames|
    ensures Weave(before + [h + t], frames) == Weave(before + [h], frames) + t
  {
    assert (before + [h + t])[..|before|] == before == (before + [h])[..|before|];
  }

  lemma WeaveFrame(gaps: seq<seq<byte>>, frames: seq<Frame>, f: Frame, g: seq<byte>)
    requires |gaps| == |frames| + 1
    ensures Weave(gaps + [g], frames + [f]) == Weave(gaps, frames) + Encode(f) + g
  {
    assert (gaps + [g])[..|gaps|] == gaps && (frames + [f])[..|frames|] == frames;
  }

  /** The stream so far: woven from the emitted frames, what is pending last. */
  ghost predicate Explains(v: Variant, s: seq<byte>, gaps: seq<seq<byte>>, last: seq<byte>) {
    |gaps| == |Out(v, Wait1, s)|
    && s == Weave(gaps + [last], Out(v, Wait1, s)) + Pending(After(v, Wait1, s))
  }

  lemma ExplainEmission(v: Variant, s: seq<byte>, b: byte, gaps: seq<seq<byte>>, last: seq<byte>)
    requires Explains(v, s, gaps, last) && Emits(After(v, Wait1, s), b).Some?
    ensures Explains(v, s + [b], gaps + [last], [])
  {
    var st, frames := After(v, Wait1, s), Out(v, Wait1, s);
    var w := Weave(gaps + [last], frames);
    Snoc(v, Wait1, s, b);
    EmissionStep(v, st, b);
    WeaveFrame(gaps + [last], frames, Emits(st, b).value, []);
    AppendAssoc(w, Pending(st), [b]);
    AppendEmpty(w + (Pending(st) + [b]));
  }

  lemma ExplainSilence(v: Variant, s: seq<byte>, b: byte, gaps: seq<seq<byte>>, last: seq<byte>)
    returns (last': seq<byte>)
    requires Explains(v, s, gaps, last) && Valid(v, After(v, Wait1, s)) && Emits(After(v, Wait1, s), b).None?
    ensures Explains(v, s + [b], gaps, last')
  {
    var st, frames := After(v, Wait1, s), Out(v, Wait1, s);
    var w, p, p' := Weave(gaps + [last], frames), Pending(st), Pending(Next(v, st, b));
    Snoc(v, Wait1, s, b);
    PendingStep(v, st, b);
    AppendEmpty(frames);
    AppendAssoc(w, p, [b]);
    if p' == p + [b] {
      last' := last;
    } else if p' == [] {
      last' := last + (p + [b]);
      WeaveLastGap(gaps, last, p + [b], frames);
      AppendEmpty(w + (p + [b]));
    } else {
      last' := last + p;
      WeaveLastGap(gaps, last, p, frames);
    }
  }

  /** Whatever the stream, garbage included: it is made of the encodings of exactly
      the emitted frames, in order and without overlap, with gaps between them, and
      of what is pending. */
  lemma {:induction false} Soundness(v: Variant, s: seq<byte>) returns (gaps: seq<seq<byte>>)
    ensures |gaps| == |Out(v, Wait1, s)| + 1
    ensures s == Weave(gaps, Out(v, Wait1, s)) + Pending(After(v, Wait1, s))
  {
    var before, last := Explanation(v, s);
    gaps := before + [last];
  }

  lemma {:induction false} Explanation(v: Variant, s: seq<byte>) returns (gaps: seq<seq<byte>>, last: seq<byte>)
    ensures Explains(v, s, gaps, last)
  {
    if s == [] {
      gaps, last := [], [];
      assert gaps + [last] == [[]];
    } else {
      var front, b := s[..|s| - 1], s[|s| - 1];
      gaps, last := Explanation(v, front);
      ValidAfter(v, Wait1, front);
      assert s == front + [b];
      if Emits(After(v, Wait1, front), b).Some? {
        ExplainEmission(v, front, b, gaps, last);
        gaps, last := gaps + [last], [];
      } else {
        last := ExplainSilence(v, front, b, gaps, last);
      }
    }
  }

  /** Whenever a frame is emitted, the bytes just consumed end with exactly its
      encoding, and the frames emitted before lie wholly ahead of it. */
  lemma EmittedFrameJustEnded(v: Variant, s: seq<byte>, b: byte)
    returns (gaps: seq<seq<byte>>, before: seq<byte>)
    requires Emits(After(v, Wait1, s), b).Some?
    ensures s + [b] == before + Encode(Emits(After(v, Wait1, s), b).value)
    ensures |gaps| == |Out(v, Wait1, s)| + 1 && before == Weave(gaps, Out(v, Wait1, s))
  {
    gaps := Soundness(v, s);
    before := Weave(gaps, Out(v, Wait1, s));
    EmissionStep(v, After(v, Wait1, s), b);
    AppendAssoc(before, Pending(After(v, Wait1, s)), [b]);
  }

  /** Nothing longer than the limit is ever buffered or emitted. */
  lemma {:induction false} EmittedWithinLimit(v: Variant, s: seq<byte>)
    ensures forall f :: f in Out(v, Wait1, s) ==> |f.payload| <= v.maxLen
  {
    if s != [] {
      EmittedWithinLimit(v, s[..|s| - 1]);
      ValidAfter(v, Wait1, s[..|s| - 1]);
    }
  }

  // ---- Completeness: what is on the wire is emitted ----

  ghost predicate NoStartPair(s: seq<byte>) {
    |s| < 2 || (NoStartPair(s[..|s| - 1]) && !(s[|s| - 2] == START_1 && s[|s| - 1] == START_2))
  }

  /** A frame that starts now will be recognised. */
  predicate Ready(v: Variant, st: State) {
    st == Wait1 || (st == Wait2 && v.resync)
  }

  /** Noise without a start pair emits nothing and leaves the parser waiting. */
  lemma {:induction false} NoiseIsSkipped(v: Variant, s: seq<byte>)
    requires v.resync && NoStartPair(s)
    ensures Out(v, Wait1, s) == []
    ensures After(v, Wait1, s) == if s != [] && s[|s| - 1] == START_1 then Wait2 else Wait1
  {
    if s != [] {
      NoiseIsSkipped(v, s[..|s| - 1]);
    }
  }

  /** How many AA bytes end a string. */
  function TrailingStarts(s: seq<byte>): nat {
    if s == [] || s[|s| - 1] != START_1 then 0 else 1 + TrailingStarts(s[..|s| - 1])
  }

  /** Without resynchronisation every second AA of a row is forgotten. */
  lemma {:induction false} NoiseWithoutResync(v: Variant, s: seq<byte>)
    requires !v.resync && NoStartPair(s)
    ensures Out(v, Wait1, s) == []
    ensures After(v, Wait1, s) == if TrailingStarts(s) % 2 == 1 then Wait2 else Wait1
  {
    if s != [] {
      NoiseWithoutResync(v, s[..|s| - 1]);
    }
  }

  /** Noise that leaves a parser ready: no start pair, and for a parser without
      resynchronisation an even number of AA bytes at the end. */
  ghost predicate Separates(v: Variant, noise: seq<byte>) {
    NoStartPair(noise) && (v.resync || TrailingStarts(noise) % 2 == 0)
  }

  lemma SeparatingNoise(v: Variant, noise: seq<byte>)
    requires Separates(v, noise)
    ensures Out(v, Wait1, noise) == [] && Ready(v, After(v, Wait1, noise))
  {
    if v.resync {
      NoiseIsSkipped(v, noise);
    } else {
      NoiseWithoutResync(v, noise);
    }
  }

  /** Payload bytes accumulate until the announced length is reached. */
  lemma {:induction false} PayloadAccumulates(v: Variant, t: byte, n: nat, w: seq<byte>)
    requires 0 < |w| <= n
    ensures Out(v, Payload(t, n, []), w) == []
    ensures After(v, Payload(t, n, []), w) == if |w| == n then Checksum(t, w) else Payload(t, n, w)
  {
    var front, b := w[..|w| - 1], w[|w| - 1];
    if front != [] {
      PayloadAccumulates(v, t, n, front);
    }
    assert After(v, Payload(t, n, []), front) == Payload(t, n, front);
    Snoc(v, Payload(t, n, []), front, b);
    PayloadByte(v, t, n, front, b);
    assert front + [b] == w;
  }

  lemma PayloadByte(v: Variant, t: byte, n: nat, buf: seq<byte>, b: byte)
    requires |buf| < n
    ensures Emits(Payload(t, n, buf), b).None?
    ensures Next(v, Payload(t, n, buf), b)
            == if |buf| + 1 == n then Checksum(t, buf + [b]) else Payload(t, n, buf + [b])
  {
  }

  function AfterHeader(ftype: byte, n: nat): State {
    if n == 0 then Checksum(ftype, []) else Payload(ftype, n, [])
  }

  lemma HeaderIsRead(v: Variant, st: State, ftype: byte, n: nat)
    requires Ready(v, st)
    requires n <= v.maxLen && n < 0x1_0000
    ensures After(v, st, Header(ftype, n)) == AfterHeader(ftype, n) && Out(v, st, Header(ftype, n)) == []
  {
    var h := Header(ftype, n);
    assert h[..5] == h && h[..5][..4] == h[..4] && h[..4][..3] == h[..3];
    assert h[..3][..2] == h[..2] && h[..2][..1] == h[..1];
    assert h[..1][..0] == [];
    assert After(v, st, h[..1]) == Wait2 && Out(v, st, h[..1]) == [];
    assert After(v, st, h[..2]) == Type && Out(v, st, h[..2]) == [];
    assert After(v, st, h[..3]) == LenLo(ftype) && Out(v, st, h[..3]) == [];
    assert After(v, st, h[..4]) == LenHi(ftype, n % 256) && Out(v, st, h[..4]) == [];
  }

  /** A header that announces more than the limit is dropped at once. */
  lemma OverlongIsDropped(v: Variant, st: State, ftype: byte, n: nat)
    requires Ready(v, st) && v.maxLen < n < 0x1_0000
    ensures After(v, st, Header(ftype, n)) == Wait1 && Out(v, st, Header(ftype, n)) == []
  {
    var h := Header(ftype, n);
    assert h[..5] == h && h[..5][..4] == h[..4] && h[..4][..3] == h[..3];
    assert h[..3][..2] == h[..2] && h[..2][..1] == h[..1];
    assert h[..1][..0] == [];
    assert After(v, st, h[..1]) == Wait2 && Out(v, st, h[..1]) == [];
    assert After(v, st, h[..2]) == Type && Out(v, st, h[..2]) == [];
    assert After(v, st, h[..3]) == LenLo(ftype) && Out(v, st, h[..3]) == [];
    assert After(v, st, h[..4]) == LenHi(ftype, n % 256) && Out(v, st, h[..4]) == [];
  }

  /** All of a frame but its last byte leads to the checksum state. */
  lemma BodyIsRead(v: Variant, st: State, f: Frame)
    requires Ready(v, st)
    requires |f.payload| <= v.maxLen && |f.payload| < 0x1_0000
    ensures var s := Encode(f)[..|Encode(f)| - 1];
            After(v, st, s) == Checksum(f.ftype, f.payload) && Out(v, st, s) == []
  {
    var h, n := Header(f.ftype, |f.payload|), |f.payload|;
    HeaderIsRead(v, st, f.ftype, n);
    RunAppend(v, st, h, f.payload);
    assert Encode(f)[..|Encode(f)| - 1] == h + f.payload;
    if n > 0 {
      PayloadAccumulates(v, f.ftype, n, f.payload);
    }
  }

  /** A frame arriving while the parser waits is emitted. */
  lemma FrameIsEmitted(v: Variant, st: State, f: Frame)
    requires Ready(v, st)
    requires |f.payload| <= v.maxLen && |f.payload| < 0x1_0000
    ensures After(v, st, Encode(f)) == Wait1 && Out(v, st, Encode(f)) == [f]
  {
    BodyIsRead(v, st, f);
  }

  /** Frames between noise come out exactly, in order: the converse of Soundness
      for gaps that leave the parser ready. */
  lemma {:induction false} Completeness(v: Variant, gaps: seq<seq<byte>>, frames: seq<Frame>)
    requires |gaps| == |frames| + 1
    requires forall g :: g in gaps ==> Separates(v, g)
    requires forall f :: f in frames ==> |f.payload| <= v.maxLen && |f.payload| < 0x1_0000
    ensures Out(v, Wait1, Weave(gaps, frames)) == frames
    ensures Ready(v, After(v, Wait1, Weave(gaps, frames)))
  {
    if frames == [] {
      SeparatingNoise(v, gaps[0]);
    } else {
      var gs, fs, g, f := gaps[..|gaps| - 1], frames[..|frames| - 1], gaps[|gaps| - 1], frames[|frames| - 1];
      assert gs + [g] == gaps && fs + [f] == frames;
      assert g in gaps && f in frames;
      Completeness(v, gs, fs);
      WeaveOneMore(v, gs, fs, g, f);
    }
  }

  lemma WeaveOneMore(v: Variant, gs: seq<seq<byte>>, fs: seq<Frame>, g: seq<byte>, f: Frame)
    requires |gs| == |fs| + 1 && Separates(v, g) && |f.payload| <= v.maxLen && |f.payload| < 0x1_0000
    requires Out(v, Wait1, Weave(gs, fs)) == fs && Ready(v, After(v, Wait1, Weave(gs, fs)))
    ensures Out(v, Wait1, Weave(gs + [g], fs + [f])) == fs + [f]
    ensures Ready(v, After(v, Wait1, Weave(gs + [g], fs + [f])))
  {
    WeaveFrame(gs, fs, f, g);
    OneMoreFrame(v, Weave(gs, fs), f, g);
  }

  lemma OneMoreFrame(v: Variant, before: seq<byte>, f: Frame, g: seq<byte>)
    requires Ready(v, After(v, Wait1, before)) && Separates(v, g)
    requires |f.payload| <= v.maxLen && |f.payload| < 0x1_0000
    ensures Out(v, Wait1, before + Encode(f) + g) == Out(v, Wait1, before) + [f]
    ensures Ready(v, After(v, Wait1, before + Encode(f) + g))
  {
    FrameIsEmitted(v, After(v, Wait1, before), f);
    RunAppend(v, Wait1, before, Encode(f));
    RunAppend(v, Wait1, before + Encode(f), g);
    SeparatingNoise(v, g);
  }

  function Flatten(chunks: seq<seq<byte>>): seq<byte> {
    if chunks == [] then [] else Flatten(chunks[..|chunks| - 1]) + chunks[|chunks| - 1]
  }

  /** The frames yielded when chunks are fed one after another. */
  function FedInChunks(v: Variant, st: State, chunks: seq<seq<byte>>): seq<Frame> {
    if chunks == [] then []
    else
      var f := chunks[..|chunks| - 1];
      FedInChunks(v, st, f) + Out(v, After(v, st, Flatten(f)), chunks[|chunks| - 1])
  }

  lemma {:induction false} ChunksDoNotMatter(v: Variant, st: State, chunks: seq<seq<byte>>)
    ensures FedInChunks(v, st, chunks) == Out(v, st, Flatten(chunks))
  {
    if chunks != [] {
      ChunksDoNotMatter(v, st, chunks[..|chunks| - 1]);
      RunAppend(v, st, Flatten(chunks[..|chunks| - 1]), chunks[|chunks| - 1]);
    }
  }

  // ---- Corruption ----

  /** A frame whose payload and checksum do not belong together is dropped, and the
      parser is idle afterwards. */
  lemma MismatchIsDropped(v: Variant, st: State, t: byte, p: seq<byte>, crc: byte)
    requires Ready(v, st)
    requires |p| <= v.maxLen && |p| < 0x1_0000 && crc != Crc(p)
    ensures After(v, st, Header(t, |p|) + p + [crc]) == Wait1 && Out(v, st, Header(t, |p|) + p + [crc]) == []
  {
    var f := Frame(t, p);
    BodyIsRead(v, st, f);
    assert Encode(f)[..|Encode(f)| - 1] == Header(t, |p|) + p;
    Snoc(v, st, Header(t, |p|) + p, crc);
  }

  /** Corruption of up to eight neighbouring bits of payload and checksum is noticed. */
  lemma BurstIsDropped(v: Variant, st: State, f: Frame, p: seq<byte>, crc: byte, i: nat)
    requires Ready(v, st)
    requires |p| == |f.payload| <= v.maxLen && |p| < 0x1_0000 && i + 8 <= 8 * |p| + 8
    requires Bits(f.payload + [Crc(f.payload)]) != Bits(p + [crc])
    requires forall k :: 0 <= k < 8 * |p| + 8 && !(i <= k < i + 8)
               ==> Bits(f.payload + [Crc(f.payload)])[k] == Bits(p + [crc])[k]
    ensures Out(v, st, Header(f.ftype, |p|) + p + [crc]) == []
  {
    BurstRejected(f.payload, p, crc, i);
    MismatchIsDropped(v, st, f.ftype, p, crc);
  }

  /** The type byte is not covered: changing it goes unnoticed. */
  lemma TypeIsUnprotected(v: Variant, f: Frame, t: byte)
    requires |f.payload| <= v.maxLen && |f.payload| < 0x1_0000
    ensures Out(v, Wait1, Encode(f)[2 := t]) == [Frame(t, f.payload)]
  {
    assert Encode(f)[2 := t] == Encode(Frame(t, f.payload));
    FrameIsEmitted(v, Wait1, Frame(t, f.payload));
  }

  // ---- Self-stabilisation ----

  /** How many bytes other than AA the parser may still take before it is idle. */
  function Countdown(v: Variant, st: State): nat
    requires Valid(v, st)
  {
    match st
    case Wait1 => 0
    case Wait2 => v.maxLen + 5
    case Type => v.maxLen + 4
    case LenLo(_) => v.maxLen + 3
    case LenHi(_, _) => v.maxLen + 2
    case Payload(_, n, buf) => n - |buf| + 1
    case Checksum(_, _) => 1
  }

  lemma {:induction false} QuietCountsDown(v: Variant, st: State, s: seq<byte>)
    requires Valid(v, st) && START_1 !in s
    ensures Valid(v, After(v, st, s))
    ensures Countdown(v, After(v, st, s)) <= if |s| <= Countdown(v, st) then Countdown(v, st) - |s| else 0
  {
    if s != [] {
      QuietCountsDown(v, st, s[..|s| - 1]);
    }
  }

  /** From any state, maxLen + 5 bytes without AA leave the parser idle, so that
      the next frame is decoded. */
  lemma SelfStabilises(v: Variant, st: State, quiet: seq<byte>, f: Frame)
    requires Valid(v, st) && START_1 !in quiet && v.maxLen + 5 <= |quiet|
    requires |f.payload| <= v.maxLen && |f.payload| < 0x1_0000
    ensures After(v, st, quiet) == Wait1
    ensures After(v, st, quiet + Encode(f)) == Wait1 && Out(v, st, quiet + Encode(f)) == Out(v, st, quiet) + [f]
  {
    QuietCountsDown(v, st, quiet);
    RunAppend(v, st, quiet, Encode(f));
    FrameIsEmitted(v, Wait1, f);
  }

  /** One byte less is not enough: this run ends before the checksum. */
  lemma QuietBoundIsTight(v: Variant, w: seq<byte>) returns (quiet: seq<byte>)
    requires 0 < v.maxLen < 0x1_0000 && v.maxLen % 256 != START_1 && v.maxLen / 256 != START_1
    requires |w| == v.maxLen && START_1 !in w
    ensures |quiet| == v.maxLen + 4 && START_1 !in quiet && After(v, Wait2, quiet) == Checksum(0, w)
  {
    var n := v.maxLen;
    var h := Header(0, n)[1..];
    TailOfHeader(v, n);
    PayloadAccumulates(v, 0, n, w);
    AfterAppend(v, Wait2, h, w);
    assert h == [START_2, 0, n % 256, n / 256 % 256];
    HighByte(n);
    quiet := h + w;
  }

  lemma HighByte(n: nat)
    requires n < 0x1_0000
    ensures n / 256 % 256 == n / 256
  {
  }

  lemma TailOfHeader(v: Variant, n: nat)
    requires 0 < n <= v.maxLen && n < 0x1_0000
    ensures After(v, Wait2, Header(0, n)[1..]) == Payload(0, n, [])
  {
    var h := Header(0, n);
    HeaderIsRead(v, Wait1, 0, n);
    assert h == [START_1] + h[1..];
    AfterAppend(v, Wait1, [START_1], h[1..]);
    assert After(v, Wait1, []) == Wait1 && [START_1][..0] == [];
  }

  // ---- Where the firmware's parser differs ----

  lemma {:induction false} PendingFits(v: Variant, s: seq<byte>)
    ensures |Pending(After(v, Wait1, s))| <= |s|
  {
    if s != [] {
      PendingFits(v, s[..|s| - 1]);
      ValidAfter(v, Wait1, s[..|s| - 1]);
      PendingStep(v, After(v, Wait1, s[..|s| - 1]), s[|s| - 1]);
    }
  }

  /** A frame after noise is recognised by a parser without resynchronisation
      exactly when the noise ends in an even number of AA bytes. */
  lemma WithoutResyncIffEven(v: Variant, noise: seq<byte>, f: Frame)
    requires !v.resync && NoStartPair(noise)
    requires |f.payload| <= v.maxLen && |f.payload| < 0x1_0000
    ensures Emits(After(v, Wait1, noise + Encode(f)[..|Encode(f)| - 1]), Crc(f.payload)) == Some(f)
            <==> TrailingStarts(noise) % 2 == 0
  {
    NoiseWithoutResync(v, noise);
    var body := Encode(f)[..|Encode(f)| - 1];
    RunAppend(v, Wait1, noise, body);
    if TrailingStarts(noise) % 2 == 0 {
      BodyIsRead(v, Wait1, f);
    } else {
      RunAppend(v, Wait2, body[..1], body[1..]);
      assert body == body[..1] + body[1..];
      assert body[..1][..0] == [];
      assert After(v, Wait2, body[..1]) == Wait1;
      PendingFits(v, body[1..]);
      ValidAfter(v, Wait1, body[1..]);
      if Emits(After(v, Wait1, body[1..]), Crc(f.payload)).Some? {
        EmissionStep(v, After(v, Wait1, body[1..]), Crc(f.payload));
      }
    }
  }

  /** An odd row of stray AA bytes before a frame, a single one for instance: one
      parser decodes the frame, the other loses it. */
  lemma StrayStartSeparates(py: Variant, fw: Variant, noise: seq<byte>, f: Frame)
    requires py.resync && !fw.resync && NoStartPair(noise) && TrailingStarts(noise) % 2 == 1
    requires |f.payload| <= py.maxLen && |f.payload| <= fw.maxLen && |f.payload| < 0x1_0000
    ensures Out(py, Wait1, noise + Encode(f)) == [f]
    ensures Emits(After(fw, Wait1, noise + Encode(f)[..|Encode(f)| - 1]), Crc(f.payload)) != Some(f)
  {
    SeparatingNoise(py, noise);
    FrameIsEmitted(py, After(py, Wait1, noise), f);
    RunAppend(py, Wait1, noise, Encode(f));
    AppendEmpty([f]);
    WithoutResyncIffEven(fw, noise, f);
  }
}
