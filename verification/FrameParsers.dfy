/** The two implementations of the frame state machine, each updating its own
    fields byte by byte, proved against `Frames.Next` and `Frames.Emits`. */
module FrameParsers {
  import opened Common
  import opened Frames
  import Crc8

  const FRAME_TYPE_SEND: byte := 0x53
  const FRAME_TYPE_RECV: byte := 0x52

  /** `FrameParser` with its default limit of MAX_PKT_SIZE + 16. */
  const PYTHON := Variant(MAX_PKT_SIZE + 16, true)

  /** `processSerialByte` in the firmware. */
  const FIRMWARE := Variant(MAX_PKT_SIZE, false)

  /** The Python parser takes payloads of up to 256 bytes and drops longer ones at
      their header; the firmware's limit is 240. */
  lemma LengthLimits(f: Frame)
    requires |f.payload| < 0x1_0000
    ensures |f.payload| <= 256 ==> Out(PYTHON, Wait1, Encode(f)) == [f]
    ensures 256 < |f.payload| ==> After(PYTHON, Wait1, Header(f.ftype, |f.payload|)) == Wait1
    ensures |f.payload| <= 240 ==> Out(FIRMWARE, Wait1, Encode(f)) == [f]
    ensures 240 < |f.payload| ==> After(FIRMWARE, Wait1, Header(f.ftype, |f.payload|)) == Wait1
  {
    if |f.payload| <= 256 {
      FrameIsEmitted(PYTHON, Wait1, f);
    } else {
      OverlongIsDropped(PYTHON, Wait1, f.ftype, |f.payload|);
    }
    if |f.payload| <= 240 {
      FrameIsEmitted(FIRMWARE, Wait1, f);
    } else {
      OverlongIsDropped(FIRMWARE, Wait1, f.ftype, |f.payload|);
    }
  }

  /** The streaming parser of protocol/protocol.py; states are numbered as there. */
  class FrameParser {
    const maxFrame: nat
    var state: nat
    var ftype: byte
    var flen: nat
    var read: nat
    var buf: seq<byte>

    ghost function Spec(): Variant {
      Variant(maxFrame, true)
    }

    ghost predicate Valid()
      reads this
    {
      state <= 6 && |buf| <= maxFrame
      && (state == 4 ==> flen < 256)
      && (state == 5 ==> read == |buf| && |buf| < flen <= maxFrame && flen < 0x1_0000)
      && (state == 6 ==> |buf| == flen && flen < 0x1_0000)
    }

    ghost function Machine(): State
      requires Valid()
      reads this
    {
      if state == 0 then Wait1
      else if state == 1 then Wait2
      else if state == 2 then Type
      else if state == 3 then LenLo(ftype)
      else if state == 4 then LenHi(ftype, flen)
      else if state == 5 then Payload(ftype, flen, buf)
      else Checksum(ftype, buf)
    }

    constructor (limit: nat)
      ensures Valid() && Machine() == Wait1 && maxFrame == limit
    {
      maxFrame := limit;
      state, ftype, flen, read, buf := 0, 0, 0, 0, [];
    }

    method Reset()
      modifies this
      ensures Valid() && Machine() == Wait1
    {
      state, buf, read := 0, [], 0;
    }

    method FeedByte(b: byte) returns (frames: seq<Frame>)
      requires Valid()
      modifies this
      ensures Valid()
      ensures Machine() == Next(Spec(), old(Machine()), b)
      ensures frames == AsSeq(Emits(old(Machine()), b))
    {
      frames := [];
      if state == 0 {
        if b == START_1 {
          state := 1;
        }
      } else if state == 1 {
        if b == START_2 {
          state := 2;
        } else if b != START_1 {
          state := 0;
        }
      } else if state == 2 {
        ftype := b;
        state := 3;
      } else if state == 3 {
        flen := b;
        state := 4;
      } else if state == 4 {
        flen := flen + 256 * b;  // `|=` on disjoint bytes
        if flen > maxFrame {
          Reset();
          return;
        }
        buf := [];
        read := 0;
        state := if flen == 0 then 6 else 5;
      } else if state == 5 {
        buf := buf + [b];
        read := read + 1;
        if read >= flen {
          state := 6;
        }
      } else {
        var crc := Crc8.ComputeCrc(buf);
        if b == crc {
          frames := [Frame(ftype, buf)];
        }
        Reset();
      }
    }

    method Feed(data: seq<byte>) returns (frames: seq<Frame>)
      requires Valid()
      modifies this
      ensures Valid()
      ensures Machine() == After(Spec(), old(Machine()), data)
      ensures frames == Out(Spec(), old(Machine()), data)
    {
      frames := [];
      for i := 0 to |data|
        invariant Valid() && Machine() == After(Spec(), old(Machine()), data[..i])
        invariant frames == Out(Spec(), old(Machine()), data[..i])
      {
        var more := FeedByte(data[i]);
        frames := frames + more;
        Snoc(Spec(), old(Machine()), data[..i], data[i]);
        assert data[..i + 1] == data[..i] + [data[i]];
      }
      assert data[..|data|] == data;
    }
  }

  datatype RxState = WAIT_S1 | WAIT_S2 | READ_TYPE | READ_LEN_LO | READ_LEN_HI | READ_PAYLOAD | READ_CRC

  /** What the firmware puts on the air at a byte: the payload of a SEND frame. */
  function Transmits(st: State, b: byte): Option<seq<byte>> {
    match Emits(st, b)
    case Some(f) => if f.ftype == FRAME_TYPE_SEND then Some(f.payload) else None
    case None => None
  }

  /** Only frames of type 'S' go on the air, and they do with their payload. */
  lemma TransmitsMeans(st: State, b: byte, p: seq<byte>)
    ensures Transmits(st, b) == Some(p) <==> Emits(st, b) == Some(Frame('S' as int, p))
  {
  }

  /** The payloads of the SEND frames among some frames. */
  function SendPayloads(frames: seq<Frame>): seq<seq<byte>> {
    if frames == [] then []
    else
      SendPayloads(frames[..|frames| - 1])
      + (if frames[|frames| - 1].ftype == FRAME_TYPE_SEND then [frames[|frames| - 1].payload] else [])
  }

  lemma SendPayloadsStep(frames: seq<Frame>, st: State, b: byte)
    ensures SendPayloads(frames + AsSeq(Emits(st, b))) == SendPayloads(frames) + AsSeq(Transmits(st, b))
  {
    match Emits(st, b)
    case None =>
      AppendEmpty(frames);
    case Some(f) =>
      assert (frames + [f])[..|frames|] == frames;
  }

  /** The firmware's globals, with its fixed receive buffer. */
  class FirmwareParser {
    var serialState: RxState
    var serialType: byte
    var serialLen: nat
    var serialRead: nat
    const serialBuf: array<byte>

    ghost predicate Valid()
      reads this, serialBuf
    {
      serialBuf.Length == MAX_PKT_SIZE
      && (serialState == READ_LEN_HI ==> serialLen < 256)
      && (serialState == READ_PAYLOAD ==> serialRead < serialLen <= MAX_PKT_SIZE)
      && (serialState == READ_CRC ==> serialLen <= MAX_PKT_SIZE)
    }

    ghost function Machine(): State
      requires Valid()
      reads this, serialBuf
    {
      match serialState
      case WAIT_S1 => Wait1
      case WAIT_S2 => Wait2
      case READ_TYPE => Type
      case READ_LEN_LO => LenLo(serialType)
      case READ_LEN_HI => LenHi(serialType, serialLen)
      case READ_PAYLOAD => Payload(serialType, serialLen, serialBuf[..serialRead])
      case READ_CRC => Checksum(serialType, serialBuf[..serialLen])
    }

    constructor ()
      ensures Valid() && Machine() == Wait1 && fresh(serialBuf)
    {
      serialState, serialType, serialLen, serialRead := WAIT_S1, 0, 0, 0;
      serialBuf := new byte[MAX_PKT_SIZE](i => 0);
    }

    method StorePayloadByte(b: byte)
      requires Valid() && serialState == READ_PAYLOAD
      modifies this, serialBuf
      ensures Valid()
      ensures Machine() == Next(FIRMWARE, old(Machine()), b)
    {
      ghost var got := serialBuf[..serialRead];
      serialBuf[serialRead] := b;
      serialRead := serialRead + 1;
      assert serialBuf[..serialRead] == got + [b];
      if serialRead >= serialLen {
        serialState := READ_CRC;
      }
    }

    method ProcessSerialByte(b: byte) returns (transmitted: Option<seq<byte>>)
      requires Valid()
      modifies this, serialBuf
      ensures Valid()
      ensures Machine() == Next(FIRMWARE, old(Machine()), b)
      ensures transmitted == Transmits(old(Machine()), b)
    {
      transmitted := None;
      match serialState {
        case WAIT_S1 =>
          if b == START_1 {
            serialState := WAIT_S2;
          }
        case WAIT_S2 =>
          serialState := if b == START_2 then READ_TYPE else WAIT_S1;
        case READ_TYPE =>
          serialType := b;
          serialState := READ_LEN_LO;
        case READ_LEN_LO =>
          serialLen := b;
          serialState := READ_LEN_HI;
        case READ_LEN_HI =>
          serialLen := serialLen + 256 * b;  // `|=` on disjoint bytes
          if serialLen > MAX_PKT_SIZE {
            serialState := WAIT_S1;
          } else {
            serialRead := 0;
            serialState := if serialLen == 0 then READ_CRC else READ_PAYLOAD;
            assert serialBuf[..0] == [];
          }
        case READ_PAYLOAD =>
          StorePayloadByte(b);
        case READ_CRC =>
          var crc := Crc8.ComputeCrc(serialBuf[..serialLen]);
          if b == crc {
            if serialType == FRAME_TYPE_SEND {
              transmitted := Some(serialBuf[..serialLen]);
            }
          }
          serialState := WAIT_S1;
      }
    }

    /** The serial part of `loop`: everything available is processed. */
    method ProcessSerial(data: seq<byte>) returns (packets: seq<seq<byte>>)
      requires Valid()
      modifies this, serialBuf
      ensures Valid()
      ensures Machine() == After(FIRMWARE, old(Machine()), data)
      ensures packets == SendPayloads(Out(FIRMWARE, old(Machine()), data))
    {
      packets := [];
      ghost var start, frames := Machine(), [];
      for i := 0 to |data|
        invariant Valid() && Machine() == After(FIRMWARE, start, data[..i])
        invariant frames == Out(FIRMWARE, start, data[..i]) && packets == SendPayloads(frames)
      {
        ghost var st, more := Machine(), AsSeq(Emits(Machine(), data[i]));
        assert data[..i + 1] == data[..i] + [data[i]];
        Snoc(FIRMWARE, start, data[..i], data[i]);
        SendPayloadsStep(frames, st, data[i]);
        frames := frames + more;
        var p := ProcessSerialByte(data[i]);
        packets := packets + AsSeq(p);
      }
      assert data[..|data|] == data;
    }
  }
}
