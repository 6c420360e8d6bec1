/**
 * The bulk side of the gs_usb device: reassembly of 76-byte host frames
 * from OUT packets, fragmentation of frames into IN packets, and the
 * endpoint halt used as a "ready for another frame" signal.
 *
 * A transfer ends with a packet shorter than the endpoint's maximum packet
 * size, a zero-length one included (section 5.8.3 of USB 2.0).
 */
module GsPort {
  import opened Bytes
  import opened Options
  import opened Frame
  import G = GsClass
  import E = ChannelEvents
  import Cfg = ChannelConfig

  // ---------------------------------------------------------------------
  // States and endpoint outcomes

  datatype ReadState = Empty | WaitingForPacket(index: nat) | Full {
    /** Where the next packet is stored in the read buffer. */
    function Index(): (k: nat)
      ensures Empty? ==> k == 0
      ensures Full? ==> k == FrameSize
      ensures WaitingForPacket? ==> k == index
    {
      match this
      case Empty => 0
      case WaitingForPacket(i) => i
      case Full => FrameSize
    }

    predicate InRange() {
      Index() <= FrameSize
    }
  }

  datatype WriteState = Ready | Writing(remainder: nat) {
    predicate InRange() {
      Writing? ==> remainder <= FrameSize
    }
  }

  /**
   * Result of reading the OUT endpoint: a packet (the endpoint fails when
   * it does not fit the space offered), nothing pending, or another error.
   */
  datatype ReadOutcome = Packet(data: seq<u8>) | ReadWouldBlock | ReadFailed

  /** Result of writing the IN endpoint: the whole slice was taken, nothing could be queued, or another error. */
  datatype WriteOutcome = Sent | WriteWouldBlock | WriteFailed

  /** What `poll` does to the IN endpoint's halt. */
  datatype HaltSignal = NoSignal | Stall | Unstall

  // ---------------------------------------------------------------------
  // Read side

  /**
   * The read half of `poll`. While Full nothing is read. A packet of the
   * maximum size leaves the transfer open; a shorter one completes the
   * frame; WouldBlock changes nothing; an error, including a packet that
   * does not fit, discards the partial frame.
   */
  function ReadStep(s: ReadState, mps: nat, outcome: ReadOutcome): (r: ReadState)
    requires s.InRange()
    ensures r.InRange()
    ensures s.Full? ==> r == s
    ensures !s.Full? && outcome.Packet? && |outcome.data| <= FrameSize - s.Index() ==>
      r == if |outcome.data| == mps then WaitingForPacket(s.Index() + |outcome.data|) else Full
    ensures !s.Full? && outcome.Packet? && |outcome.data| > FrameSize - s.Index() ==> r == Empty
    ensures outcome.ReadWouldBlock? ==> r == s
    ensures !s.Full? && outcome.ReadFailed? ==> r == Empty
  {
    if s.Full? then s
    else
      var index := s.Index();
      match outcome
      case Packet(data) =>
        if |data| > FrameSize - index then Empty
        else if |data| == mps then WaitingForPacket(index + |data|)
        else Full
      case ReadWouldBlock => s
      case ReadFailed => Empty
  }

  /** The read buffer after the read half of `poll`: only the packet's bytes at the current index change. */
  function ReadBufferAfter(buf: seq<u8>, s: ReadState, outcome: ReadOutcome): (b: seq<u8>)
    requires |buf| == FrameSize && s.InRange()
    ensures |b| == FrameSize
    ensures s.Full? || !outcome.Packet? || |outcome.data| > FrameSize - s.Index() ==> b == buf
    ensures !s.Full? && outcome.Packet? && |outcome.data| <= FrameSize - s.Index() ==>
      b[s.Index() .. s.Index() + |outcome.data|] == outcome.data
      && b[..s.Index()] == buf[..s.Index()]
      && b[s.Index() + |outcome.data| ..] == buf[s.Index() + |outcome.data| ..]
  {
    if s.Full? || !outcome.Packet? || |outcome.data| > FrameSize - s.Index() then buf
    else
      var i := s.Index();
      var b := buf[..i] + outcome.data + buf[i + |outcome.data| ..];
      assert b[i .. i + |outcome.data|] == outcome.data;
      b
  }

  // ---------------------------------------------------------------------
  // Write side

  /** The slice `write_buffer[76 - r .. min(76, 76 - r + mps)]` sent from `Writing(r)`. */
  function Chunk(buf: seq<u8>, r: nat, mps: nat): (c: seq<u8>)
    requires |buf| == FrameSize && r <= FrameSize
    ensures |c| == if r <= mps then r else mps
    ensures c == buf[FrameSize - r .. FrameSize - r + |c|]
  {
    buf[FrameSize - r .. if FrameSize - r + mps < FrameSize then FrameSize - r + mps else FrameSize]
  }

  /** The packet the write half of `poll` hands to the endpoint: a zero-length one from `Writing(0)`. */
  function Emitted(w: WriteState, buf: seq<u8>, mps: nat): (p: Option<seq<u8>>)
    requires |buf| == FrameSize && w.InRange()
    ensures p.None? <==> w.Ready?
    ensures w.Writing? && w.remainder == 0 ==> p == Some([])
    ensures w.Writing? && w.remainder > 0 ==> p == Some(Chunk(buf, w.remainder, mps))
  {
    match w
    case Ready => None
    case Writing(r) => if r == 0 then Some([]) else Some(Chunk(buf, r, mps))
  }

  /**
   * The write half of `poll`. `Writing(0)` sends the zero-length packet and
   * ends the transfer whatever the endpoint says. Otherwise a full-size
   * packet accepted leaves `Writing(r - mps)`; a short one accepted, or an
   * error, ends the transfer; WouldBlock changes nothing. `poll` never
   * leaves Ready, and the remainder only shrinks.
   */
  function WriteStep(w: WriteState, mps: nat, outcome: WriteOutcome): (r: WriteState)
    requires w.InRange()
    ensures r.InRange()
    ensures w.Ready? ==> r.Ready?
    ensures r.Writing? ==> w.Writing? && r.remainder <= w.remainder
    ensures w.Writing? && w.remainder > 0 && outcome.Sent? ==>
      r == if w.remainder >= mps then Writing(w.remainder - mps) else Ready
    ensures w.Writing? && w.remainder > 0 && outcome.WriteWouldBlock? ==> r == w
    ensures w.Writing? && (w.remainder == 0 || outcome.WriteFailed?) ==> r == Ready
  {
    match w
    case Ready => Ready
    case Writing(remainder) =>
      if remainder == 0 then Ready
      else
        var sent := if remainder <= mps then remainder else mps;
        match outcome
        case Sent => if sent == mps then Writing(remainder - sent) else Ready
        case WriteWouldBlock => w
        case WriteFailed => Ready
  }

  /** Stall when the write side becomes ready, unstall when it stops being ready. */
  function Signal(before: WriteState, after: WriteState): (s: HaltSignal)
    ensures s == Stall <==> before.Writing? && after.Ready?
    ensures s == Unstall <==> before.Ready? && after.Writing?
  {
    if before.Ready? == after.Ready? then NoSignal
    else if after.Ready? then Stall
    else Unstall
  }

  /** `poll` only ever stalls: its write half never moves from Ready to Writing. */
  lemma PollNeverUnstalls(w: WriteState, mps: nat, outcome: WriteOutcome)
    requires w.InRange()
    ensures Signal(w, WriteStep(w, mps, outcome)) != Unstall
  {
  }

  // ---------------------------------------------------------------------
  // A whole transfer

  /** The packets a transfer from `w` sends when the endpoint accepts every one. */
  function Drain(w: WriteState, buf: seq<u8>, mps: nat): (ps: seq<seq<u8>>)
    requires |buf| == FrameSize && w.InRange() && mps > 0
    ensures w.Ready? <==> ps == []
    decreases if w.Writing? then w.remainder + 1 else 0
  {
    if w.Ready? then []
    else [Emitted(w, buf, mps).value] + Drain(WriteStep(w, mps, Sent), buf, mps)
  }

  /** All packets of a sequence joined. */
  function Concat(ps: seq<seq<u8>>): (s: seq<u8>)
    ensures ps == [] ==> s == []
  {
    if ps == [] then [] else ps[0] + Concat(ps[1..])
  }

  /** From `Writing(0)` only the zero-length packet is sent. */
  lemma DrainZero(buf: seq<u8>, mps: nat)
    requires |buf| == FrameSize && mps > 0
    ensures Drain(Writing(0), buf, mps) == [[]]
  {
    assert Drain(Ready, buf, mps) == [];
  }

  /** A remainder smaller than the packet size goes out as one short packet that ends the transfer. */
  lemma DrainShort(buf: seq<u8>, r: nat, mps: nat)
    requires |buf| == FrameSize && 0 < r < mps && r <= FrameSize
    ensures Drain(Writing(r), buf, mps) == [buf[FrameSize - r ..]]
  {
    assert WriteStep(Writing(r), mps, Sent) == Ready;
    assert Drain(Ready, buf, mps) == [];
    assert Chunk(buf, r, mps) == buf[FrameSize - r ..];
  }

  /** A remainder of at least the packet size sends one full packet and continues. */
  lemma DrainFull(buf: seq<u8>, r: nat, mps: nat)
    requires |buf| == FrameSize && 0 < mps <= r <= FrameSize
    ensures Drain(Writing(r), buf, mps)
            == [buf[FrameSize - r .. FrameSize - r + mps]] + Drain(Writing(r - mps), buf, mps)
  {
    assert WriteStep(Writing(r), mps, Sent) == Writing(r - mps);
  }

  /**
   * From `Writing(r)` with every write accepted: `r / mps` full packets, then
   * one of `r % mps` bytes (zero-length when `mps` divides `r`).
   */
  lemma {:induction false} DrainShape(buf: seq<u8>, r: nat, mps: nat)
    requires |buf| == FrameSize && r <= FrameSize && mps > 0
    ensures var ps := Drain(Writing(r), buf, mps);
            |ps| == r / mps + 1
            && (forall i :: 0 <= i < r / mps ==> |ps[i]| == mps)
            && ps[r / mps] == buf[FrameSize - r % mps ..]
    decreases r
  {
    if r < mps {
      DivUnique(r, mps, 0, r);
      if r == 0 { DrainZero(buf, mps); } else { DrainShort(buf, r, mps); }
    } else {
      DrainShape(buf, r - mps, mps);
      DrainFull(buf, r, mps);
      DivSub(r, mps);
      var ps := Drain(Writing(r), buf, mps);
      var rest := Drain(Writing(r - mps), buf, mps);
      assert ps[1..] == rest;
      forall i | 0 <= i < r / mps ensures |ps[i]| == mps {
        if i > 0 { assert ps[i] == rest[i - 1]; }
      }
    }
  }

  /** The packets of a transfer from `Writing(r)` joined are the last `r` bytes of the buffer. */
  lemma {:induction false} DrainConcat(buf: seq<u8>, r: nat, mps: nat)
    requires |buf| == FrameSize && r <= FrameSize && mps > 0
    ensures Concat(Drain(Writing(r), buf, mps)) == buf[FrameSize - r ..]
    decreases r
  {
    if r == 0 {
      DrainZero(buf, mps);
      assert Concat([[]]) == [] + Concat([]);
    } else if r < mps {
      DrainShort(buf, r, mps);
      var ps := [buf[FrameSize - r ..]];
      assert Concat(ps) == ps[0] + Concat(ps[1..]);
      assert ps[1..] == [];
    } else {
      DrainConcat(buf, r - mps, mps);
      DrainFull(buf, r, mps);
      var ps := Drain(Writing(r), buf, mps);
      assert Concat(ps) == ps[0] + Concat(ps[1..]);
      assert ps[1..] == Drain(Writing(r - mps), buf, mps);
      assert buf[FrameSize - r ..] == buf[FrameSize - r .. FrameSize - r + mps] + buf[FrameSize - (r - mps) ..];
    }
  }

  /** Removing one divisor's worth lowers the quotient by one and keeps the remainder. */
  lemma DivSub(r: nat, m: nat)
    requires m > 0 && r >= m
    ensures r / m == (r - m) / m + 1 && r % m == (r - m) % m
  {
    DivUnique(r, m, (r - m) / m + 1, (r - m) % m);
  }

  /**
   * A 76-byte frame leaves as `76 / mps` full packets and one of `76 % mps`
   * bytes; for every full-speed packet size the last packet is not empty,
   * so no zero-length packet is sent.
   */
  lemma FrameTransferPackets(buf: seq<u8>, mps: nat)
    requires |buf| == FrameSize && mps in {8, 16, 32, 64}
    ensures var ps := Drain(Writing(FrameSize), buf, mps);
            |ps| == FrameSize / mps + 1 && |ps[FrameSize / mps]| == FrameSize % mps > 0
            && Concat(ps) == buf
  {
    DrainShape(buf, FrameSize, mps);
    DrainConcat(buf, FrameSize, mps);
  }

  // ---------------------------------------------------------------------
  // Reassembly of a whole transfer

  /** The read side's state and buffer. */
  datatype ReadSide = ReadSide(state: ReadState, buffer: seq<u8>)

  /** The read side after each packet in turn has been read by `poll`. */
  function Feed(s: ReadState, buf: seq<u8>, ps: seq<seq<u8>>, mps: nat): (r: ReadSide)
    requires |buf| == FrameSize && s.InRange()
    ensures |r.buffer| == FrameSize && r.state.InRange()
    decreases |ps|
  {
    if ps == [] then ReadSide(s, buf)
    else Feed(ReadStep(s, mps, Packet(ps[0])), ReadBufferAfter(buf, s, Packet(ps[0])), ps[1..], mps)
  }

  /** Feeding a non-empty list of packets is feeding its first packet, then the rest. */
  lemma FeedCons(s: ReadState, buf: seq<u8>, p: seq<u8>, rest: seq<seq<u8>>, mps: nat)
    requires |buf| == FrameSize && s.InRange()
    ensures Feed(s, buf, [p] + rest, mps)
            == Feed(ReadStep(s, mps, Packet(p)), ReadBufferAfter(buf, s, Packet(p)), rest, mps)
  {
    assert ([p] + rest)[1..] == rest;
  }

  /** The last, short packet of a transfer completes the frame in the read buffer. */
  lemma FeedLast(s: ReadState, rbuf: seq<u8>, buf: seq<u8>, r: nat, mps: nat)
    requires |buf| == FrameSize && |rbuf| == FrameSize && r < mps && r <= FrameSize
    requires !s.Full? && s.Index() == FrameSize - r
    requires rbuf[..FrameSize - r] == buf[..FrameSize - r]
    ensures Feed(s, rbuf, [buf[FrameSize - r ..]], mps) == ReadSide(Full, buf)
  {
    var p := buf[FrameSize - r ..];
    FeedCons(s, rbuf, p, [], mps);
    var rbuf' := ReadBufferAfter(rbuf, s, Packet(p));
    assert rbuf' == rbuf'[..FrameSize - r] + rbuf'[FrameSize - r ..];
    assert buf == buf[..FrameSize - r] + p;
  }

  /** A full packet in the middle of a transfer extends the reassembled prefix by `mps` bytes. */
  lemma FeedFull(s: ReadState, rbuf: seq<u8>, buf: seq<u8>, r: nat, mps: nat)
    requires |buf| == FrameSize && |rbuf| == FrameSize && 0 < mps <= r <= FrameSize
    requires !s.Full? && s.Index() == FrameSize - r
    requires rbuf[..FrameSize - r] == buf[..FrameSize - r]
    ensures var p := buf[FrameSize - r .. FrameSize - r + mps];
            var rbuf' := ReadBufferAfter(rbuf, s, Packet(p));
            ReadStep(s, mps, Packet(p)) == WaitingForPacket(FrameSize - (r - mps))
            && rbuf'[..FrameSize - (r - mps)] == buf[..FrameSize - (r - mps)]
  {
    var p := buf[FrameSize - r .. FrameSize - r + mps];
    var rbuf' := ReadBufferAfter(rbuf, s, Packet(p));
    var i := FrameSize - r;
    assert rbuf'[..i + mps] == rbuf'[..i] + rbuf'[i .. i + mps];
    assert buf[..i + mps] == buf[..i] + buf[i .. i + mps];
  }

  /** A read side positioned `FrameSize - r` bytes in, holding the frame's first bytes, completes with the frame. */
  lemma {:induction false} FeedDrain(s: ReadState, rbuf: seq<u8>, buf: seq<u8>, r: nat, mps: nat)
    requires |buf| == FrameSize && |rbuf| == FrameSize && r <= FrameSize && mps > 0
    requires !s.Full? && s.Index() == FrameSize - r
    requires rbuf[..FrameSize - r] == buf[..FrameSize - r]
    ensures Feed(s, rbuf, Drain(Writing(r), buf, mps), mps) == ReadSide(Full, buf)
    decreases r
  {
    if r < mps {
      FeedDrainLast(s, rbuf, buf, r, mps);
    } else {
      var p := buf[FrameSize - r .. FrameSize - r + mps];
      var s', rbuf' := ReadStep(s, mps, Packet(p)), ReadBufferAfter(rbuf, s, Packet(p));
      FeedDrainStep(s, rbuf, buf, r, mps);
      FeedDrain(s', rbuf', buf, r - mps, mps);
    }
  }

  /** A remainder below the packet size goes out as the one last packet, which completes the frame. */
  lemma FeedDrainLast(s: ReadState, rbuf: seq<u8>, buf: seq<u8>, r: nat, mps: nat)
    requires |buf| == FrameSize && |rbuf| == FrameSize && r < mps && r <= FrameSize
    requires !s.Full? && s.Index() == FrameSize - r
    requires rbuf[..FrameSize - r] == buf[..FrameSize - r]
    ensures Feed(s, rbuf, Drain(Writing(r), buf, mps), mps) == ReadSide(Full, buf)
  {
    if r == 0 {
      DrainZero(buf, mps);
      assert buf[FrameSize - r ..] == [];
    } else {
      DrainShort(buf, r, mps);
    }
    FeedLast(s, rbuf, buf, r, mps);
  }

  /** One full packet of a transfer: the read side moves `mps` bytes on and the rest of the transfer follows. */
  lemma FeedDrainStep(s: ReadState, rbuf: seq<u8>, buf: seq<u8>, r: nat, mps: nat)
    requires |buf| == FrameSize && |rbuf| == FrameSize && 0 < mps <= r <= FrameSize
    requires !s.Full? && s.Index() == FrameSize - r
    requires rbuf[..FrameSize - r] == buf[..FrameSize - r]
    ensures var p := buf[FrameSize - r .. FrameSize - r + mps];
            var s', rbuf' := ReadStep(s, mps, Packet(p)), ReadBufferAfter(rbuf, s, Packet(p));
            && s' == WaitingForPacket(FrameSize - (r - mps))
            && rbuf'[..FrameSize - (r - mps)] == buf[..FrameSize - (r - mps)]
            && Feed(s, rbuf, Drain(Writing(r), buf, mps), mps) == Feed(s', rbuf', Drain(Writing(r - mps), buf, mps), mps)
  {
    DrainFull(buf, r, mps);
    var p := buf[FrameSize - r .. FrameSize - r + mps];
    FeedCons(s, rbuf, p, Drain(Writing(r - mps), buf, mps), mps);
    FeedFull(s, rbuf, buf, r, mps);
  }

  /**
   * Whatever the packet size, an empty read side fed the packets a
   * `Writing(76)` transfer sends ends Full holding exactly the sent frame.
   */
  lemma TransferRoundTrip(rbuf: seq<u8>, buf: seq<u8>, mps: nat)
    requires |buf| == FrameSize && |rbuf| == FrameSize && mps > 0
    ensures Feed(Empty, rbuf, Drain(Writing(FrameSize), buf, mps), mps) == ReadSide(Full, buf)
  {
    FeedDrain(Empty, rbuf, buf, FrameSize, mps);
  }

  // ---------------------------------------------------------------------
  // The port

  /** Outcome of `read_frame`. */
  datatype ReadFrameResult = FrameRead(frame: HostFrame) | ReadFrameWouldBlock | ReadParseError

  /** Outcome of `write_frame`. */
  datatype WriteFrameResult = FrameQueued | WriteFrameWouldBlock

  class GsUsbPort {
    const underlying: G.GsUsbClass
    const readBuffer: array<u8>
    const writeBuffer: array<u8>
    var readState: ReadState
    var writeState: WriteState

    ghost predicate Valid()
      reads this, underlying
    {
      underlying.Valid()
      && readBuffer.Length == FrameSize && writeBuffer.Length == FrameSize
      && readBuffer != writeBuffer
      && readState.InRange() && writeState.InRange()
    }

    /** The endpoint packet size. */
    function MaxPacketSize(): nat
      reads this, underlying
    {
      underlying.maxPacketSize
    }

    /** `GsUsbPort::new`: both buffers zeroed, nothing being read or written. */
    constructor (commIf: u8, maxPacketSize: nat, channels: seq<Cfg.Channel>, swVersion: u32, hwVersion: u32)
      requires 1 <= |channels| < G.MaxChannels
      requires maxPacketSize in {8, 16, 32, 64}
      ensures Valid() && fresh(underlying) && fresh(readBuffer) && fresh(writeBuffer)
      ensures underlying.channels == channels && underlying.commIf == commIf
      ensures underlying.maxPacketSize == maxPacketSize
      ensures underlying.config == G.DeviceConfig.DeviceConfig(|channels| - 1, swVersion, hwVersion)
      ensures underlying.controlEvent == None && !underlying.stalled
      ensures readBuffer[..] == Zeros(FrameSize) && writeBuffer[..] == Zeros(FrameSize)
      ensures readState == Empty && writeState == Ready
    {
      underlying := new G.GsUsbClass(commIf, maxPacketSize, channels, swVersion, hwVersion);
      readBuffer := new u8[FrameSize](_ => 0);
      writeBuffer := new u8[FrameSize](_ => 0);
      readState := Empty;
      writeState := Ready;
    }

    method ReadControlEvent() returns (ev: Option<E.ChannelEvent>)
      requires Valid()
      modifies underlying`controlEvent
      ensures Valid()
      ensures ev == old(underlying.controlEvent) && underlying.controlEvent == None
    {
      ev := underlying.ReadControlEvent();
    }

    /**
     * One `poll`: the read half with the OUT endpoint's outcome, then the
     * write half with the IN endpoint's outcome, then the halt signal.
     * Returns the packet handed to the IN endpoint, if any.
     */
    method Poll(readOutcome: ReadOutcome, writeOutcome: WriteOutcome) returns (sent: Option<seq<u8>>)
      requires Valid()
      modifies this, readBuffer, underlying`stalled
      ensures Valid()
      ensures readState == ReadStep(old(readState), MaxPacketSize(), readOutcome)
      ensures readBuffer[..] == ReadBufferAfter(old(readBuffer[..]), old(readState), readOutcome)
      ensures writeState == WriteStep(old(writeState), MaxPacketSize(), writeOutcome)
      ensures sent == Emitted(old(writeState), writeBuffer[..], MaxPacketSize())
      ensures Signal(old(writeState), writeState) == Stall ==> underlying.stalled
      ensures Signal(old(writeState), writeState) == NoSignal ==> underlying.stalled == old(underlying.stalled)
      ensures Signal(old(writeState), writeState) != Unstall
    {
      PollRead(readOutcome);
      var wasWritingReady := writeState == Ready;
      sent := PollWrite(writeOutcome);
      var isWritingReady := writeState == Ready;
      if wasWritingReady != isWritingReady {
        if isWritingReady {
          underlying.Stall();
        } else {
          // The `unstall` branch: unreachable, since the write half never leaves Ready.
          assert false;
        }
      }
    }

    /** The read half of `poll`: one packet stored at the current index, unless the frame is complete. */
    method PollRead(outcome: ReadOutcome)
      requires Valid()
      modifies this`readState, readBuffer
      ensures Valid()
      ensures readState == ReadStep(old(readState), MaxPacketSize(), outcome)
      ensures readBuffer[..] == ReadBufferAfter(old(readBuffer[..]), old(readState), outcome)
    {
      if readState != Full {
        var index := readState.Index();
        var packetSize := underlying.maxPacketSize;
        match outcome
        case Packet(data) =>
          if |data| > FrameSize - index {
            readState := Empty;
          } else {
            forall k | 0 <= k < |data| {
              readBuffer[index + k] := data[k];
            }
            assert readBuffer[..] == old(readBuffer[..])[..index] + data + old(readBuffer[..])[index + |data| ..];
            if |data| == packetSize {
              readState := WaitingForPacket(index + |data|);
            } else {
              readState := Full;
            }
          }
        case ReadWouldBlock =>
        case ReadFailed =>
          readState := Empty;
      }
    }

    /** The write half of `poll`: the next slice of the write buffer, or the closing zero-length packet. */
    method PollWrite(outcome: WriteOutcome) returns (sent: Option<seq<u8>>)
      requires Valid()
      modifies this`writeState
      ensures Valid()
      ensures writeState == WriteStep(old(writeState), MaxPacketSize(), outcome)
      ensures sent == Emitted(old(writeState), writeBuffer[..], MaxPacketSize())
    {
      sent := None;
      if writeState.Writing? {
        var remainder := writeState.remainder;
        if remainder == 0 {
          sent := Some([]);
          writeState := Ready;
        } else {
          var packetSize := underlying.maxPacketSize;
          var fromIndex := FrameSize - remainder;
          var toIndex := if fromIndex + packetSize < FrameSize then fromIndex + packetSize else FrameSize;
          sent := Some(writeBuffer[fromIndex..toIndex]);
          match outcome
          case Sent =>
            var bytes := toIndex - fromIndex;
            if bytes == packetSize {
              writeState := Writing(remainder - bytes);
            } else {
              writeState := Ready;
            }
          case WriteWouldBlock =>
          case WriteFailed =>
            writeState := Ready;
        }
      }
    }

    /** `reset`: halts the IN endpoint. */
    method Reset()
      requires Valid()
      modifies underlying`stalled
      ensures Valid() && underlying.stalled
    {
      underlying.Stall();
    }

    /**
     * `read_frame`, from its commented-out body: a complete frame is decoded
     * and the read side starts over; otherwise WouldBlock.
     */
    method ReadFrame() returns (r: ReadFrameResult)
      requires Valid()
      modifies this`readState
      ensures Valid()
      ensures old(readState).Full? ==>
        r == FrameRead(DecodeFrame(readBuffer[..]).value) && readState == Empty
      ensures !old(readState).Full? ==> r == ReadFrameWouldBlock && readState == old(readState)
    {
      if readState == Full {
        readState := Empty;
        var decoded := DecodeFrame(readBuffer[..]);
        r := if decoded.Some? then FrameRead(decoded.value) else ReadParseError;
      } else {
        r := ReadFrameWouldBlock;
      }
    }

    /**
     * `write_frame`, from its commented-out body: when Ready the frame is
     * packed into the write buffer and a 76-byte transfer begins; otherwise
     * WouldBlock.
     */
    method WriteFrame(f: HostFrame) returns (r: WriteFrameResult)
      requires Valid()
      modifies this`writeState, writeBuffer
      ensures Valid()
      ensures old(writeState).Ready? ==>
        r == FrameQueued && writeBuffer[..] == EncodeFrame(f) && writeState == Writing(FrameSize)
      ensures old(writeState).Writing? ==>
        r == WriteFrameWouldBlock && writeBuffer[..] == old(writeBuffer[..]) && writeState == old(writeState)
    {
      if writeState.Writing? {
        return WriteFrameWouldBlock;
      }
      var bytes := EncodeFrame(f);
      forall k | 0 <= k < FrameSize {
        writeBuffer[k] := bytes[k];
      }
      writeState := Writing(FrameSize);
      r := FrameQueued;
    }

    method ControlOut(req: G.Request, data: seq<u8>) returns (response: G.ControlResponse)
      requires Valid()
      modifies underlying`controlEvent
      ensures Valid()
      ensures G.OutStep(underlying.controlEvent, response)
              == G.ControlOutStep(old(underlying.controlEvent), req, data, underlying.commIf, |underlying.channels|)
    {
      response := underlying.ControlOut(req, data);
    }

    method ControlIn(req: G.Request) returns (response: G.ControlResponse)
      requires Valid()
      ensures !G.InScope(req, underlying.commIf) ==> response == G.Ignored
      ensures G.InScope(req, underlying.commIf) && G.FromRaw(req.request) == Some(G.GsUsbRequest.DeviceConfig) ==>
        response == G.Accepted(G.DeviceConfigLayout(underlying.config))
      ensures G.InScope(req, underlying.commIf) && G.FromRaw(req.request) == Some(G.GsUsbRequest.BtConst) ==>
        response == if req.value < |underlying.channels|
                    then G.Accepted(G.BtConstLayout(G.NewBtConst(underlying.channels[req.value])))
                    else G.Rejected
      ensures G.InScope(req, underlying.commIf) && G.FromRaw(req.request) == Some(G.GsUsbRequest.BtConstExt) ==>
        response == if req.value < |underlying.channels|
                    then G.Accepted(G.BtConstExtLayout(G.NewBtConstExt(underlying.channels[req.value])))
                    else G.Rejected
      ensures G.InScope(req, underlying.commIf) && !G.IsReadable(G.FromRaw(req.request)) ==> response == G.Rejected
    {
      response := underlying.ControlIn(req);
    }
  }

  /** A frame written by `write_frame` and read back after a complete transfer is the same frame. */
  lemma WrittenFrameReadBack(f: HostFrame, rbuf: seq<u8>, mps: nat)
    requires |rbuf| == FrameSize && mps > 0
    ensures var side := Feed(Empty, rbuf, Drain(Writing(FrameSize), EncodeFrame(f), mps), mps);
            side.state == Full && DecodeFrame(side.buffer) == Some(f)
  {
    TransferRoundTrip(rbuf, EncodeFrame(f), mps);
    DecodeEncode(f);
  }
}
